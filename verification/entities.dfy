/**
 * The entities of Roots vs Robots and the fixed-capacity slot discipline
 * shared by the plant, robot and projectile arrays: a slot is reused once
 * its `active` flag is cleared, and a creation takes the first inactive
 * slot by ascending index or silently does nothing when every slot is taken.
 */
module Entities {

  // Screen and arena geometry
  const SCREEN_WIDTH: int := 800
  const LANE_COUNT: int := 5
  const LANE_HEIGHT: int := 100
  const LANE_CENTER: int := 50
  const MAX_ROBOTS: int := 10
  const MAX_PROJECTILES: int := 50

  // Difficulty presets: match duration in seconds and robot speed in pixels per frame
  const EASY_TIME: int := 60
  const HARD_TIME: int := 30
  const EASY_ROBOT_SPEED: int := 1
  const HARD_ROBOT_SPEED: int := 3
  const BASE_HEALTH: int := 5

  // Unit rules
  const PLANT_LIMIT: int := 7
  const SHOOT_INTERVAL: int := 60
  const ROBOT_HEALTH: int := 3
  const PROJECTILE_STEP: int := 5
  const MUZZLE_OFFSET: int := 20
  const ROBOT_SIZE: int := 40
  const PROJECTILE_RADIUS: int := 5
  const KILL_REWARD: int := 10
  const SPAWN_ODDS: int := 2
  const OFFSCREEN_X: int := -100

  datatype Option<T> = None | Some(value: T)

  /** A plant (turret); one slot per lane, positioned where it was placed. */
  datatype Plant = Plant(x: int, y: int, active: bool, shootTimer: int)

  /** A robot walking left; its top-left corner is (x, y). */
  datatype Robot = Robot(x: int, y: int, active: bool, health: int)

  /** A pea flying right, remembering the index of the plant that fired it. */
  datatype Projectile = Projectile(x: int, y: int, active: bool, lane: int)

  /** The last message handed to EndGame; `NoMessage` before any. */
  datatype EndMessage = NoMessage | YouWon | YouLost

  /** The vertical centre of a lane. */
  function LaneY(lane: int): int
  {
    lane * LANE_HEIGHT + LANE_CENTER
  }

  predicate PlantActive(p: Plant) { p.active }
  predicate RobotActive(r: Robot) { r.active }
  predicate ProjectileActive(p: Projectile) { p.active }

  /** The lowest index whose element satisfies `p`, if any. */
  function First<T>(s: seq<T>, p: T -> bool): (r: Option<nat>)
    ensures r.Some? ==> r.value < |s| && p(s[r.value])
    ensures r.Some? ==> forall j :: 0 <= j < r.value ==> !p(s[j])
    ensures r.None? ==> forall j :: 0 <= j < |s| ==> !p(s[j])
  {
    if |s| == 0 then None
    else if p(s[0]) then Some(0)
    else match First(s[1..], p)
      case None => None
      case Some(k) => Some(k + 1)
  }

  /** How many elements satisfy `p`. */
  function Count<T>(s: seq<T>, p: T -> bool): (n: nat)
    ensures n <= |s|
  {
    if |s| == 0 then 0
    else Count(s[..|s| - 1], p) + (if p(s[|s| - 1]) then 1 else 0)
  }

  /**
   * The slot allocation of SpawnRobot, PlacePlant and ShootProjectile:
   * `x` goes into the lowest-index inactive slot; a full array is unchanged.
   */
  function Claim<T>(s: seq<T>, active: T -> bool, x: T): (s': seq<T>)
    ensures |s'| == |s|
  {
    match First(s, y => !active(y))
    case None => s
    case Some(k) => s[k := x]
  }

  /**
   * A claim writes `x` over the first inactive slot and leaves every other
   * slot alone; with no inactive slot it changes nothing.
   */
  lemma ClaimFirstFree<T>(s: seq<T>, active: T -> bool, x: T)
    ensures forall j :: 0 <= j < |s| ==> Claim(s, active, x)[j] == s[j] || (!active(s[j]) && Claim(s, active, x)[j] == x)
    ensures (forall j :: 0 <= j < |s| ==> active(s[j])) ==> Claim(s, active, x) == s
    ensures forall k :: 0 <= k < |s| && !active(s[k]) && (forall j :: 0 <= j < k ==> active(s[j])) ==>
      Claim(s, active, x) == s[k := x]
  {
    match First(s, y => !active(y))
    case None =>
    case Some(k) =>
      forall k' | 0 <= k' < |s| && !active(s[k']) && (forall j :: 0 <= j < k' ==> active(s[j]))
        ensures k' == k
      {
      }
  }

  /** Replacing one element changes the count by exactly that element's contribution. */
  lemma {:induction false} CountUpdate<T>(s: seq<T>, p: T -> bool, k: nat, x: T)
    requires k < |s|
    ensures Count(s[k := x], p) + (if p(s[k]) then 1 else 0) == Count(s, p) + (if p(x) then 1 else 0)
    decreases |s|
  {
    var t := s[k := x];
    assert t[..|t| - 1] == if k == |s| - 1 then s[..|s| - 1] else s[..|s| - 1][k := x];
    if k < |s| - 1 {
      CountUpdate(s[..|s| - 1], p, k, x);
    }
  }

  /** Every element satisfies `p` exactly when all of them are counted. */
  lemma {:induction false} CountFull<T>(s: seq<T>, p: T -> bool)
    ensures Count(s, p) == |s| <==> forall j :: 0 <= j < |s| ==> p(s[j])
    decreases |s|
  {
    if |s| > 0 {
      var init := s[..|s| - 1];
      CountFull(init, p);
      assert forall j :: 0 <= j < |init| ==> init[j] == s[j];
    }
  }

  /** No element satisfies `p` exactly when the count is zero. */
  lemma {:induction false} CountEmpty<T>(s: seq<T>, p: T -> bool)
    ensures Count(s, p) == 0 <==> forall j :: 0 <= j < |s| ==> !p(s[j])
    decreases |s|
  {
    if |s| > 0 {
      var init := s[..|s| - 1];
      CountEmpty(init, p);
      assert forall j :: 0 <= j < |init| ==> init[j] == s[j];
    }
  }

  /** If `q` holds wherever `p` does, then `p` counts no more than `q`. */
  lemma {:induction false} CountMono<T>(s: seq<T>, t: seq<T>, p: T -> bool, q: T -> bool)
    requires |s| == |t|
    requires forall j :: 0 <= j < |s| ==> p(s[j]) ==> q(t[j])
    ensures Count(s, p) <= Count(t, q)
    decreases |s|
  {
    if |s| > 0 {
      var n := |s| - 1;
      assert forall j :: 0 <= j < n ==> s[..n][j] == s[j] && t[..n][j] == t[j];
      CountMono(s[..n], t[..n], p, q);
    }
  }

  /** Two sequences that agree pointwise on `p` and `q` have equal counts. */
  lemma CountSame<T>(s: seq<T>, t: seq<T>, p: T -> bool, q: T -> bool)
    requires |s| == |t|
    requires forall j :: 0 <= j < |s| ==> (p(s[j]) <==> q(t[j]))
    ensures Count(s, p) == Count(t, q)
  {
    CountMono(s, t, p, q);
    CountMono(t, s, q, p);
  }

  /** Extending a prefix by one element adds that element's contribution. */
  lemma CountPrefix<T>(s: seq<T>, p: T -> bool, n: nat)
    requires n < |s|
    ensures Count(s[..n + 1], p) == Count(s[..n], p) + (if p(s[n]) then 1 else 0)
  {
    assert s[..n + 1][..n] == s[..n];
  }

  /**
   * A claim of an active element adds one active slot when there was a free
   * slot and none otherwise, so a full array saturates silently.
   */
  lemma ClaimCount<T>(s: seq<T>, active: T -> bool, x: T)
    requires active(x)
    ensures Count(Claim(s, active, x), active) == if Count(s, active) < |s| then Count(s, active) + 1 else |s|
  {
    CountFull(s, active);
    match First(s, y => !active(y))
    case None =>
    case Some(k) =>
      CountUpdate(s, active, k, x);
  }
}
