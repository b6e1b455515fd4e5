/**
 * The rules that act on the entity arrays during a frame: robot spawning,
 * robot motion and breaches, plant shooting, projectile flight and the
 * collision pass, each stated over the array contents as sequences.
 */
module Rules {
  import opened Entities
  import opened Geometry

  // ---------------------------------------------------------------- invariants

  /** Every active robot still has health left. */
  ghost predicate Healthy(rs: seq<Robot>)
  {
    forall j :: 0 <= j < |rs| && rs[j].active ==> rs[j].health > 0
  }

  /** Every active robot is on screen: it has not yet crossed the base line. */
  ghost predicate OnScreen(rs: seq<Robot>)
  {
    forall j :: 0 <= j < |rs| && rs[j].active ==> rs[j].x >= 0
  }

  /** Every active projectile was fired by one of the lane plants. */
  ghost predicate LanesValid(ps: seq<Projectile>)
  {
    forall j :: 0 <= j < |ps| && ps[j].active ==> 0 <= ps[j].lane < LANE_COUNT
  }

  // ---------------------------------------------------------------- robots

  /** The robot SpawnRobot writes: right screen edge, centred in `lane`, full health. */
  function NewRobot(lane: int): Robot
  {
    Robot(SCREEN_WIDTH, LaneY(lane), true, ROBOT_HEALTH)
  }

  function SpawnRobot(rs: seq<Robot>, lane: int): seq<Robot>
  {
    Claim(rs, RobotActive, NewRobot(lane))
  }

  /**
   * A spawn writes a full-health robot at the right screen edge, centred in
   * `lane`, into the lowest-index inactive slot and touches no other slot;
   * with all ten robots active it changes nothing.
   */
  lemma SpawnRobotFills(rs: seq<Robot>, lane: int)
    ensures (forall j :: 0 <= j < |rs| ==> rs[j].active) ==> SpawnRobot(rs, lane) == rs
    ensures forall k :: 0 <= k < |rs| && !rs[k].active && (forall j :: 0 <= j < k ==> rs[j].active) ==>
      SpawnRobot(rs, lane) == rs[k := Robot(SCREEN_WIDTH, lane * 100 + 50, true, 3)]
  {
    ClaimFirstFree(rs, RobotActive, NewRobot(lane));
  }

  /** A spawn keeps every active robot healthy and on screen. */
  lemma SpawnRobotKeeps(rs: seq<Robot>, lane: int)
    requires Healthy(rs) && OnScreen(rs)
    ensures Healthy(SpawnRobot(rs, lane)) && OnScreen(SpawnRobot(rs, lane))
  {
    var x := NewRobot(lane);
    var r := SpawnRobot(rs, lane);
    forall j | 0 <= j < |r| && r[j].active
      ensures r[j].health > 0 && r[j].x >= 0
    {
      assert r[j] == rs[j] || r[j] == x;
    }
  }

  /** A spawn adds one active robot, unless all ten slots are taken. */
  lemma SpawnRobotCount(rs: seq<Robot>, lane: int)
    ensures Count(SpawnRobot(rs, lane), RobotActive) ==
      if Count(rs, RobotActive) < |rs| then Count(rs, RobotActive) + 1 else |rs|
  {
    ClaimCount(rs, RobotActive, NewRobot(lane));
  }

  /** One step of the robot move loop: an active robot walks `speed` to the left and leaves once past x = 0. */
  function MoveRobot(r: Robot, speed: int): Robot
  {
    if !r.active then r
    else
      var x := r.x - speed;
      r.(x := x, active := x >= 0)
  }

  function MoveRobots(rs: seq<Robot>, speed: int): (rs': seq<Robot>)
    ensures |rs'| == |rs|
    ensures forall j :: 0 <= j < |rs| ==> rs'[j] == MoveRobot(rs[j], speed)
  {
    seq(|rs|, j requires 0 <= j < |rs| => MoveRobot(rs[j], speed))
  }

  /** The robots that reach the base this frame. */
  function Breaching(speed: int): Robot -> bool
  {
    (r: Robot) => r.active && r.x - speed < 0
  }

  /**
   * Moving robots never activates one, keeps the invariants, and the robots
   * that breach are exactly the ones that stop being active.
   */
  lemma {:induction false} BreachesAreExits(rs: seq<Robot>, speed: int)
    ensures Count(rs, Breaching(speed)) + Count(MoveRobots(rs, speed), RobotActive) == Count(rs, RobotActive)
    ensures Healthy(rs) ==> Healthy(MoveRobots(rs, speed))
    ensures OnScreen(MoveRobots(rs, speed))
    decreases |rs|
  {
    var ms := MoveRobots(rs, speed);
    if |rs| > 0 {
      var n := |rs| - 1;
      BreachesAreExits(rs[..n], speed);
      assert MoveRobots(rs[..n], speed) == ms[..n];
    }
  }

  /** The robot after `n` undisturbed frames. */
  function MarchedRobot(r: Robot, speed: int, n: nat): Robot
  {
    if n == 0 then r else MoveRobot(MarchedRobot(r, speed, n - 1), speed)
  }

  /**
   * An active, on-screen robot left alone for `n` frames is still active
   * exactly when it has covered less than its distance to the base; while it
   * is active it has moved `n * speed` to the left.
   */
  lemma {:induction false} RobotMarch(r: Robot, speed: int, n: nat)
    requires r.active && r.x >= 0 && speed > 0
    ensures MarchedRobot(r, speed, n).active <==> r.x - n * speed >= 0
    ensures MarchedRobot(r, speed, n).active ==> MarchedRobot(r, speed, n).x == r.x - n * speed
    ensures MarchedRobot(r, speed, n).y == r.y && MarchedRobot(r, speed, n).health == r.health
  {
    if n > 0 {
      RobotMarch(r, speed, n - 1);
      assert r.x - n * speed == r.x - (n - 1) * speed - speed;
      if !MarchedRobot(r, speed, n - 1).active {
        assert r.x - n * speed < 0;
      }
    }
  }

  /** On the hard setting a robot spawned at the right edge is still walking after 266 frames and breaches on frame 267. */
  lemma HardRobotBreachTime(lane: int)
    ensures MarchedRobot(NewRobot(lane), HARD_ROBOT_SPEED, 266).active
    ensures MarchedRobot(NewRobot(lane), HARD_ROBOT_SPEED, 266).x == 2
    ensures !MarchedRobot(NewRobot(lane), HARD_ROBOT_SPEED, 267).active
  {
    RobotMarch(NewRobot(lane), HARD_ROBOT_SPEED, 266);
    RobotMarch(NewRobot(lane), HARD_ROBOT_SPEED, 267);
  }

  // ---------------------------------------------------------------- plants and projectiles

  /** The plant PlacePlant writes: exactly at the click, timer full. */
  function NewPlant(x: int, y: int): Plant
  {
    Plant(x, y, true, SHOOT_INTERVAL)
  }

  /** The plant fires on this frame: its timer runs out after the decrement. */
  predicate Fires(p: Plant)
  {
    p.active && p.shootTimer - 1 <= 0
  }

  /** The timer update of one plant: count down, and rearm after a shot. */
  function TickPlant(p: Plant): Plant
  {
    if !p.active then p
    else if p.shootTimer - 1 <= 0 then p.(shootTimer := SHOOT_INTERVAL)
    else p.(shootTimer := p.shootTimer - 1)
  }

  function TickPlants(plants: seq<Plant>): (r: seq<Plant>)
    ensures |r| == |plants|
    ensures forall j :: 0 <= j < |plants| ==> r[j] == TickPlant(plants[j])
  {
    seq(|plants|, j requires 0 <= j < |plants| => TickPlant(plants[j]))
  }

  /** Ticking timers changes no plant's position or activity, so the active count is kept. */
  lemma TickKeepsPlants(plants: seq<Plant>)
    ensures Count(TickPlants(plants), PlantActive) == Count(plants, PlantActive)
    ensures forall j :: 0 <= j < |plants| ==>
      TickPlants(plants)[j].x == plants[j].x && TickPlants(plants)[j].y == plants[j].y &&
      TickPlants(plants)[j].active == plants[j].active
  {
    CountSame(TickPlants(plants), plants, PlantActive, PlantActive);
  }

  /** The plant after `n` frames of the timer update. */
  function TickedPlant(p: Plant, n: nat): Plant
  {
    if n == 0 then p else TickPlant(TickedPlant(p, n - 1))
  }

  /**
   * The fire rhythm: an active plant whose timer shows t in 1 .. 60 fires
   * first on frame t and then on every 60th frame after, whether or not
   * there is anything to shoot at, and never moves or goes inactive.
   */
  lemma {:induction false} PlantRhythm(p: Plant, n: nat)
    requires p.active && 1 <= p.shootTimer <= SHOOT_INTERVAL
    ensures TickedPlant(p, n).active && TickedPlant(p, n).x == p.x && TickedPlant(p, n).y == p.y
    ensures TickedPlant(p, n).shootTimer ==
      if n < p.shootTimer then p.shootTimer - n else SHOOT_INTERVAL - (n - p.shootTimer) % SHOOT_INTERVAL
    ensures Fires(TickedPlant(p, n)) <==> n + 1 >= p.shootTimer && (n + 1 - p.shootTimer) % SHOOT_INTERVAL == 0
  {
    var t := p.shootTimer;
    if n > 0 {
      PlantRhythm(p, n - 1);
      if n > t {
        IntervalNext(n - 1 - t);
      }
    }
    if n >= t {
      IntervalNext(n - t);
    }
  }

  /** Counting one more frame moves the position within the firing interval one step on, wrapping at 60. */
  lemma IntervalNext(m: nat)
    ensures (m + 1) % SHOOT_INTERVAL == if m % SHOOT_INTERVAL == SHOOT_INTERVAL - 1 then 0 else m % SHOOT_INTERVAL + 1
  {
  }

  /** ShootProjectile(lane): a pea at the plant's muzzle, in the first free projectile slot. */
  function Shoot(ps: seq<Projectile>, plant: Plant, lane: int): seq<Projectile>
  {
    Claim(ps, ProjectileActive, Pea(plant, lane))
  }

  /** The projectile a plant fires: at its muzzle, tagged with the lane of the plant that fired it. */
  function Pea(plant: Plant, lane: int): Projectile
  {
    Projectile(plant.x + MUZZLE_OFFSET, plant.y, true, lane)
  }

  /**
   * The projectiles after plants 0 .. n-1 have had their turn: every plant
   * whose timer runs out shoots, in index order, whether or not a robot is near.
   */
  function Volley(plants: seq<Plant>, ps: seq<Projectile>, n: nat): (r: seq<Projectile>)
    requires n <= |plants|
    ensures |r| == |ps|
    decreases n
  {
    if n == 0 then ps
    else
      var q := Volley(plants, ps, n - 1);
      if Fires(plants[n - 1]) then Shoot(q, plants[n - 1], n - 1) else q
  }

  /**
   * Projectiles already in flight are never disturbed by a volley, and every
   * new one is the pea of a plant that fired: tagged with its index and at its muzzle.
   */
  lemma {:induction false} VolleyKeepsFlying(plants: seq<Plant>, ps: seq<Projectile>, n: nat)
    requires n <= |plants|
    ensures forall j :: 0 <= j < |ps| && ps[j].active ==> Volley(plants, ps, n)[j] == ps[j]
    ensures forall j :: 0 <= j < |ps| && Volley(plants, ps, n)[j].active && !ps[j].active ==>
      0 <= Volley(plants, ps, n)[j].lane < n && Fires(plants[Volley(plants, ps, n)[j].lane]) &&
      Volley(plants, ps, n)[j] == Pea(plants[Volley(plants, ps, n)[j].lane], Volley(plants, ps, n)[j].lane)
    decreases n
  {
    if n > 0 {
      VolleyKeepsFlying(plants, ps, n - 1);
      ClaimFirstFree(Volley(plants, ps, n - 1), ProjectileActive, Pea(plants[n - 1], n - 1));
    }
  }

  /**
   * A shot puts an active pea 20 to the right of the plant, at its height and
   * tagged with `lane`, into the lowest-index inactive projectile slot and
   * touches no other slot; with all fifty slots active it changes nothing.
   */
  lemma ShootFills(ps: seq<Projectile>, plant: Plant, lane: int)
    ensures (forall j :: 0 <= j < |ps| ==> ps[j].active) ==> Shoot(ps, plant, lane) == ps
    ensures forall k :: 0 <= k < |ps| && !ps[k].active && (forall j :: 0 <= j < k ==> ps[j].active) ==>
      Shoot(ps, plant, lane) == ps[k := Projectile(plant.x + 20, plant.y, true, lane)]
  {
    ClaimFirstFree(ps, ProjectileActive, Pea(plant, lane));
    assert Pea(plant, lane) == Projectile(plant.x + 20, plant.y, true, lane);
  }

  /** A shot adds one active projectile, unless all fifty slots are taken. */
  lemma ShootCount(ps: seq<Projectile>, plant: Plant, lane: int)
    ensures Count(Shoot(ps, plant, lane), ProjectileActive) ==
      if Count(ps, ProjectileActive) < |ps| then Count(ps, ProjectileActive) + 1 else |ps|
  {
    ClaimCount(ps, ProjectileActive, Pea(plant, lane));
  }

  /** Each shot of a volley adds one active projectile until all slots are taken; the rest are dropped. */
  lemma {:induction false} VolleyCount(plants: seq<Plant>, ps: seq<Projectile>, n: nat)
    requires n <= |plants|
    ensures var wanted := Count(ps, ProjectileActive) + Count(plants[..n], Fires);
      Count(Volley(plants, ps, n), ProjectileActive) == if wanted <= |ps| then wanted else |ps|
    decreases n
  {
    if n > 0 {
      var q := Volley(plants, ps, n - 1);
      VolleyCount(plants, ps, n - 1);
      VolleyStep(plants, ps, n - 1);
      CountPrefix(plants, Fires, n - 1);
      if Fires(plants[n - 1]) {
        ShootCount(q, plants[n - 1], n - 1);
        assert Count(plants[..n], Fires) == Count(plants[..n - 1], Fires) + 1;
      } else {
        assert Count(plants[..n], Fires) == Count(plants[..n - 1], Fires);
      }
    }
  }

  /** Plant `n` takes its turn after plants 0 .. n-1: it shoots exactly when its timer runs out. */
  lemma VolleyStep(plants: seq<Plant>, ps: seq<Projectile>, n: nat)
    requires n < |plants|
    ensures Volley(plants, ps, n + 1) ==
      if Fires(plants[n]) then Shoot(Volley(plants, ps, n), plants[n], n) else Volley(plants, ps, n)
  {
  }

  /** One step of UpdateProjectiles: an active pea flies right and is dropped once past the right edge. */
  function AdvanceProjectile(p: Projectile): Projectile
  {
    if !p.active then p
    else
      var x := p.x + PROJECTILE_STEP;
      p.(x := x, active := x <= SCREEN_WIDTH)
  }

  function AdvanceProjectiles(ps: seq<Projectile>): (r: seq<Projectile>)
    ensures |r| == |ps|
    ensures forall j :: 0 <= j < |ps| ==> r[j] == AdvanceProjectile(ps[j])
  {
    seq(|ps|, j requires 0 <= j < |ps| => AdvanceProjectile(ps[j]))
  }

  /** Flight never activates a projectile, never changes its lane and leaves inactive slots alone. */
  lemma AdvanceKeeps(ps: seq<Projectile>)
    ensures forall j :: 0 <= j < |ps| && AdvanceProjectiles(ps)[j].active ==> ps[j].active
    ensures forall j :: 0 <= j < |ps| ==> AdvanceProjectiles(ps)[j].lane == ps[j].lane
    ensures forall j :: 0 <= j < |ps| && !ps[j].active ==> AdvanceProjectiles(ps)[j] == ps[j]
    ensures Count(AdvanceProjectiles(ps), ProjectileActive) <= Count(ps, ProjectileActive)
    ensures LanesValid(ps) ==> LanesValid(AdvanceProjectiles(ps))
  {
    CountMono(AdvanceProjectiles(ps), ps, ProjectileActive, ProjectileActive);
  }

  /** The projectile after `n` undisturbed frames. */
  function FlownProjectile(p: Projectile, n: nat): Projectile
  {
    if n == 0 then p else AdvanceProjectile(FlownProjectile(p, n - 1))
  }

  /**
   * An active pea left alone for `n` frames is still flying exactly while
   * it has not passed the right screen edge, at `5 * n` right of where it started.
   */
  lemma {:induction false} ProjectileFlight(p: Projectile, n: nat)
    requires p.active && p.x <= SCREEN_WIDTH
    ensures FlownProjectile(p, n).active <==> p.x + n * PROJECTILE_STEP <= SCREEN_WIDTH
    ensures FlownProjectile(p, n).active ==> FlownProjectile(p, n).x == p.x + n * PROJECTILE_STEP
    ensures FlownProjectile(p, n).y == p.y && FlownProjectile(p, n).lane == p.lane
  {
    if n > 0 {
      ProjectileFlight(p, n - 1);
    }
  }

  /**
   * A pea fired from a plant at x = px is dropped exactly on frame
   * (800 - px - 20) / 5 + 1; one fired from a plant placed closer than 20 to
   * the right edge starts past it and is dropped on its first advance.
   */
  lemma ShotLeavesScreen(p: Projectile, px: int)
    requires p.active && p.x == px + MUZZLE_OFFSET
    ensures p.x <= SCREEN_WIDTH ==>
      FlownProjectile(p, (SCREEN_WIDTH - px - MUZZLE_OFFSET) / PROJECTILE_STEP).active &&
      !FlownProjectile(p, (SCREEN_WIDTH - px - MUZZLE_OFFSET) / PROJECTILE_STEP + 1).active
    ensures p.x > SCREEN_WIDTH ==> !FlownProjectile(p, 1).active
  {
    if p.x <= SCREEN_WIDTH {
      var n := (SCREEN_WIDTH - px - MUZZLE_OFFSET) / PROJECTILE_STEP;
      ProjectileFlight(p, n);
      ProjectileFlight(p, n + 1);
    }
  }

  // ---------------------------------------------------------------- collisions

  /** The pea's circle overlaps the robot's 40 by 40 square. */
  predicate Hits(p: Projectile, r: Robot)
  {
    CircleHitsRect(p.x, p.y, PROJECTILE_RADIUS, r.x, r.y, ROBOT_SIZE, ROBOT_SIZE)
  }

  /** The robots a pea would strike. */
  function HitBy(p: Projectile): Robot -> bool
  {
    (r: Robot) => r.active && Hits(p, r)
  }

  /** Robot `j` is the lowest-index active robot the active pea `p` strikes. */
  ghost predicate FirstHit(p: Projectile, rs: seq<Robot>, j: int)
  {
    p.active && 0 <= j < |rs| && rs[j].active && Hits(p, rs[j]) &&
    forall k :: 0 <= k < j ==> !(rs[k].active && Hits(p, rs[k]))
  }

  /** A robot after one hit: one health less, and gone when none is left. */
  function Wounded(r: Robot): Robot
  {
    r.(health := r.health - 1, active := r.health - 1 > 0)
  }

  /** What the collision pass works on: the projectiles, the robots and the score. */
  datatype Combat = Combat(projectiles: seq<Projectile>, robots: seq<Robot>, score: int)

  /** The inner loop of CheckCollisions for projectile `i`. */
  function Resolve(c: Combat, i: nat): (c': Combat)
    requires i < |c.projectiles|
    ensures |c'.projectiles| == |c.projectiles| && |c'.robots| == |c.robots|
  {
    var p := c.projectiles[i];
    if !p.active then c
    else match First(c.robots, HitBy(p))
      case None => c
      case Some(j) =>
        var r := Wounded(c.robots[j]);
        Combat(c.projectiles[i := p.(active := false)],
               c.robots[j := r],
               if r.active then c.score else c.score + KILL_REWARD)
  }

  /**
   * An active pea strikes at most one robot, the lowest-index active robot
   * it overlaps: that robot loses exactly one health and the pea is spent;
   * every other pea and robot is left as it was. A pea that overlaps no
   * active robot, or is not active, changes nothing.
   */
  lemma ResolveHits(c: Combat, i: nat)
    requires i < |c.projectiles|
    ensures forall k :: 0 <= k < |c.projectiles| && k != i ==> Resolve(c, i).projectiles[k] == c.projectiles[k]
    ensures Resolve(c, i).projectiles[i] == c.projectiles[i].(active := c.projectiles[i].active &&
      forall j :: 0 <= j < |c.robots| ==> !(c.robots[j].active && Hits(c.projectiles[i], c.robots[j])))
    ensures forall j :: 0 <= j < |c.robots| && Resolve(c, i).robots[j] != c.robots[j] ==>
      FirstHit(c.projectiles[i], c.robots, j) && Resolve(c, i).robots[j] == Wounded(c.robots[j])
    ensures forall j :: FirstHit(c.projectiles[i], c.robots, j) ==> Resolve(c, i).robots[j] == Wounded(c.robots[j])
  {
  }

  /** The pass over an active pea whose lowest-index active target is robot `j`. */
  lemma StruckFirst(c: Combat, i: nat, j: nat)
    requires i < |c.projectiles| && FirstHit(c.projectiles[i], c.robots, j)
    ensures Resolve(c, i) == Combat(c.projectiles[i := c.projectiles[i].(active := false)],
                                    c.robots[j := Wounded(c.robots[j])],
                                    if Wounded(c.robots[j]).active then c.score else c.score + KILL_REWARD)
  {
    var p := c.projectiles[i];
    assert First(c.robots, HitBy(p)) == Some(j) by {
      match First(c.robots, HitBy(p))
      case None =>
      case Some(k) =>
        assert !(k < j) && !(j < k);
    }
  }

  /** The pass over a pea that overlaps no active robot changes nothing. */
  lemma StruckNone(c: Combat, i: nat)
    requires i < |c.projectiles|
    requires forall k :: 0 <= k < |c.robots| ==> !(c.robots[k].active && Hits(c.projectiles[i], c.robots[k]))
    ensures Resolve(c, i) == c
  {
    var p := c.projectiles[i];
    assert First(c.robots, HitBy(p)).None? by {
      match First(c.robots, HitBy(p))
      case None =>
      case Some(k) =>
    }
  }

  /**
   * A robot destroyed by the hit earns exactly 10 points, and the score
   * changes for no other reason, so it never falls.
   */
  lemma ResolveScore(c: Combat, i: nat)
    requires i < |c.projectiles|
    ensures Resolve(c, i).score - c.score ==
      KILL_REWARD * (Count(c.robots, RobotActive) - Count(Resolve(c, i).robots, RobotActive))
    ensures Resolve(c, i).score >= c.score
  {
    var p := c.projectiles[i];
    if p.active {
      match First(c.robots, HitBy(p))
      case None =>
      case Some(j) =>
        CountUpdate(c.robots, RobotActive, j, Wounded(c.robots[j]));
    }
  }

  /** A pass over one pea keeps robots healthy and on screen and changes no pea's lane. */
  lemma ResolveKeeps(c: Combat, i: nat)
    requires i < |c.projectiles|
    ensures Healthy(c.robots) ==> Healthy(Resolve(c, i).robots)
    ensures OnScreen(c.robots) ==> OnScreen(Resolve(c, i).robots)
    ensures LanesValid(c.projectiles) ==> LanesValid(Resolve(c, i).projectiles)
    ensures forall k :: 0 <= k < |c.projectiles| ==> Resolve(c, i).projectiles[k].lane == c.projectiles[k].lane
  {
    ResolveHits(c, i);
  }

  /** The collision pass after projectiles 0 .. n-1 have been checked, in index order. */
  function Collide(c: Combat, n: nat): (r: Combat)
    requires n <= |c.projectiles|
    ensures |r.projectiles| == |c.projectiles| && |r.robots| == |c.robots|
    decreases n
  {
    if n == 0 then c else Resolve(Collide(c, n - 1), n - 1)
  }

  /** Over a whole pass the score rises by exactly 10 per destroyed robot and never falls. */
  lemma {:induction false} CollideScore(c: Combat, n: nat)
    requires n <= |c.projectiles|
    ensures Collide(c, n).score - c.score ==
      KILL_REWARD * (Count(c.robots, RobotActive) - Count(Collide(c, n).robots, RobotActive))
    ensures Collide(c, n).score >= c.score
  {
    if n > 0 {
      var prev := Collide(c, n - 1);
      assert Collide(c, n) == Resolve(prev, n - 1);
      CollideScore(c, n - 1);
      ResolveScore(prev, n - 1);
    }
  }

  /** Over a whole pass robots stay healthy and on screen, and no projectile changes lane. */
  lemma {:induction false} CollideKeeps(c: Combat, n: nat)
    requires n <= |c.projectiles|
    ensures Healthy(c.robots) ==> Healthy(Collide(c, n).robots)
    ensures OnScreen(c.robots) ==> OnScreen(Collide(c, n).robots)
    ensures LanesValid(c.projectiles) ==> LanesValid(Collide(c, n).projectiles)
    ensures forall k :: 0 <= k < |c.projectiles| ==> Collide(c, n).projectiles[k].lane == c.projectiles[k].lane
  {
    if n > 0 {
      var prev := Collide(c, n - 1);
      assert Collide(c, n) == Resolve(prev, n - 1);
      CollideKeeps(c, n - 1);
      ResolveKeeps(prev, n - 1);
    }
  }

  /** The pea `k` is spent, or strikes no active robot. */
  ghost predicate Spent(c: Combat, k: int)
    requires 0 <= k < |c.projectiles|
  {
    c.projectiles[k].active ==>
      forall j :: 0 <= j < |c.robots| ==> !(c.robots[j].active && Hits(c.projectiles[k], c.robots[j]))
  }

  /** Resolving one pea moves nothing and only wounds or removes robots, so a spent pea stays spent. */
  lemma ResolveKeepsSpent(c: Combat, i: nat, k: nat)
    requires i < |c.projectiles| && k < |c.projectiles| && Spent(c, k)
    ensures Spent(Resolve(c, i), k)
  {
    var c' := Resolve(c, i);
    ResolveHits(c, i);
    forall j | 0 <= j < |c.robots| && c'.robots[j].active
      ensures c.robots[j].active && c'.robots[j].x == c.robots[j].x && c'.robots[j].y == c.robots[j].y
    {
      if c'.robots[j] != c.robots[j] {
        assert c'.robots[j] == Wounded(c.robots[j]);
        assert FirstHit(c.projectiles[i], c.robots, j);
      }
    }
  }

  /** Right after its own pass, a pea is spent: it either hit a robot or overlaps none that is active. */
  lemma ResolveSpends(c: Combat, i: nat)
    requires i < |c.projectiles|
    ensures Spent(Resolve(c, i), i)
  {
    var c' := Resolve(c, i);
    ResolveHits(c, i);
    if c'.projectiles[i].active {
      forall j | 0 <= j < |c.robots| && c'.robots[j].active
        ensures !Hits(c'.projectiles[i], c'.robots[j])
      {
      }
    }
  }

  /** After the pass over projectiles 0 .. n-1, none of them still active overlaps an active robot. */
  lemma {:induction false} CollideLeavesNoHit(c: Combat, n: nat)
    requires n <= |c.projectiles|
    ensures forall k :: 0 <= k < n ==> Spent(Collide(c, n), k)
  {
    if n > 0 {
      var prev := Collide(c, n - 1);
      assert Collide(c, n) == Resolve(prev, n - 1);
      CollideLeavesNoHit(c, n - 1);
      ResolveSpends(prev, n - 1);
      forall k | 0 <= k < n - 1
        ensures Spent(Collide(c, n), k)
      {
        ResolveKeepsSpent(prev, n - 1, k);
      }
    }
  }
}
