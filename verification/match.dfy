/**
 * The whole game state as one value, the steps a frame of UpdateGame goes
 * through, and the match state machine: menu, difficulty choice, play,
 * game over and restart.
 */
module Match {
  import opened Entities
  import opened Rules

  /** Every global the simulation reads or writes. */
  datatype World = World(
    plants: seq<Plant>, robots: seq<Robot>, projectiles: seq<Projectile>,
    gameRunning: bool, gameOver: bool, endMessage: EndMessage,
    score: int, baseHealth: int, gameTime: int, remainingTime: int,
    robotSpeed: int, plantCount: int)

  datatype Phase = Menu | Playing | GameOver

  /** The screen the main loop shows: the game-over flag is looked at first. */
  function PhaseOf(w: World): Phase
  {
    if w.gameOver then GameOver else if w.gameRunning then Playing else Menu
  }

  /**
   * What UpdateGame reads from the platform in one frame: whether a whole
   * second has accumulated, the spawn roll in [0, 100] and the lane drawn
   * for a spawned robot, and a left click with its position.
   */
  datatype FrameInput = FrameInput(
    secondElapsed: bool, spawnRoll: int, spawnLane: int,
    click: bool, mouseX: int, mouseY: int)

  predicate ValidInput(i: FrameInput)
  {
    0 <= i.spawnRoll <= 100 && 0 <= i.spawnLane < LANE_COUNT
  }

  /** The globals as the program starts: zero-filled arrays and the declared initial values. */
  function Boot(): World
  {
    World(seq(LANE_COUNT, _ => Plant(0, 0, false, 0)),
          seq(MAX_ROBOTS, _ => Robot(0, 0, false, 0)),
          seq(MAX_PROJECTILES, _ => Projectile(0, 0, false, 0)),
          false, false, NoMessage,
          0, BASE_HEALTH, EASY_TIME, 0,
          EASY_ROBOT_SPEED, 0)
  }

  /** The difficulty presets: easy is 60 seconds at speed 1, hard 30 seconds at speed 3. */
  predicate Preset(gameTime: int, robotSpeed: int)
  {
    (gameTime == EASY_TIME && robotSpeed == EASY_ROBOT_SPEED) ||
    (gameTime == HARD_TIME && robotSpeed == HARD_ROBOT_SPEED)
  }

  /**
   * What holds of the globals from program start on: the arrays keep their
   * sizes, plantCount counts exactly the active plants, active robots have
   * health and have not crossed the base line, every flying pea belongs to a
   * lane, the game is only over once it has been running, and the duration
   * and speed are one of the two presets.
   */
  ghost predicate Inv(w: World)
  {
    |w.plants| == LANE_COUNT && |w.robots| == MAX_ROBOTS && |w.projectiles| == MAX_PROJECTILES &&
    w.plantCount == Count(w.plants, PlantActive) &&
    Healthy(w.robots) && OnScreen(w.robots) && LanesValid(w.projectiles) &&
    (w.gameOver ==> w.gameRunning) &&
    Preset(w.gameTime, w.robotSpeed)
  }

  lemma BootValid()
    ensures Inv(Boot()) && PhaseOf(Boot()) == Menu
  {
    CountEmpty(Boot().plants, PlantActive);
  }

  /** Under the invariant at most five plants exist, so the cap of seven never refuses a placement. */
  lemma PlantLimitNeverBinds(w: World)
    requires Inv(w)
    ensures w.plantCount <= LANE_COUNT < PLANT_LIMIT
  {
  }

  // ---------------------------------------------------------------- match transitions

  /**
   * InitGame: plants back off screen in their lanes with their timers
   * cleared, every robot and projectile inactive, score and plant count
   * zero and the clock wound to the match duration. Base health is not reset.
   */
  function InitGame(w: World): (r: World)
    ensures |r.plants| == LANE_COUNT &&
      forall i :: 0 <= i < LANE_COUNT ==> r.plants[i] == Plant(-100, i * 100 + 50, false, 0)
    ensures Count(r.plants, PlantActive) == 0 && Count(r.robots, RobotActive) == 0
    ensures Count(r.projectiles, ProjectileActive) == 0
    ensures r.score == 0 && r.plantCount == 0 && r.remainingTime == w.gameTime
    ensures r.baseHealth == w.baseHealth && r.endMessage == w.endMessage
    ensures PhaseOf(r) == PhaseOf(w)
    ensures r == w.(plants := r.plants, robots := r.robots, projectiles := r.projectiles,
                    score := 0, remainingTime := w.gameTime, plantCount := 0)
    ensures |r.robots| == |w.robots| && forall i :: 0 <= i < |w.robots| ==> r.robots[i] == w.robots[i].(active := false)
    ensures |r.projectiles| == |w.projectiles| &&
      forall i :: 0 <= i < |w.projectiles| ==> r.projectiles[i] == w.projectiles[i].(active := false)
  {
    var r := w.(plants := seq(LANE_COUNT, i => Plant(OFFSCREEN_X, LaneY(i), false, 0)),
                robots := seq(|w.robots|, i requires 0 <= i < |w.robots| => w.robots[i].(active := false)),
                projectiles := seq(|w.projectiles|, i requires 0 <= i < |w.projectiles| =>
                                    w.projectiles[i].(active := false)),
                score := 0, remainingTime := w.gameTime, plantCount := 0);
    CountEmpty(r.plants, PlantActive);
    CountEmpty(r.robots, RobotActive);
    CountEmpty(r.projectiles, ProjectileActive);
    r
  }

  /** InitGame keeps the invariant. */
  lemma InitGameValid(w: World)
    requires Inv(w)
    ensures Inv(InitGame(w))
  {
  }

  /** One pass of the difficulty screen: key 1 picks easy, key 2 hard; each starts a fresh match. */
  function ChooseDifficulty(w: World, keyOne: bool, keyTwo: bool): World
  {
    var w1 := if keyOne then InitGame(w.(gameTime := EASY_TIME, robotSpeed := EASY_ROBOT_SPEED, gameRunning := true))
              else w;
    if keyTwo then InitGame(w1.(gameTime := HARD_TIME, robotSpeed := HARD_ROBOT_SPEED, gameRunning := true))
    else w1
  }

  /**
   * From the menu, a difficulty key starts play with that preset, a cleared
   * field, score zero and the full duration on the clock; without a key nothing
   * changes. When both keys are down in one pass the hard preset wins.
   */
  lemma ChooseDifficultyStarts(w: World, keyOne: bool, keyTwo: bool)
    requires Inv(w) && PhaseOf(w) == Menu
    ensures !keyOne && !keyTwo ==> ChooseDifficulty(w, keyOne, keyTwo) == w
    ensures var r := ChooseDifficulty(w, keyOne, keyTwo);
      (keyOne || keyTwo) ==>
        Inv(r) && PhaseOf(r) == Playing &&
        r.gameTime == (if keyTwo then HARD_TIME else EASY_TIME) &&
        r.robotSpeed == (if keyTwo then HARD_ROBOT_SPEED else EASY_ROBOT_SPEED) &&
        r.remainingTime == r.gameTime && r.score == 0 && r.baseHealth == w.baseHealth &&
        Count(r.robots, RobotActive) == 0 && Count(r.projectiles, ProjectileActive) == 0 &&
        r.plantCount == 0 && forall j :: 0 <= j < |r.plants| ==> !r.plants[j].active
  {
  }

  /** The game-over screen's ENTER: clear the flag and re-initialise, straight back into play. */
  function Restart(w: World): World
  {
    InitGame(w.(gameOver := false))
  }

  /**
   * A restart from game over resumes play on the same difficulty with a
   * cleared field, score zero and the full duration, but keeps the base
   * health the last match ended with.
   */
  lemma RestartResumesPlay(w: World)
    requires Inv(w) && PhaseOf(w) == GameOver
    ensures var r := Restart(w);
      Inv(r) && PhaseOf(r) == Playing &&
      r.gameTime == w.gameTime && r.robotSpeed == w.robotSpeed && r.remainingTime == w.gameTime &&
      r.score == 0 && r.baseHealth == w.baseHealth && r.plantCount == 0 &&
      Count(r.robots, RobotActive) == 0 && Count(r.projectiles, ProjectileActive) == 0
  {
  }

  /** EndGame: the match is over and the message is the one most recently written. */
  function EndGame(w: World, message: EndMessage): World
  {
    w.(gameOver := true, endMessage := message)
  }

  // ---------------------------------------------------------------- the steps of a frame

  /** The clock: one second off when a full second has accumulated; at zero the player has won. */
  function CountDown(w: World, secondElapsed: bool): World
  {
    var t := if secondElapsed then w.remainingTime - 1 else w.remainingTime;
    var w1 := w.(remainingTime := t);
    if t <= 0 then EndGame(w1, YouWon) else w1
  }

  /** A robot is spawned on a roll below 2 out of [0, 100]. */
  function SpawnStep(w: World, roll: int, lane: int): World
  {
    if roll < SPAWN_ODDS then w.(robots := SpawnRobot(w.robots, lane)) else w
  }

  /**
   * The robot move loop: every active robot walks left; each one past the
   * base line is removed and costs one base health, and the player has lost
   * once a breach leaves the base with no health.
   */
  function MoveRobotsStep(w: World): World
  {
    var b := Count(w.robots, Breaching(w.robotSpeed));
    var lost := b > 0 && w.baseHealth - b <= 0;
    var w1 := w.(robots := MoveRobots(w.robots, w.robotSpeed), baseHealth := w.baseHealth - b);
    if lost then EndGame(w1, YouLost) else w1
  }

  /**
   * PlacePlant: refused while seven plants have been counted; otherwise the
   * first inactive plant slot gets a plant exactly at the click and the count
   * goes up, unless all slots are active, when nothing changes.
   */
  function PlacePlant(w: World, x: int, y: int): (r: World)
    ensures w.plantCount >= PLANT_LIMIT ==> r == w
    ensures r.plantCount - Count(r.plants, PlantActive) == w.plantCount - Count(w.plants, PlantActive)
    ensures |r.plants| == |w.plants|
    ensures r == w.(plants := r.plants, plantCount := r.plantCount)
  {
    if w.plantCount >= PLANT_LIMIT then w
    else if exists j :: 0 <= j < |w.plants| && !w.plants[j].active then
      CountFull(w.plants, PlantActive);
      ClaimCount(w.plants, PlantActive, NewPlant(x, y));
      w.(plants := Claim(w.plants, PlantActive, NewPlant(x, y)), plantCount := w.plantCount + 1)
    else w
  }

  /**
   * Under the invariant a placement is refused exactly when all five plant
   * slots are active; otherwise it fills the lowest free slot with a plant at
   * the click and counts it. The invariant is kept either way.
   */
  lemma PlacePlantValid(w: World, x: int, y: int)
    requires Inv(w)
    ensures Inv(PlacePlant(w, x, y))
    ensures PlacePlant(w, x, y) == w <==> forall j :: 0 <= j < |w.plants| ==> w.plants[j].active
    ensures PlacePlant(w, x, y) != w ==>
      PlacePlant(w, x, y).plants == Claim(w.plants, PlantActive, NewPlant(x, y)) &&
      PlacePlant(w, x, y).plantCount == w.plantCount + 1
  {
    PlantLimitNeverBinds(w);
  }

  /** The plant loop: timers count down, and each plant whose timer runs out fires and is rearmed. */
  function ShootStep(w: World): World
  {
    w.(plants := TickPlants(w.plants), projectiles := Volley(w.plants, w.projectiles, |w.plants|))
  }

  function UpdateProjectiles(w: World): World
  {
    w.(projectiles := AdvanceProjectiles(w.projectiles))
  }

  function CheckCollisions(w: World): World
  {
    var c := Collide(Combat(w.projectiles, w.robots, w.score), |w.projectiles|);
    w.(projectiles := c.projectiles, robots := c.robots, score := c.score)
  }

  /**
   * One frame of play, in the order UpdateGame runs it. Ending the game on
   * the clock does not stop the frame: the rest still runs, and a loss in the
   * robot loop overwrites the win message.
   */
  function UpdateGame(w: World, i: FrameInput): World
  {
    var w1 := CountDown(w, i.secondElapsed);
    var w2 := SpawnStep(w1, i.spawnRoll, i.spawnLane);
    var w3 := MoveRobotsStep(w2);
    var w4 := if i.click then PlacePlant(w3, i.mouseX, i.mouseY) else w3;
    var w5 := ShootStep(w4);
    var w6 := UpdateProjectiles(w5);
    CheckCollisions(w6)
  }

  /** Each step of a frame keeps the invariant while the game runs. */
  lemma CountDownValid(w: World, secondElapsed: bool)
    requires Inv(w) && w.gameRunning
    ensures Inv(CountDown(w, secondElapsed)) && CountDown(w, secondElapsed).gameRunning
  {
  }

  lemma SpawnStepValid(w: World, roll: int, lane: int)
    requires Inv(w) && 0 <= lane < LANE_COUNT
    ensures Inv(SpawnStep(w, roll, lane))
  {
    if roll < SPAWN_ODDS {
      SpawnRobotKeeps(w.robots, lane);
    }
  }

  lemma MoveRobotsStepValid(w: World)
    requires Inv(w) && w.gameRunning
    ensures Inv(MoveRobotsStep(w))
  {
    BreachesAreExits(w.robots, w.robotSpeed);
  }

  lemma ShootStepValid(w: World)
    requires Inv(w)
    ensures Inv(ShootStep(w))
  {
    TickKeepsPlants(w.plants);
    VolleyKeepsFlying(w.plants, w.projectiles, |w.plants|);
  }

  lemma UpdateProjectilesValid(w: World)
    requires Inv(w)
    ensures Inv(UpdateProjectiles(w))
  {
    AdvanceKeeps(w.projectiles);
  }

  lemma CheckCollisionsValid(w: World)
    requires Inv(w)
    ensures Inv(CheckCollisions(w)) && CheckCollisions(w).score >= w.score
  {
    CollideKeeps(Combat(w.projectiles, w.robots, w.score), |w.projectiles|);
    CollideScore(Combat(w.projectiles, w.robots, w.score), |w.projectiles|);
  }

  /**
   * A frame of play keeps the invariant, never lowers the score, and never
   * changes the difficulty or the running flag.
   */
  lemma UpdateGameValid(w: World, i: FrameInput)
    requires Inv(w) && PhaseOf(w) == Playing && ValidInput(i)
    ensures Inv(UpdateGame(w, i))
    ensures UpdateGame(w, i).score >= w.score
    ensures UpdateGame(w, i).gameRunning
    ensures UpdateGame(w, i).gameTime == w.gameTime && UpdateGame(w, i).robotSpeed == w.robotSpeed
  {
    var w1 := CountDown(w, i.secondElapsed);
    CountDownValid(w, i.secondElapsed);
    var w2 := SpawnStep(w1, i.spawnRoll, i.spawnLane);
    SpawnStepValid(w1, i.spawnRoll, i.spawnLane);
    var w3 := MoveRobotsStep(w2);
    MoveRobotsStepValid(w2);
    var w4 := if i.click then PlacePlant(w3, i.mouseX, i.mouseY) else w3;
    if i.click {
      PlacePlantValid(w3, i.mouseX, i.mouseY);
    }
    var w5 := ShootStep(w4);
    ShootStepValid(w4);
    var w6 := UpdateProjectiles(w5);
    UpdateProjectilesValid(w5);
    CheckCollisionsValid(w6);
  }

  /**
   * How a frame ends the match: the clock wins it when it reaches zero, the
   * robot loop loses it when the breaches of this frame leave the base with no
   * health, and a loss in the same frame overwrites the win. Base health drops
   * by exactly the number of breaches.
   */
  lemma FrameOutcome(w: World, i: FrameInput)
    ensures var t := if i.secondElapsed then w.remainingTime - 1 else w.remainingTime;
      var spawned := SpawnStep(CountDown(w, i.secondElapsed), i.spawnRoll, i.spawnLane).robots;
      var b := Count(spawned, Breaching(w.robotSpeed));
      var lost := b > 0 && w.baseHealth - b <= 0;
      var r := UpdateGame(w, i);
      r.remainingTime == t &&
      r.baseHealth == w.baseHealth - b &&
      r.gameOver == (w.gameOver || t <= 0 || lost) &&
      r.endMessage == (if lost then YouLost else if t <= 0 then YouWon else w.endMessage)
  {
    var w3 := MoveRobotsStep(SpawnStep(CountDown(w, i.secondElapsed), i.spawnRoll, i.spawnLane));
    FrameHead(w, i);
    FrameTail(w3, i);
  }

  /** The clock, spawn and move steps decide the clock, base health and outcome of a frame. */
  lemma FrameHead(w: World, i: FrameInput)
    ensures var t := if i.secondElapsed then w.remainingTime - 1 else w.remainingTime;
      var w2 := SpawnStep(CountDown(w, i.secondElapsed), i.spawnRoll, i.spawnLane);
      var b := Count(w2.robots, Breaching(w.robotSpeed));
      var lost := b > 0 && w.baseHealth - b <= 0;
      var w3 := MoveRobotsStep(w2);
      w3.remainingTime == t && w3.baseHealth == w.baseHealth - b &&
      w3.gameOver == (w.gameOver || t <= 0 || lost) &&
      w3.endMessage == (if lost then YouLost else if t <= 0 then YouWon else w.endMessage)
  {
    var t := if i.secondElapsed then w.remainingTime - 1 else w.remainingTime;
    var w1 := CountDown(w, i.secondElapsed);
    assert w1 == w.(remainingTime := t, gameOver := w.gameOver || t <= 0,
                    endMessage := if t <= 0 then YouWon else w.endMessage);
    var w2 := SpawnStep(w1, i.spawnRoll, i.spawnLane);
    assert w2 == w1.(robots := w2.robots);
  }

  /** The steps after the robot loop never touch the clock, base health or outcome. */
  lemma FrameTail(w3: World, i: FrameInput)
    ensures var w4 := if i.click then PlacePlant(w3, i.mouseX, i.mouseY) else w3;
      var r := CheckCollisions(UpdateProjectiles(ShootStep(w4)));
      r.remainingTime == w3.remainingTime && r.baseHealth == w3.baseHealth &&
      r.gameOver == w3.gameOver && r.endMessage == w3.endMessage
  {
  }

  /**
   * With no robot on the field and none spawned, the frame in which the last
   * second runs out ends the match as a win, with the base untouched.
   */
  lemma QuietLastSecondWins(w: World, i: FrameInput)
    requires Inv(w) && PhaseOf(w) == Playing
    requires w.remainingTime == 1 && i.secondElapsed && i.spawnRoll >= SPAWN_ODDS
    requires forall j :: 0 <= j < |w.robots| ==> !w.robots[j].active
    ensures PhaseOf(UpdateGame(w, i)) == GameOver
    ensures UpdateGame(w, i).endMessage == YouWon
    ensures UpdateGame(w, i).baseHealth == w.baseHealth
  {
    var w2 := SpawnStep(CountDown(w, i.secondElapsed), i.spawnRoll, i.spawnLane);
    assert w2.robots == w.robots;
    CountEmpty(w.robots, Breaching(w.robotSpeed));
    FrameOutcome(w, i);
  }
}
