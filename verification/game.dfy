/**
 * The simulation as the program runs it: the plant, robot and projectile
 * slot arrays and the counters and flags around them, updated in place by
 * indexed loops. Each transition method is proved to move the state exactly
 * as the matching function of `Match` says; the slot and loop-body methods
 * (`SpawnRobot`, `ShootProjectile`, `MoveRobotAt`, `TickPlantAt`,
 * `ResolveProjectile`) are specified per slot by the functions of `Rules`.
 */
module Simulation {
  import opened Entities
  import opened Rules
  import Match

  class Game {
    const plants: array<Plant>
    const robots: array<Robot>
    const projectiles: array<Projectile>
    var gameRunning: bool
    var gameOver: bool
    var endMessage: EndMessage
    var score: int
    var baseHealth: int
    var gameTime: int
    var remainingTime: int
    var robotSpeed: int
    var plantCount: int

    ghost predicate Valid()
      reads this
    {
      plants.Length == LANE_COUNT && robots.Length == MAX_ROBOTS && projectiles.Length == MAX_PROJECTILES
    }

    /** The globals as one value. */
    ghost function State(): Match.World
      reads this, plants, robots, projectiles
    {
      Match.World(plants[..], robots[..], projectiles[..], gameRunning, gameOver, endMessage,
                  score, baseHealth, gameTime, remainingTime, robotSpeed, plantCount)
    }

    /** Static initialisation: zero-filled arrays and the declared initial values. */
    constructor ()
      ensures Valid() && State() == Match.Boot()
      ensures fresh(plants) && fresh(robots) && fresh(projectiles)
    {
      plants := new Plant[LANE_COUNT](_ => Plant(0, 0, false, 0));
      robots := new Robot[MAX_ROBOTS](_ => Robot(0, 0, false, 0));
      projectiles := new Projectile[MAX_PROJECTILES](_ => Projectile(0, 0, false, 0));
      gameRunning, gameOver, endMessage := false, false, NoMessage;
      score, baseHealth, gameTime, remainingTime := 0, BASE_HEALTH, EASY_TIME, 0;
      robotSpeed, plantCount := EASY_ROBOT_SPEED, 0;
      new;
      assert plants[..] == Match.Boot().plants;
      assert robots[..] == Match.Boot().robots;
      assert projectiles[..] == Match.Boot().projectiles;
    }

    method InitGame()
      requires Valid()
      modifies this, plants, robots, projectiles
      ensures Valid() && State() == Match.InitGame(old(State()))
    {
      for i := 0 to plants.Length
        modifies plants
        invariant forall k :: 0 <= k < i ==> plants[k] == Plant(OFFSCREEN_X, LaneY(k), false, 0)
      {
        plants[i] := Plant(OFFSCREEN_X, LaneY(i), false, 0);
      }
      for i := 0 to robots.Length
        modifies robots
        invariant forall k :: 0 <= k < i ==> robots[k] == old(robots[k]).(active := false)
        invariant forall k :: i <= k < robots.Length ==> robots[k] == old(robots[k])
      {
        robots[i] := robots[i].(active := false);
      }
      for i := 0 to projectiles.Length
        modifies projectiles
        invariant forall k :: 0 <= k < i ==> projectiles[k] == old(projectiles[k]).(active := false)
        invariant forall k :: i <= k < projectiles.Length ==> projectiles[k] == old(projectiles[k])
      {
        projectiles[i] := projectiles[i].(active := false);
      }
      score := 0;
      remainingTime := gameTime;
      plantCount := 0;
      ghost var r := Match.InitGame(old(State()));
      assert plants[..] == r.plants;
      assert robots[..] == r.robots;
      assert projectiles[..] == r.projectiles;
    }

    /** One pass of the difficulty screen with the state of the two keys. */
    method ChooseDifficulty(keyOne: bool, keyTwo: bool)
      requires Valid()
      modifies this, plants, robots, projectiles
      ensures Valid() && State() == Match.ChooseDifficulty(old(State()), keyOne, keyTwo)
    {
      if keyOne {
        gameTime := EASY_TIME;
        robotSpeed := EASY_ROBOT_SPEED;
        gameRunning := true;
        InitGame();
      }
      ghost var w1 := State();
      if keyTwo {
        gameTime := HARD_TIME;
        robotSpeed := HARD_ROBOT_SPEED;
        gameRunning := true;
        assert State() == w1.(gameTime := HARD_TIME, robotSpeed := HARD_ROBOT_SPEED, gameRunning := true);
        InitGame();
      }
    }

    /** ENTER on the game-over screen. */
    method Restart()
      requires Valid()
      modifies this, plants, robots, projectiles
      ensures Valid() && State() == Match.Restart(old(State()))
    {
      gameOver := false;
      InitGame();
    }

    method EndGame(message: EndMessage)
      modifies this`gameOver, this`endMessage
      ensures State() == Match.EndGame(old(State()), message)
    {
      gameOver := true;
      endMessage := message;
    }

    /** A robot in `lane`, in the first free robot slot. */
    method SpawnRobot(lane: int)
      requires Valid()
      modifies robots
      ensures State() == old(State()).(robots := Rules.SpawnRobot(old(robots[..]), lane))
    {
      ClaimFirstFree(robots[..], RobotActive, NewRobot(lane));
      for i := 0 to robots.Length
        invariant forall k :: 0 <= k < i ==> robots[k].active
        invariant robots[..] == old(robots[..])
      {
        if !robots[i].active {
          robots[i] := NewRobot(lane);
          return;
        }
      }
    }

    /** A plant at the click (x, y), in the first free plant slot. */
    method PlacePlant(x: int, y: int)
      requires Valid()
      modifies this`plantCount, plants
      ensures State() == Match.PlacePlant(old(State()), x, y)
    {
      if plantCount >= PLANT_LIMIT {
        return;
      }
      ClaimFirstFree(plants[..], PlantActive, NewPlant(x, y));
      for i := 0 to plants.Length
        invariant forall k :: 0 <= k < i ==> plants[k].active
        invariant plants[..] == old(plants[..])
      {
        if !plants[i].active {
          plants[i] := NewPlant(x, y);
          plantCount := plantCount + 1;
          return;
        }
      }
    }

    /** A pea from plant `lane`, in the first free projectile slot. */
    method ShootProjectile(lane: int)
      requires Valid() && 0 <= lane < LANE_COUNT
      modifies projectiles
      ensures projectiles[..] == Shoot(old(projectiles[..]), plants[lane], lane)
    {
      ClaimFirstFree(projectiles[..], ProjectileActive, Pea(plants[lane], lane));
      for i := 0 to projectiles.Length
        invariant forall k :: 0 <= k < i ==> projectiles[k].active
        invariant projectiles[..] == old(projectiles[..])
      {
        if !projectiles[i].active {
          projectiles[i] := Pea(plants[lane], lane);
          return;
        }
      }
    }

    method UpdateProjectiles()
      modifies projectiles
      ensures State() == Match.UpdateProjectiles(old(State()))
    {
      for i := 0 to projectiles.Length
        invariant forall k :: 0 <= k < i ==> projectiles[k] == AdvanceProjectile(old(projectiles[k]))
        invariant forall k :: i <= k < projectiles.Length ==> projectiles[k] == old(projectiles[k])
      {
        if projectiles[i].active {
          projectiles[i] := projectiles[i].(x := projectiles[i].x + PROJECTILE_STEP);
          if projectiles[i].x > SCREEN_WIDTH {
            projectiles[i] := projectiles[i].(active := false);
          }
        }
      }
    }

    /** The body of the robot move loop for slot `i`: walk left, and at the base line leave and cost one base health. */
    method MoveRobotAt(i: int)
      requires Valid() && 0 <= i < robots.Length
      modifies this`baseHealth, this`gameOver, this`endMessage, robots
      ensures robots[..] == old(robots[..])[i := MoveRobot(old(robots[i]), robotSpeed)]
      ensures var hit := if Breaching(robotSpeed)(old(robots[i])) then 1 else 0;
        baseHealth == old(baseHealth) - hit &&
        gameOver == (old(gameOver) || (hit > 0 && baseHealth <= 0)) &&
        endMessage == if hit > 0 && baseHealth <= 0 then YouLost else old(endMessage)
    {
      if robots[i].active {
        robots[i] := robots[i].(x := robots[i].x - robotSpeed);
        if robots[i].x < 0 {
          robots[i] := robots[i].(active := false);
          baseHealth := baseHealth - 1;
          if baseHealth <= 0 {
            EndGame(YouLost);
          }
        }
      }
    }

    /** The robot move loop of UpdateGame. */
    method MoveRobots()
      requires Valid()
      modifies this`baseHealth, this`gameOver, this`endMessage, robots
      ensures State() == Match.MoveRobotsStep(old(State()))
    {
      ghost var rs := robots[..];
      ghost var breach := Breaching(robotSpeed);
      ghost var b := 0;
      for i := 0 to robots.Length
        invariant forall k :: 0 <= k < i ==> robots[k] == MoveRobot(rs[k], robotSpeed)
        invariant forall k :: i <= k < robots.Length ==> robots[k] == rs[k]
        invariant b == Count(rs[..i], breach)
        invariant baseHealth == old(baseHealth) - b
        invariant gameOver == (old(gameOver) || (b > 0 && baseHealth <= 0))
        invariant endMessage == if b > 0 && baseHealth <= 0 then YouLost else old(endMessage)
      {
        CountPrefix(rs, breach, i);
        MoveRobotAt(i);
        b := b + if breach(rs[i]) then 1 else 0;
      }
      assert rs[..robots.Length] == rs;
      assert robots[..] == Rules.MoveRobots(rs, robotSpeed);
    }

    /** The body of the plant loop for plant `i`: count its timer down, and once it runs out shoot and rearm. */
    method TickPlantAt(i: int)
      requires Valid() && 0 <= i < plants.Length
      modifies plants, projectiles
      ensures plants[..] == old(plants[..])[i := TickPlant(old(plants[i]))]
      ensures projectiles[..] ==
        if Fires(old(plants[i])) then Shoot(old(projectiles[..]), old(plants[i]), i) else old(projectiles[..])
    {
      ghost var p0, q0 := plants[i], projectiles[..];
      if plants[i].active {
        plants[i] := plants[i].(shootTimer := plants[i].shootTimer - 1);
        if plants[i].shootTimer <= 0 {
          ShootProjectile(i);
          assert Shoot(q0, plants[i], i) == Shoot(q0, p0, i);
          plants[i] := plants[i].(shootTimer := SHOOT_INTERVAL);
        }
      }
    }

    /** The plant loop of UpdateGame: count down the timers and fire the plants whose timer ran out. */
    method ShootPlants()
      requires Valid()
      modifies plants, projectiles
      ensures State() == Match.ShootStep(old(State()))
    {
      ghost var ps := plants[..];
      ghost var flying := projectiles[..];
      for i := 0 to plants.Length
        invariant forall k :: 0 <= k < i ==> plants[k] == TickPlant(ps[k])
        invariant forall k :: i <= k < plants.Length ==> plants[k] == ps[k]
        invariant projectiles[..] == Volley(ps, flying, i)
      {
        VolleyStep(ps, flying, i);
        TickPlantAt(i);
      }
      assert plants[..] == TickPlants(ps);
    }

    /** The body of the collision loop for projectile `i`: an active pea strikes the first active robot it overlaps. */
    method ResolveProjectile(i: int)
      requires Valid() && 0 <= i < projectiles.Length
      modifies this`score, robots, projectiles
      ensures Combat(projectiles[..], robots[..], score) == Resolve(old(Combat(projectiles[..], robots[..], score)), i)
    {
      ghost var before := Combat(projectiles[..], robots[..], score);
      if projectiles[i].active {
        for j := 0 to robots.Length
          invariant Combat(projectiles[..], robots[..], score) == before
          invariant forall k :: 0 <= k < j ==> !(robots[k].active && Hits(projectiles[i], robots[k]))
        {
          if robots[j].active && Hits(projectiles[i], robots[j]) {
            StruckFirst(before, i, j);
            robots[j] := robots[j].(health := robots[j].health - 1);
            projectiles[i] := projectiles[i].(active := false);
            if robots[j].health <= 0 {
              robots[j] := robots[j].(active := false);
              score := score + KILL_REWARD;
            }
            return;
          }
        }
        StruckNone(before, i);
      }
    }

    method CheckCollisions()
      requires Valid()
      modifies this`score, robots, projectiles
      ensures State() == Match.CheckCollisions(old(State()))
    {
      ghost var c0 := Combat(projectiles[..], robots[..], score);
      for i := 0 to projectiles.Length
        invariant Combat(projectiles[..], robots[..], score) == Collide(c0, i)
      {
        ResolveProjectile(i);
      }
    }

    /** One frame of play: the simulation body of UpdateGame. */
    method UpdateGame(input: Match.FrameInput)
      requires Valid()
      modifies this, plants, robots, projectiles
      ensures Valid() && State() == Match.UpdateGame(old(State()), input)
    {
      if input.secondElapsed {
        remainingTime := remainingTime - 1;
      }
      if remainingTime <= 0 {
        EndGame(YouWon);
      }
      ghost var w1 := State();
      assert w1 == Match.CountDown(old(State()), input.secondElapsed);

      if input.spawnRoll < SPAWN_ODDS {
        SpawnRobot(input.spawnLane);
      }
      ghost var w2 := State();
      assert w2 == Match.SpawnStep(w1, input.spawnRoll, input.spawnLane);

      MoveRobots();
      ghost var w3 := State();

      if input.click {
        PlacePlant(input.mouseX, input.mouseY);
      }
      ghost var w4 := State();
      assert w4 == if input.click then Match.PlacePlant(w3, input.mouseX, input.mouseY) else w3;

      ShootPlants();
      ghost var w5 := State();
      assert w5 == Match.ShootStep(w4);

      UpdateProjectiles();
      ghost var w6 := State();
      assert w6 == Match.UpdateProjectiles(w5);

      CheckCollisions();
      assert State() == Match.CheckCollisions(w6);
    }
  }
}
