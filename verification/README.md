# Roots vs Robots — the entity simulation

Roots vs Robots is a small lane-defence game written in C on top of raylib.
Plants (turrets) are placed with the mouse. Robots walk in from the right edge
of an 800-pixel screen. Plants fire peas to the right at a fixed rhythm, and a
robot that reaches the left edge damages the base. The match is won when the
clock runs out, and lost when the base has no health left.

The game state lives in three fixed-size global slot arrays:
- five plants;
- ten robots;
- fifty projectiles.

Around them sit the counters `score`, `baseHealth`, `plantCount` and
`remainingTime`, the flags `gameRunning` and `gameOver`, the chosen
difficulty, and the end message. Creating an entity claims the lowest-index
inactive slot and does nothing when every slot is taken.

This project models that simulation in Dafny, in five modules:

- `Entities`: the plant, robot and projectile records and the game's
  constants. It also holds the slot discipline shared by all three arrays:
  `First` finds a free slot, `Claim` writes into it, and `Count` counts
  active entries, with their lemmas.
- `Geometry`: an integer circle-against-rectangle overlap test. It stands in
  for the library collision call that decides whether a pea strikes a robot.
- `Rules`: each rule of a frame stated over the array contents as sequences,
  with its lemmas:
  - robot spawning;
  - robot motion and breaches of the base;
  - plant timers and volleys;
  - projectile flight;
  - the collision pass.
- `Match`: the whole state as one value `World`, each step of a frame, and the
  match transitions. The transitions are start-up, difficulty choice,
  re-initialisation, end of match and restart. `Inv` is the invariant that
  holds from start-up on, and per-step lemmas show every step keeps it.
- `Simulation`: the class `Game`, which holds the three arrays and the
  globals. Its methods update them in place with the indexed loops and early
  exits of the C program. Each transition method (`InitGame`,
  `ChooseDifficulty`, `Restart`, `EndGame`, `PlacePlant`, `MoveRobots`,
  `ShootPlants`, `UpdateProjectiles`, `CheckCollisions`, `UpdateGame`) is
  proved to move `State()` exactly as the matching function of `Match` says.
  The slot and loop-body methods (`SpawnRobot`, `ShootProjectile`,
  `MoveRobotAt`, `TickPlantAt`, `ResolveProjectile`) are specified per slot,
  in terms of the functions of `Rules`.

Platform input is passed in as parameters:
- the random spawn roll and spawn lane;
- the mouse click and its position;
- the difficulty and restart keys;
- whether a whole second has elapsed on the frame clock.

## Model

| member | source | states |
|---|---|---|
| Entities.Claim | rootsvsrobots/finalgraphics1.c:273-280 | Definition of a slot claim (write into the first inactive slot, or nothing when all are active). It keeps the array length; its meaning is stated by `Entities.ClaimFirstFree` and `Entities.ClaimCount`. |
| Entities.First | rootsvsrobots/finalgraphics1.c:273-280 | The scan of the slot loops: the index found is the lowest whose element satisfies the test; when there is none, no element satisfies it. |
| Entities.ClaimFirstFree | rootsvsrobots/finalgraphics1.c:290-298 | A creation writes the new entity over the lowest-index inactive slot and leaves every other slot, and every active slot, as it was. With every slot active, nothing changes. |
| Entities.ClaimCount | rootsvsrobots/finalgraphics1.c:302-309 | Creating an active entity raises the number of active slots by exactly one when a slot was free. It stays at the capacity when none was free: a full array drops the creation silently. |
| Rules.SpawnRobot | rootsvsrobots/finalgraphics1.c:272-281 | Definition of a spawn as a claim of a new robot; its meaning is stated by `Rules.SpawnRobotFills`, `Rules.SpawnRobotKeeps` and `Rules.SpawnRobotCount`. |
| Rules.SpawnRobotFills | rootsvsrobots/finalgraphics1.c:272-281 | A spawn in lane L puts a robot at (800, L*100+50) with health 3 into the lowest-index inactive slot and touches no other slot. With all ten robots active it changes nothing. |
| Rules.SpawnRobotKeeps | rootsvsrobots/finalgraphics1.c:272-281 | A spawn keeps every active robot with health left and on screen. |
| Rules.SpawnRobotCount | rootsvsrobots/finalgraphics1.c:272-281 | A spawn adds exactly one active robot unless all slots are taken, in which case the count stays at the capacity. |
| Rules.MoveRobots | rootsvsrobots/finalgraphics1.c:189-200 | Each robot slot after the move loop depends on that slot alone. An active robot walks `robotSpeed` to the left and becomes inactive exactly when its new x is below 0. |
| Rules.BreachesAreExits | rootsvsrobots/finalgraphics1.c:189-200 | The robots that breach the base are exactly those that stop being active: breaches plus active robots after the move equal active robots before. Health is kept, and every robot still active is on screen. |
| Rules.MoveRobot | rootsvsrobots/finalgraphics1.c:190-193 | Definition of one robot's move (walk `speed` to the left, leave the field below x = 0); its meaning is stated by `Rules.RobotMarch` and `Rules.BreachesAreExits`. |
| Rules.RobotMarch | rootsvsrobots/finalgraphics1.c:190-193 | A robot left alone for n frames is active exactly while `x - n*speed >= 0`. While active it is at `x - n*speed`, and its lane and health are unchanged. |
| Rules.HardRobotBreachTime | rootsvsrobots/finalgraphics1.c:190-193 | On the hard setting a freshly spawned robot is still walking at x = 2 after 266 frames and breaches on frame 267. |
| Rules.TickPlants | rootsvsrobots/finalgraphics1.c:209-219 | Each plant's timer is updated on its own. An active plant counts down by one and is rearmed to 60 when it reaches 0 or below. Inactive plants are untouched. |
| Rules.TickPlant | rootsvsrobots/finalgraphics1.c:210-218 | Definition of one plant's timer update; its meaning is stated by `Rules.PlantRhythm` and `Rules.TickKeepsPlants`. |
| Rules.TickKeepsPlants | rootsvsrobots/finalgraphics1.c:209-219 | Ticking timers changes no plant's position and no plant's activity, slot by slot, so the number of active plants is kept. |
| Rules.PlantRhythm | rootsvsrobots/finalgraphics1.c:211-218 | An active plant whose timer shows t in 1 to 60 fires first on frame t and then on every 60th frame after, whether or not a robot is near. Its timer after n frames is t-n before the first shot and 60-((n-t) mod 60) after; the plant never moves or goes inactive. |
| Rules.Volley | rootsvsrobots/finalgraphics1.c:209-219 | The projectiles after the plant loop keep the size of the projectile array. |
| Rules.VolleyKeepsFlying | rootsvsrobots/finalgraphics1.c:209-219 | A volley never disturbs a projectile already in flight. Every newly active projectile is the pea of a plant that fired this frame: tagged with that plant's index and placed at its muzzle (plant.x+20, plant.y). |
| Rules.Shoot | rootsvsrobots/finalgraphics1.c:301-310 | Definition of a shot as a claim of a new pea; its meaning is stated by `Rules.ShootFills` and `Rules.ShootCount`. |
| Rules.ShootFills | rootsvsrobots/finalgraphics1.c:301-310 | A shot puts an active pea at (plant.x+20, plant.y), tagged with the lane, into the lowest-index inactive slot and touches no other slot. With all fifty active it changes nothing. |
| Rules.ShootCount | rootsvsrobots/finalgraphics1.c:301-310 | A shot adds exactly one active projectile unless all slots are taken. |
| Rules.VolleyCount | rootsvsrobots/finalgraphics1.c:209-219 | After the plant loop, the active projectiles number those before plus the plants that fired, capped at the array size. |
| Rules.AdvanceProjectiles | rootsvsrobots/finalgraphics1.c:312-321 | Each projectile slot is updated on its own. An active pea moves 5 to the right and is dropped exactly when its new x exceeds 800. Inactive slots are untouched. |
| Rules.AdvanceKeeps | rootsvsrobots/finalgraphics1.c:312-321 | Flight never activates a projectile, never changes any projectile's lane and leaves every inactive slot exactly as it was, so the number of active projectiles never rises. Valid lanes are kept. |
| Rules.AdvanceProjectile | rootsvsrobots/finalgraphics1.c:314-318 | Definition of one pea's flight step (5 to the right, dropped past x = 800); its meaning is stated by `Rules.ProjectileFlight`, `Rules.ShotLeavesScreen` and `Rules.AdvanceKeeps`. |
| Rules.ProjectileFlight | rootsvsrobots/finalgraphics1.c:314-318 | A pea left alone for n frames is active exactly while `x + 5n <= 800`. While active it is at `x + 5n`, and its height and lane are unchanged. |
| Rules.ShotLeavesScreen | rootsvsrobots/finalgraphics1.c:304-317 | A pea fired by a plant at px, starting on screen, is still flying after `(800 - px - 20) / 5` frames and is dropped on the next. A pea that starts past the right edge (a plant beyond x = 780) is dropped on its first frame of flight. |
| Geometry.Clamp | rootsvsrobots/finalgraphics1.c:327 | The closest coordinate of an interval to a point: it lies within the interval, is the point itself when the point is inside, and is otherwise an end of the interval. |
| Geometry.CircleHitsRect | rootsvsrobots/finalgraphics1.c:327 | Definition of the overlap test standing in for the library call; its meaning is stated by `Geometry.HitsWithinReach` and `Geometry.CentreInsideHits`. |
| Geometry.HitsWithinReach | rootsvsrobots/finalgraphics1.c:327 | A pea can strike a robot only when its centre is within the robot's square grown by the radius 5 on every side. |
| Geometry.CentreInsideHits | rootsvsrobots/finalgraphics1.c:327 | A pea whose centre lies on the robot's square strikes it. |
| Rules.Resolve | rootsvsrobots/finalgraphics1.c:325-337 | The inner collision loop for one projectile keeps the sizes of both arrays. |
| Rules.ResolveHits | rootsvsrobots/finalgraphics1.c:325-337 | An active pea strikes at most one robot, the lowest-index active robot it overlaps. That robot loses exactly one health and the pea becomes inactive exactly when it struck something. Every other pea and robot is unchanged. |
| Rules.Wounded | rootsvsrobots/finalgraphics1.c:328-332 | Definition of a hit robot (one health less, inactive at no health); its meaning is stated by `Rules.ResolveHits`, `Rules.StruckFirst` and `Rules.ResolveScore`. |
| Rules.StruckFirst | rootsvsrobots/finalgraphics1.c:326-335 | When robot j is the first active robot the pea overlaps: the pea is spent and robot j is wounded. The score rises by 10 exactly when that leaves the robot with no health. |
| Rules.StruckNone | rootsvsrobots/finalgraphics1.c:325-337 | A pea that overlaps no active robot changes nothing. |
| Rules.ResolveScore | rootsvsrobots/finalgraphics1.c:328-333 | The score rises by exactly 10 per robot deactivated by the hit, for no other reason, and never falls. |
| Rules.ResolveKeeps | rootsvsrobots/finalgraphics1.c:325-337 | One projectile's pass keeps active robots with health left and on screen, changes no projectile's lane, and keeps every pea in a valid lane. |
| Rules.Collide | rootsvsrobots/finalgraphics1.c:323-339 | The collision pass over projectiles 0 to n-1 keeps the sizes of both arrays. |
| Rules.CollideScore | rootsvsrobots/finalgraphics1.c:323-339 | Over the whole pass the score rises by exactly 10 per destroyed robot and never falls. |
| Rules.CollideKeeps | rootsvsrobots/finalgraphics1.c:323-339 | Over the whole pass, active robots keep health left and stay on screen, every projectile keeps exactly the lane it had, and lanes stay valid. |
| Rules.ResolveSpends | rootsvsrobots/finalgraphics1.c:325-337 | Right after its own pass, a pea is spent or overlaps no active robot. |
| Rules.ResolveKeepsSpent | rootsvsrobots/finalgraphics1.c:328-333 | Resolving a pea moves no robot and activates none, so a spent pea stays spent. |
| Rules.CollideLeavesNoHit | rootsvsrobots/finalgraphics1.c:323-339 | After the pass, no projectile that is still active overlaps an active robot. |
| Match.Boot | rootsvsrobots/finalgraphics1.c:40-53 | Definition of the globals at program start (zero-filled arrays, base health 5, the easy preset, nothing running); its meaning is stated by `Match.BootValid` and `Simulation.Game.constructor`. |
| Match.BootValid | rootsvsrobots/finalgraphics1.c:40-53 | The globals at program start satisfy the invariant, and the main loop starts on the menu. |
| Match.PlantLimitNeverBinds | rootsvsrobots/finalgraphics1.c:285-287 | Under the invariant at most five plants are counted, so the cap of seven never refuses a placement. |
| Match.InitGame | rootsvsrobots/finalgraphics1.c:118-140 | Plants go back to (-100, i*100+50), inactive, with timer 0. Every robot and projectile keeps its fields but is inactive. The score and plant count are zero and the clock shows the match duration. Every other global (base health, the end message, the flags, the duration and speed) is unchanged. |
| Match.ChooseDifficulty | rootsvsrobots/finalgraphics1.c:151-162 | Definition of one pass of the difficulty screen; its meaning is stated by `Match.ChooseDifficultyStarts`. |
| Match.Restart | rootsvsrobots/finalgraphics1.c:105-108 | Definition of the restart key's action; its meaning is stated by `Match.RestartResumesPlay`. |
| Match.EndGame | rootsvsrobots/finalgraphics1.c:341-344 | Definition of the end of a match (over, with the given message). `Match.CountDown` ends through it with a win and `Match.MoveRobotsStep` with a loss; its effect on a frame is stated by `Match.FrameOutcome`. |
| Match.InitGameValid | rootsvsrobots/finalgraphics1.c:118-140 | Re-initialisation keeps the invariant. |
| Match.ChooseDifficultyStarts | rootsvsrobots/finalgraphics1.c:151-162 | Key 1 starts play with 60 seconds at speed 1, and key 2 with 30 seconds at speed 3; key 2 wins when both are down. Either way the field is clear (no active plant, robot or projectile, and a plant count of zero), the score is zero, the clock is full and base health is unchanged. Without a key nothing changes. |
| Match.RestartResumesPlay | rootsvsrobots/finalgraphics1.c:105-108 | ENTER on the game-over screen resumes play on the same difficulty with a cleared field, score zero and a full clock. It keeps the base health the last match ended with. |
| Match.PlacePlant | rootsvsrobots/finalgraphics1.c:283-299 | At seven plants or more nothing changes. No placement changes the gap between `plantCount` and the active plants, and only the plants and the count change. |
| Match.PlacePlantValid | rootsvsrobots/finalgraphics1.c:283-299 | Under the invariant a placement changes nothing exactly when all five plant slots are active. Otherwise it claims the lowest free slot for a plant exactly at the click with timer 60 and raises `plantCount` by one. The invariant is kept. |
| Match.CountDown | rootsvsrobots/finalgraphics1.c:172-181 | Definition of the clock step; its meaning is stated by `Match.CountDownValid`, `Match.FrameOutcome` and `Match.QuietLastSecondWins`. |
| Match.SpawnStep | rootsvsrobots/finalgraphics1.c:184-186 | Definition of the spawn roll (a spawn when the roll is below 2); stated through `Rules.SpawnRobotFills` and `Match.SpawnStepValid`. |
| Match.MoveRobotsStep | rootsvsrobots/finalgraphics1.c:189-200 | Definition of the move loop on the whole state; its meaning is stated by `Rules.BreachesAreExits`, `Match.MoveRobotsStepValid` and `Match.FrameOutcome`. |
| Match.CountDownValid | rootsvsrobots/finalgraphics1.c:172-181 | The clock step keeps the invariant and the running flag. |
| Match.SpawnStepValid | rootsvsrobots/finalgraphics1.c:184-186 | A spawn in a valid lane keeps the invariant. |
| Match.MoveRobotsStepValid | rootsvsrobots/finalgraphics1.c:189-200 | The robot move loop keeps the invariant while the game runs. |
| Match.ShootStep | rootsvsrobots/finalgraphics1.c:209-220 | Definition of the plant loop on the whole state; its meaning is stated by `Rules.TickKeepsPlants`, `Rules.VolleyKeepsFlying`, `Rules.VolleyCount` and `Match.ShootStepValid`. |
| Match.ShootStepValid | rootsvsrobots/finalgraphics1.c:209-220 | The plant loop keeps the invariant. |
| Match.UpdateProjectiles | rootsvsrobots/finalgraphics1.c:312-321 | Definition of projectile flight on the whole state; its meaning is stated by `Rules.AdvanceKeeps`, `Rules.ProjectileFlight` and `Match.UpdateProjectilesValid`. |
| Match.UpdateProjectilesValid | rootsvsrobots/finalgraphics1.c:312-321 | Projectile flight keeps the invariant. |
| Match.CheckCollisions | rootsvsrobots/finalgraphics1.c:323-339 | Definition of the collision pass on the whole state; its meaning is stated by `Match.CheckCollisionsValid`, `Rules.CollideScore`, `Rules.CollideKeeps` and `Rules.CollideLeavesNoHit`. |
| Match.CheckCollisionsValid | rootsvsrobots/finalgraphics1.c:323-339 | The collision pass keeps the invariant and never lowers the score. |
| Match.UpdateGame | rootsvsrobots/finalgraphics1.c:168-227 | Definition of a frame as the composition of its steps in source order; its meaning is stated by `Match.UpdateGameValid`, `Match.FrameOutcome` and `Match.QuietLastSecondWins`. |
| Match.UpdateGameValid | rootsvsrobots/finalgraphics1.c:168-227 | A frame of play keeps the invariant and never lowers the score. It never changes the running flag, the duration or the speed. |
| Match.FrameOutcome | rootsvsrobots/finalgraphics1.c:172-200 | After a frame, the clock is one second lower exactly when a second elapsed, and base health is lower by exactly the number of breaches. The match is over when it already was, the clock reached zero, or a breach left no health. The message is "lost" when a breach left no health (overwriting a win in the same frame), else "won" when the clock ran out. |
| Match.FrameHead | rootsvsrobots/finalgraphics1.c:172-200 | After the clock, spawn and robot steps, the clock is one lower exactly when a second elapsed, base health is lower by the breach count, and the outcome and message are as `Match.FrameOutcome` states. |
| Match.FrameTail | rootsvsrobots/finalgraphics1.c:202-226 | Placement, the plant loop, flight and collisions never change the clock, base health, the game-over flag or the message. |
| Match.QuietLastSecondWins | rootsvsrobots/finalgraphics1.c:179-181 | With no robot on the field and none spawned, the frame in which the last second runs out ends the match as a win with the base untouched. |
| Simulation.Game.constructor | rootsvsrobots/finalgraphics1.c:40-53 | The arrays start zero-filled, with the declared initial values of the globals. |
| Simulation.Game.InitGame | rootsvsrobots/finalgraphics1.c:118-140 | The three reset loops and the counter resets produce exactly `Match.InitGame` of the old state. |
| Simulation.Game.ChooseDifficulty | rootsvsrobots/finalgraphics1.c:151-162 | One pass of the two key checks produces exactly `Match.ChooseDifficulty`. |
| Simulation.Game.Restart | rootsvsrobots/finalgraphics1.c:105-108 | Clearing the flag and re-initialising produces exactly `Match.Restart`. |
| Simulation.Game.EndGame | rootsvsrobots/finalgraphics1.c:341-344 | The match is marked over with the given message; nothing else changes. |
| Simulation.Game.SpawnRobot | rootsvsrobots/finalgraphics1.c:272-281 | The scan with early exit changes only the robot array, exactly as `Rules.SpawnRobot` says. |
| Simulation.Game.PlacePlant | rootsvsrobots/finalgraphics1.c:283-299 | The cap check and the scan with early exit produce exactly `Match.PlacePlant`. |
| Simulation.Game.ShootProjectile | rootsvsrobots/finalgraphics1.c:301-310 | The scan with early exit leaves the projectile array exactly as `Rules.Shoot` says. |
| Simulation.Game.UpdateProjectiles | rootsvsrobots/finalgraphics1.c:312-321 | The flight loop produces exactly `Match.UpdateProjectiles`. |
| Simulation.Game.MoveRobotAt | rootsvsrobots/finalgraphics1.c:190-199 | One iteration of the move loop. Only slot i changes, as `MoveRobot` says. On a breach base health drops by one, and the game ends as lost once it is 0 or below. |
| Simulation.Game.MoveRobots | rootsvsrobots/finalgraphics1.c:189-200 | The move loop produces exactly `Match.MoveRobotsStep`: moved robots, health lower by the breach count, and a loss when a breach leaves no health. |
| Simulation.Game.TickPlantAt | rootsvsrobots/finalgraphics1.c:210-219 | One iteration of the plant loop. Only plant i changes, as `TickPlant` says, and the projectiles receive one shot exactly when the plant fires. |
| Simulation.Game.ShootPlants | rootsvsrobots/finalgraphics1.c:209-220 | The plant loop produces exactly `Match.ShootStep`. |
| Simulation.Game.ResolveProjectile | rootsvsrobots/finalgraphics1.c:325-337 | The inner robot loop with its break produces exactly `Rules.Resolve` for projectile i. |
| Simulation.Game.CheckCollisions | rootsvsrobots/finalgraphics1.c:323-339 | The nested loops produce exactly `Match.CheckCollisions`. |
| Simulation.Game.UpdateGame | rootsvsrobots/finalgraphics1.c:168-227 | One frame produces exactly `Match.UpdateGame` of the old state and input. |

## Left out

- Drawing and windowing (`main`'s render loop, `DrawGame`, the text of the menu, difficulty and game-over screens) are presentation over raylib and are not modelled. `Match.PhaseOf` records only which screen the main loop's flags select.
- The main loop's dispatch between screens (`finalgraphics1.c:73-111`) is not modelled as a loop. Its transitions are the separate functions `Match.ChooseDifficulty`, `Match.Restart` and `Match.UpdateGame`.
- The `DifficultyScreen` busy-wait (`finalgraphics1.c:144`) is collapsed to one pass of its two key checks, with the keys as parameters.
- `GetFrameTime` and the float accumulator `timeSinceLastUpdate` are replaced by a boolean "a second has elapsed" input. `remainingTime` is an integer.
- `GetRandomValue` is replaced by parameters: the spawn roll (0 to 100) and the spawn lane.
- `GetMousePosition` and `IsMouseButtonPressed` are replaced by a click flag and integer coordinates.
- Positions and the robot speed are floats in the source. They are modelled as integers, which is exact because every step (1, 3, 5, 20, 800) is a whole number. A fractional mouse position is not modelled.
- `CheckCollisionCircleRec` is raylib code that is not part of this model. `Geometry.CircleHitsRect` is an integer closest-point test of a radius-5 circle against a 40 by 40 square; exact agreement with the library on boundary cases is not claimed.
- The `Robot.speed` field is never read or written and is left out of `Robot`.
- The end message is an enumeration (`NoMessage`, `YouWon`, `YouLost`) rather than a character buffer filled by `strcpy`; `sprintf` formatting of the score and time is presentation.
- `InitGame` does not reset `baseHealth`, so a restart keeps the base health the previous match ended with. The model follows the code here, as `Match.RestartResumesPlay` states.
- Integer widths are not modelled. `score`, `baseHealth` and `plantCount` stay far below any C `int` limit in play.
