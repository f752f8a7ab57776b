# Dino runner in a Dynamic-Island widget — a verified Dafny model

An endless-runner game lives in a three-state widget ("dynamic island"). The
dino jumps over obstacles that scroll in from the right. Every obstacle that
leaves the screen scores a point, and every fifth point makes the game faster.
The widget's view (`compact`, `minimal`, `expanded`) decides when the game
starts, pauses and resumes. Input only counts when the widget is expanded.

The model follows `script.js` as written:

- `physics.dfy`, module `Physics`: the dino's vertical motion. It has the pure
  functions `Jumped` and `Updated` and the class `Dino`, whose `Jump` and
  `Update` change `y` and `dy` in place.
- `phases.dfy`, module `Phases`: the game phase, the view and the session
  counters (`Status`). It also holds `gameOver()`'s effect on the counters
  (`Ended`) and one scoring step (`Scored`).
- `obstacles.dfy`, module `Obstacles`: the collision test, the spawn step, and
  the pass over the obstacle list as a pure function (`Sweep`). It also has the
  survivor filter, both as a function (`Keep`) and as a loop (`KeepUnmarked`).
- `machine.dfy`, module `Machine`: the whole session as a value (`Snapshot`).
  Every transition of the page is a function on it (`Tick`, `Start`, `SetView`,
  `HandleInput`, `Step`, `Run`). An invariant `Inv` holds in every reachable
  state.
- `game.dfy`, module `Game`: class `Session`. Its fields are the page's
  module-level variables. Its methods are `handleObstacles` (with its `forEach`
  loop), `animate`, `startGame`, `gameOver`, `setView`, `handleInput` and the
  listeners. Each method is proved to leave exactly the state that the
  matching `Machine` function computes.
- `display.dfy`, module `Display`: the `padStart(5, '0')` score text.

The constants are modelled as exact `real` numbers: gravity 0.6, jump force -10,
ground 70, base speed 5 and speed step 0.2. `Math.random()` is replaced by
parameters: a jitter `0 <= j < 100` (type `Jitter`) and a boolean spawn coin
(`Draw`). `requestAnimationFrame`/`cancelAnimationFrame` become the flag
`scheduled`, and a `Frame` event runs `animate` only while that flag is set.
The canvas width is a `nat` parameter of the session.

Where the code behaves in ways that are easy to miss, the model follows the code:

- `gameSpeed` changes inside the `forEach` (script.js:94). Obstacles visited
  after a speed step therefore move by the new speed in the same tick. A pass
  without a speed step moves every obstacle by exactly the initial `gameSpeed`
  (`SweepMoves`, `SweepSpeedBounds`).
- `startGame()` and the paused-to-expanded resume both call `animate()` at once
  (script.js:128, 154). After a start the list therefore holds at most one
  freshly spawned obstacle, already moved once, not an empty list. A resume
  advances one frame (`StartResets`, `ExpandedStartsOrResumes`,
  `PauseResumeIsOneFrame`).
- `startGame()` does not reset the dino. A new game keeps the jump that was in
  progress.
- `gameOver()` runs inside the `forEach` (script.js:87) and the pass goes on.
  As written, an obstacle visited after the collision could still score after
  the high score was taken (`ScoreAfterGameOverMissesHighScore`). A second
  collision in the same pass could call `gameOver()` again. The spawn gap
  makes both unreachable. Each obstacle starts more than 150 to the right of
  the previous one (script.js:69). A collision needs `5 < x < 40`. So every
  obstacle after the colliding one is beyond `x = 155`: it neither collides
  nor leaves the screen in that tick (`TickCollisionEndsPass`,
  `ReachableCollisionEndsPass`). The list in the counterexample is not spaced,
  so no game builds it.
- After a collision, `animate` still requests a new frame (script.js:118), so
  in `gameover` a stale frame is pending. The guard at script.js:103 makes it a
  no-op. The invariant states that a frame is pending only in `playing` or
  `gameover`.
- The comment at script.js:17 lists only idle, playing and gameover. The code
  also uses `paused` (script.js:152-158), and the model has all four phases.
- The obstacle list stays in left-to-right order, with consecutive obstacles
  more than 150 apart. This holds in every tick, not only at spawn time
  (`Spaced`, kept by `SpawnKeepsSpaced`, `SpacedPass` and `KeepSpaced`, and
  part of the invariant). Within a pass the speed can grow only at an obstacle
  that leaves the screen, and those all come first. Every obstacle still on
  screen after the pass therefore moved by exactly the speed the pass ends with
  (`SurvivorsMoveByFinalSpeed`).
- The collision test puts each box's top edge at `y`, while drawing puts it at
  `y - height`. Both boxes use the same shift, so collision is decided as in the
  picture. For game-shaped obstacles, a hit means exactly `5 < x < 40` and
  dino `y > 50` (`CollisionZone`).

## Model

| member | source | states |
|---|---|---|
| Physics.JumpOnlyFromGround | script.js:33-37 | on the ground a jump sets dy to JUMP_FORCE and keeps y; in the air it changes nothing |
| Physics.UpdateLandsOrFalls | script.js:38-46 | after a tick y <= GROUND_Y; a move that reaches or passes the ground lands at (GROUND_Y, 0); otherwise dy grows by exactly GRAVITY |
| Physics.FlightEnergyKept | script.js:38-42 | one tick of free flight keeps 2*g*y - dy*(dy - g) unchanged |
| Physics.FlightVelocity | script.js:33-42 | definition of the velocity k ticks after a jump: JUMP_FORCE + k * GRAVITY |
| Physics.Sound | script.js:27-46 | definition of the dino states: never below ground, and at rest on the ground, or in flight with the launch's flight quantity and the velocity of a whole number of ticks after a jump; kept by SoundKept |
| Physics.SoundKept | script.js:33-46 | jump and update keep the dino on the ground at rest or in flight after a jump (launch quantity, velocity JUMP_FORCE + k * GRAVITY), never below ground |
| Physics.FlightVelocityNeverRestOrDown | script.js:33-42 | no whole number of ticks after a jump is the velocity 0, nor 10.6 |
| Physics.SoundRestIffGround | script.js:33-46 | a sound dino has velocity 0 only on the ground, and on the ground its velocity is 0 or JUMP_FORCE (the instant of a jump) |
| Physics.SoundBetweenApexAndGround | script.js:11-13 | every sound dino state lies between the apex of a jump (APEX_Y) and the ground |
| Physics.Dino.constructor | script.js:27-32 | the dino starts on the ground at rest |
| Physics.Dino.Jump | script.js:33-37 | the new state is Jumped(old state): dy := JUMP_FORCE only when y == GROUND_Y, otherwise nothing changes |
| Physics.Dino.Update | script.js:38-46 | the new state is Updated(old state): y <= GROUND_Y; landing gives (GROUND_Y, 0); otherwise dy grows by GRAVITY |
| Phases.Ended | script.js:131-141 | gameOver: phase gameover, frame cancelled, high score = max(high score, score); score and speed unchanged |
| Phases.EndedIdempotent | script.js:131-141 | gameOver's effect applied twice in a row equals applying it once |
| Phases.ScoredStepsSpeed | script.js:92-94 | a removal adds one point; the speed grows by 0.2 exactly when the new score crosses a multiple of 5 |
| Obstacles.Sweep | script.js:75-96 | the pass yields exactly one processed obstacle per input obstacle |
| Obstacles.KeepUnmarked | script.js:98 | the filter loop returns Keep of the list: the unmarked obstacles in order |
| Obstacles.OverlapsSymmetric | script.js:81-86 | the box overlap test does not depend on argument order |
| Obstacles.TouchingDoesNotOverlap | script.js:81-86 | boxes that only share an edge (e.g. dino.x + dino.width == obstacle.x) do not collide |
| Obstacles.CollisionZone | script.js:81-86 | for a dino not below ground and a game-shaped obstacle: collision iff 5 < x < 40 and dino y > 50 |
| Obstacles.SpawnAppendsOne | script.js:57-73 | a spawn happens iff (list empty or canvas.width - last.x > 150 + j) and the coin succeeds; it appends exactly one obstacle at x == canvas.width; otherwise the list is unchanged |
| Obstacles.SweepSnoc | script.js:75-96 | the pass over a list with one more obstacle at the end is one more visit |
| Obstacles.SweepSplit | script.js:75-96 | the pass over a + b is the pass over a, then the pass over b started from the counters a left |
| Obstacles.SweepAt | script.js:75-96 | obstacle k is processed with exactly the counters the first k visits left |
| Obstacles.SweepMoves | script.js:75-91 | each obstacle moves left by the speed in force at its visit and keeps its shape; it is marked iff it is off screen after moving (or was already marked) |
| Obstacles.SweepCounters | script.js:87-95 | over a pass, score and high score never fall, and the speed grows by 0.2 per multiple of 5 the score crosses |
| Obstacles.SweepSpeedBounds | script.js:76-94 | the speed at each visit lies between the speeds before and after the pass; without a speed step every obstacle moves by exactly the initial gameSpeed |
| Obstacles.SweepScore | script.js:90-98 | for unmarked obstacles, the score rises by exactly the number of obstacles the filter removes |
| Obstacles.SweepPhase | script.js:81-88 | a collision anywhere in the pass ends the game; no collision leaves phase, high score and frame request unchanged |
| Obstacles.SweepSurvivors | script.js:90-98 | the survivors are exactly the moved obstacles with x + width >= 0, in their original order |
| Obstacles.ScoreAfterGameOverMissesHighScore | script.js:81-95 | the pass as written goes on after a collision: on the list [x=30, x=-12] the final score 1 exceeds the high score 0 taken at the collision; that list is not spaced, so no game builds it |
| Obstacles.SpawnKeepsSpaced | script.js:69-73 | the spawn step keeps the list spaced: a new obstacle appears more than 150 to the right of the newest one |
| Obstacles.SpacedPass | script.js:75-96 | in a pass over a spaced list, an obstacle still on screen after its visit is followed only by on-screen obstacles more than 150 further right; the last one, if on screen, moved by the final speed |
| Obstacles.SurvivorsMoveByFinalSpeed | script.js:75-96 | in a pass over a spaced list, every obstacle still on screen moved left by exactly the speed the pass ends with |
| Obstacles.VisitOnScreenKeepsSpeed | script.js:90-95 | a visit that leaves its obstacle on screen does not step the speed |
| Obstacles.KeepSpaced | script.js:98 | the filter of such a moved list is spaced again |
| Obstacles.KeepAppend | script.js:98 | the filter distributes over concatenation, so it preserves order |
| Obstacles.KeepMembers | script.js:98 | an obstacle survives iff it was in the list and unmarked |
| Obstacles.KeepIsVisible | script.js:90-98 | where exactly the off-screen obstacles are marked, the filter equals Visible |
| Machine.TickKeepsInv | script.js:102-119 | a tick from playing keeps the invariant, including the spacing of the obstacles, and ends in playing or gameover |
| Machine.TickCollisionEndsPass | script.js:75-96 | from a state satisfying the invariant, every obstacle after one that hits the dino in a tick is still on screen and misses the dino: at most one gameOver per tick and no point scored after it |
| Machine.ReachableCollisionEndsPass | script.js:75-96 | the same for the next frame of every reachable playing state |
| Machine.SweepGameoverHigh | script.js:75-96 | a pass that starts playing and has nothing after a collision ends, when the game is over, with high score >= score: gameOver() saw the final score of the tick |
| Machine.TickGameoverHigh | script.js:102-119 | a playing tick that ends the game leaves high score >= score |
| Machine.TickObstacles | script.js:68-99 | the obstacles a playing tick leaves are game-shaped and spaced |
| Machine.ReachableBestKept | script.js:131-141 | once a reachable game has ended, no later events bring the high score below that game's score (a game of 12 and then one of 7 leave 12) |
| Machine.SpeedTracksScore | script.js:94 | a step per multiple of 5 crossed keeps speed == 5 + 0.2 * (score / 5) |
| Machine.SweepKeepsShape | script.js:57-98 | the survivors of a pass over game-shaped obstacles are game-shaped and unmarked |
| Machine.TickGuard | script.js:103 | animate is a no-op unless phase == playing |
| Machine.TickScoresRemovals | script.js:68-99 | in a tick the score rises by exactly the number of obstacles removed; the new list is the moved obstacles still on screen, in order |
| Machine.StartResets | script.js:121-129 | a start gives score 0, speed 5 and a kept high score; after its immediate tick the list is empty or holds one spawned obstacle at canvas.width - 5; the phase is playing unless that obstacle hits at once, which canvas.width >= 45 rules out |
| Machine.MinimalPausesOnlyPlaying | script.js:156-161 | minimal pauses only from playing (frame cancelled); dino, obstacles, score, speed and high score are kept; otherwise only the view changes |
| Machine.ExpandedStartsOrResumes | script.js:149-155 | expanded starts fresh from idle or gameover (score 0, speed 5); from paused it resumes without reset (one tick, score and speed do not fall); from playing only the view changes |
| Machine.PauseResumeIsOneFrame | script.js:149-161 | pausing a running game and expanding again equals exactly the frame the pause cancelled |
| Machine.NoReturnToCompact | script.js:180-194 | no event leads back to the compact view once it is left |
| Machine.InputInert | script.js:165-177 | keys and touches do nothing unless the view is expanded; a key other than Space is ignored |
| Machine.InputJumpsOrRestarts | script.js:165-201 | in expanded view, Space or a touch jumps while playing, restarts after gameover, and does nothing when idle or paused |
| Machine.InitialInv | script.js:16-24 | the start-up state (idle, compact, score 0, speed 5, dino at rest) satisfies the invariant |
| Machine.StepKeepsInv | script.js:102-201 | every browser event keeps the invariant |
| Machine.StepInv | script.js:102-201 | the invariant, if it holds before an event, holds after it |
| Machine.InputKeepsInv | script.js:165-177 | handleInput keeps the invariant |
| Machine.ExpandKeepsInv | script.js:149-155 | setView('expanded') keeps the invariant |
| Machine.RunKeepsInv | script.js:102-201 | every sequence of events keeps the invariant |
| Machine.Reachable | script.js:11-201 | in every reachable state: APEX_Y <= y <= GROUND_Y; dy == 0 only on the ground; on the ground dy is 0 or JUMP_FORCE; speed == 5 + 0.2 * (score / 5); compact iff idle; playing implies a pending frame; paused implies none; gameover implies high score >= score; the obstacles are in left-to-right order, more than 150 apart |
| Machine.StepHighScoreMonotone | script.js:131-141 | no event lowers the high score |
| Machine.RunHighScoreMonotone | script.js:131-141 | no sequence of events lowers the high score |
| Machine.StepScoreMonotone | script.js:121-124 | only events that start a new game lower score or speed, and they set them to 0 and 5; every other event leaves both at least as high |
| Display.Digits | script.js:93 | toString yields at least one character, all of them decimal digits, with no leading zero unless the number is 0 |
| Display.DigitsLength | script.js:93 | toString has exactly k digits for 10^(k-1) <= n < 10^k |
| Display.DigitsValue | script.js:93 | the digits read back as the number |
| Display.PadStartShape | script.js:93 | padStart only prepends fill characters, up to the width |
| Display.ScoreTextRoundTrip | script.js:93 | the score text has at least 5 characters (exactly 5 below 100000, and the plain digits from 100000 on), all digits, and reads back as the score |
| Display.ZeroScoreText | script.js:126 | a new game shows "00000" |
| Physics.Jumped | script.js:33-37 | definition of a jump request; its behaviour is stated by JumpOnlyFromGround and SoundKept |
| Physics.Updated | script.js:38-46 | definition of one tick of motion; stated by UpdateLandsOrFalls, FlightEnergyKept and SoundKept |
| Phases.Scored | script.js:90-95 | definition of one scoring step; stated by ScoredStepsSpeed |
| Obstacles.Overlaps | script.js:81-86 | definition of the strict box test; stated by OverlapsSymmetric and TouchingDoesNotOverlap |
| Obstacles.Collides | script.js:81-86 | definition of the dino-obstacle collision test; stated by CollisionZone |
| Obstacles.NewObstacle | script.js:57-66 | definition of the obstacle createObstacle() pushes: x = canvas.width, y = GROUND_Y, 15 wide, 20 high, unmarked; used by SpawnAppendsOne, StartResets and Session.CreateObstacle |
| Obstacles.GapOpen | script.js:69 | definition of the gap test (empty list, or canvas.width - newest.x > 150 + jitter); stated by SpawnAppendsOne and SpawnKeepsSpaced |
| Obstacles.OffScreen | script.js:90 | definition of the off-screen test x + width < 0; used by SweepMoves, SweepSurvivors, KeepIsVisible and TickCollisionEndsPass |
| Obstacles.Spawned | script.js:69-73 | definition of the spawn step; stated by SpawnAppendsOne and SpawnKeepsSpaced |
| Obstacles.Visit | script.js:75-96 | definition of the forEach callback on one obstacle; stated by SweepSnoc, SweepAt and SweepMoves |
| Obstacles.Spaced | script.js:55-73 | definition of the spacing the spawn gap creates; kept by SpawnKeepsSpaced, SpacedPass and KeepSpaced |
| Obstacles.Keep | script.js:98 | definition of the filter; stated by KeepAppend, KeepMembers and KeepIsVisible |
| Machine.Initial | script.js:16-24 | definition of the start-up state (idle, score 0, high score 0, speed 5, no obstacles as at script.js:54, no frame, dino at rest) after the setView('compact') at script.js:204; stated by InitialInv and Reachable |
| Machine.CollisionEndsPass | script.js:75-96 | definition: every obstacle after one that hits the dino is on screen and misses it; stated by TickCollisionEndsPass |
| Machine.Tick | script.js:102-119 | definition of animate(); stated by TickGuard, TickKeepsInv, TickScoresRemovals and TickCollisionEndsPass |
| Machine.Reset | script.js:121-125 | definition of startGame()'s assignments; stated by StartResets |
| Machine.Start | script.js:121-129 | definition of startGame(); stated by StartResets |
| Machine.SetView | script.js:144-162 | definition of setView(view); stated by MinimalPausesOnlyPlaying, ExpandedStartsOrResumes and PauseResumeIsOneFrame |
| Machine.HandleInput | script.js:165-177 | definition of handleInput(e); stated by InputInert and InputJumpsOrRestarts |
| Machine.Step | script.js:180-201 | definition of the listeners and the requested frame; stated by StepKeepsInv, NoReturnToCompact, StepHighScoreMonotone and StepScoreMonotone |
| Machine.Run | script.js:180-201 | definition of a sequence of events; stated by RunKeepsInv, RunHighScoreMonotone and Reachable |
| Display.PadStart | script.js:93 | definition of padStart; stated by PadStartShape |
| Display.ScoreText | script.js:93 | definition of the score text; stated by ScoreTextRoundTrip and ZeroScoreText |
| Display.HighScoreText | script.js:139 | definition of the high-score text: "HI " followed by the score text of the high score |
| Game.Session.constructor | script.js:16-24 | the session starts in Machine.Initial and satisfies the invariant |
| Game.Session.CreateObstacle | script.js:57-66 | appends exactly NewObstacle(canvas.width); nothing else changes |
| Game.Session.GameOver | script.js:131-141 | the counters become Ended(old counters); obstacles and view are unchanged |
| Game.Session.VisitObstacle | script.js:75-96 | the forEach callback on obstacle i leaves the counters and obstacle i as Visit says; other obstacles are unchanged |
| Game.Session.VisitAll | script.js:75-96 | the forEach loop leaves counters and list equal to Sweep of the old ones |
| Game.Session.HandleObstacles | script.js:68-99 | counters and list equal the Sweep of the spawned list, filtered by Keep |
| Game.Session.Animate | script.js:102-119 | the new session state is Tick(old state) |
| Game.Session.StartGame | script.js:121-129 | the new session state is Start(old state) |
| Game.Session.SetView | script.js:144-162 | the new session state is Machine.SetView(old state, view) |
| Game.Session.HandleInput | script.js:165-177 | the new session state is Machine.HandleInput(old state, input) |
| Game.Session.OnFrame | script.js:118 | a requested frame runs animate and consumes the request; the invariant is kept |
| Game.Session.OnKeyDown | script.js:196 | the keydown listener is Step(Key); the invariant is kept |
| Game.Session.OnTouchStart | script.js:197-201 | the touchstart listener is Step(Touch); the invariant is kept |
| Game.Session.OnNotchClick | script.js:180-185 | a click on the widget expands it from compact or minimal; the invariant is kept |
| Game.Session.OnPageClick | script.js:187-194 | a click outside the expanded widget collapses it to minimal; the invariant is kept |

## Left out

- Drawing on the canvas (`clearRect`, `fillRect`, the ground line, `dino.draw`):
  pure output.
- DOM lookups, `innerText` and `style.display` updates, and CSS class toggling.
  The texts written to the score and high-score elements are modelled as
  values (`Display.ScoreText`, `Display.HighScoreText`), but the writes are not.
- Event-listener registration, `preventDefault` and `stopPropagation`. The
  `notchContainer.contains(e.target)` test is the boolean `insideNotch`.
- `Math.random()`: its results are parameters, not randomness, so the spawn
  probability of 2% is not modelled.
- `requestAnimationFrame`/`cancelAnimationFrame`: a single flag records whether
  a frame is requested. The browser can hold two pending callbacks, for example
  a restart during the stale frame that follows a collision. That would run two
  loops at once, and the flag cannot represent it.
- IEEE double rounding: all quantities are exact reals. The code adds 0.2 in
  doubles, so its speeds drift slightly from 5 + 0.2 * (score / 5). score and
  highScore are JavaScript numbers but here unbounded `nat`: `score++` stops
  changing at 2^53, and `toString()` uses exponent notation from 1e21, where
  `Display.Digits` would differ. Neither is reachable in play.
- The canvas width comes from the page's HTML, which is not part of this model.
  It is a parameter.
- Obstacles.Sweep: its own contract states only the length of the result. What
  the pass does to each obstacle and to the counters is stated in the Sweep
  lemmas.
