# Goal loop of the VR goalie game

The game shoots a ball at a lacrosse goal every few seconds and the player,
holding a goalie stick, tries to keep it out. The part of the program with logic
of its own is the goal loop in `iwsdk-app/src/index.js`:

- four variables: `ballEntity`, `sphereExists`, `gameOver` and `score`;
- a system `update` that runs once per rendered frame. It does nothing once the
  game is over or while no ball exists. It discards a ball shot more than
  4000 ms ago and sets a 3000 ms timer for the next one. Otherwise it tests the
  ball's position against the goal box. On a goal it adds one to the score,
  redraws the board, ends the game at five goals, discards the ball and sets a
  2500 ms timer for the next one;
- the deferred respawn callbacks: the first ball 5000 ms after start-up, the one
  after a timeout, and the one after a goal, which does nothing if the game is over;
- the scoreboard text: `YOU LOSE` or `NO GOALS ALLOWED` over `Score: <score>`.

The project has four modules:

- `GoalVolume` (`goal_volume.dfy`): the goal box as a predicate on a point. It
  comes with lemmas for the interior, the faces, the exterior and two sample shots.
- `Scoreboard` (`scoreboard.dfy`): the two lines of board text. The score is
  written in decimal, as a template literal writes it for the scores the game
  reaches (`GameLoop.Inv` bounds them at 5). That
  formatter is paired with a reader, and the round trip is proved in both directions.
- `GameLoop` (`game_loop.dfy`): the loop state as a value. `Tick` is one frame and
  `Fire` is one timer callback. `Inv` is the invariant they keep. `Run` replays any
  sequence of frames and callbacks, with lemmas about what holds along it.
- `GameSystem` (`game_system.dfy`): class `GoalLoop`, which holds the program's
  variables as fields. `Update` and `FireTimer` change those fields in place, step
  by step, with the program's early returns. Each is proved to produce exactly
  the state that `Tick` or `Fire` gives. The `board` field is redrawn exactly
  where the program calls `updateScoreboard`.

A timer is recorded as a pending `Timer(callback, due)`. Nothing ever cancels
one, as in the program. The host's event loop is an explicit `FireTimer(now)`
call that runs the oldest timer if it is due. The clock (`performance.now()`) and
the ball's position are parameters. Times and coordinates are `real`, because
only sums and strict comparisons are made on them.

Timers are never cancelled, yet at most one respawn is ever pending:
`update` returns at once while no ball exists, so no goal can be scored while a
respawn waits. `GameLoop.Inv` states this: there is a ball or a pending
respawn, never both, and at most one timer.

## Model

| member | source | states |
|---|---|---|
| GoalVolume.InGoal | iwsdk-app/src/index.js:268-274 | no contract of its own: the goal test, specified by InGoalIff, BoundaryMisses and the two sample shots |
| GoalVolume.InGoalIff | iwsdk-app/src/index.js:268-274 | a point scores exactly when y < 1.83, -0.91 < x < 0.91 and -0.02 < z < 2.0, the bounds written as the source writes them |
| GoalVolume.BoundaryMisses | iwsdk-app/src/index.js:268-274 | a point on any face of the box does not score: all comparisons are strict |
| GoalVolume.AimPointScores | iwsdk-app/src/index.js:146-150 | the aim point (0, 1.2, 1.0) lies in the scoring volume |
| GoalVolume.WideShotMisses | iwsdk-app/src/index.js:268-274 | the point (2.0, 1.2, 1.0) does not score |
| Scoreboard.Decimal | iwsdk-app/src/index.js:227 | the score is written as a canonical decimal numeral: digits only, no leading zero, "0" exactly for zero |
| Scoreboard.DecimalValueOfDecimal | iwsdk-app/src/index.js:227 | reading back the numeral of n gives n |
| Scoreboard.DecimalOfDecimalValue | iwsdk-app/src/index.js:227 | every canonical numeral is the numeral of the number it denotes |
| Scoreboard.DecimalInjective | iwsdk-app/src/index.js:227 | different scores are written differently |
| Scoreboard.Render | iwsdk-app/src/index.js:209-230 | the headline is "YOU LOSE" exactly when the game is over and "NO GOALS ALLOWED" otherwise; the second line is "Score: " followed by a numeral denoting the score |
| Scoreboard.ScoreLineDeterminesScore | iwsdk-app/src/index.js:224-227 | two boards with the same second line show the same score |
| Scoreboard.InitialBoard | iwsdk-app/src/index.js:189-231 | the first board reads "NO GOALS ALLOWED" over "Score: 0" |
| Scoreboard.FinalBoard | iwsdk-app/src/index.js:212-227 | after five goals the board reads "YOU LOSE" over "Score: 5" |
| GameLoop.Init | iwsdk-app/src/index.js:173-180 | no contract of its own: the start-up state, specified by InitInv |
| GameLoop.Tick | iwsdk-app/src/index.js:242-299 | no contract of its own: one frame of the loop, specified by TickWhenOver, TickWithoutBall, TimeoutBeforeGoal, GoalScored, MissChangesNothing, TickScoreStep, TickEndsGameIff and TickInv |
| GameLoop.Fire | iwsdk-app/src/index.js:177-294 | no contract of its own: the three respawn callbacks (177-180, 259-262, 290-294), specified by FireRespawns, FireNotDue, FireKeepsScore, FireAfterGameOver and FireInv |
| GameLoop.InitInv | iwsdk-app/src/index.js:173-180 | start-up: score 0, game not over, no ball, exactly one pending timer, the first-ball callback due at start + 5000; the invariant holds |
| GameLoop.TickWhenOver | iwsdk-app/src/index.js:244 | once the game is over a frame changes no state at all |
| GameLoop.TickWithoutBall | iwsdk-app/src/index.js:245 | with no ball (flag false or no entity) a frame changes no state |
| GameLoop.TimeoutBeforeGoal | iwsdk-app/src/index.js:251-265 | a shot older than 4000 ms is discarded whatever its position: score and flag unchanged, ball gone, respawn due at now + 3000 |
| GameLoop.GoalScored | iwsdk-app/src/index.js:268-296 | a goal adds exactly 1, removes the ball, sets game over exactly when the score reaches 5, and sets the 2500 ms respawn timer |
| GameLoop.MissChangesNothing | iwsdk-app/src/index.js:267-298 | a ball within time and outside the goal leaves the state as it was |
| GameLoop.TickScoreStep | iwsdk-app/src/index.js:242-299 | a frame raises the score by 0 or 1 and never clears game over |
| GameLoop.TickEndsGameIff | iwsdk-app/src/index.js:281-284 | a frame ends the game if and only if a goal brings the score to 5 |
| GameLoop.FireKeepsScore | iwsdk-app/src/index.js:177-294 | a respawn callback never changes score or game over |
| GameLoop.FireRespawns | iwsdk-app/src/index.js:177-294 | a due callback (other than the post-goal one after game over, 291) creates a ball shot at the current time and removes its timer (178-179, 260-261, 292-293) |
| GameLoop.FireNotDue | iwsdk-app/src/index.js:177-294 | a timer whose delay has not elapsed has no effect |
| GameLoop.FireAfterGameOver | iwsdk-app/src/index.js:290-294 | once the game is over no callback creates a ball |
| GameLoop.TickInv | iwsdk-app/src/index.js:242-299 | a frame keeps the invariant: ball or pending respawn, never both; at most one timer; score at most 5; game over exactly at 5 |
| GameLoop.FireInv | iwsdk-app/src/index.js:177-294 | a respawn callback keeps the same invariant |
| GameLoop.RunInv | iwsdk-app/src/index.js:242-299 | every interleaving of frames and callbacks keeps the invariant |
| GameLoop.RunMonotone | iwsdk-app/src/index.js:278-284 | along any run the score never decreases and game over is never reset |
| GameLoop.RunFromInitBounded | iwsdk-app/src/index.js:173-299 | from start-up the score never exceeds 5, game over holds exactly at 5, and a ball never coexists with a pending respawn |
| GameLoop.RunAfterGameOver | iwsdk-app/src/index.js:244-294 | after game over, score and flag stay fixed and no ball ever appears again |
| GameSystem.GoalLoop.constructor | iwsdk-app/src/index.js:173-231 | initial fields are the start-up state, the first ball is due 5000 ms later, and the board reads "NO GOALS ALLOWED" over "Score: 0" |
| GameSystem.GoalLoop.Update | iwsdk-app/src/index.js:242-299 | the in-place frame update yields exactly Tick's state, keeps the invariant and a board matching the state, moves the score by 0 or 1, and changes nothing once game over |
| GameSystem.GoalLoop.FireTimer | iwsdk-app/src/index.js:177-294 | running the oldest due timer yields exactly Fire's state, keeps the invariant, leaves the board, and never creates a ball after game over |

## Left out

- Ball creation (`createBall`, lines 116-171): the random spawn point, the aiming
  arithmetic and the launch velocity are floating-point numerics. A created ball is
  modelled only as "a ball is live with shot time = now".
- Framework calls: world and entity creation, physics components, asset loading,
  `destroy()` and the board's `lookAt` toward the camera. They are calls into a
  library that is not part of this model. They are assumed to return normally.
  Destroying the ball is modelled as clearing `ballEntity`. A throw from
  `AudioUtils.play` (line 277, before the score is raised) or from `destroy()`
  (lines 256 and 287, after `sphereExists` is cleared) would leave states the
  model never reaches.
- Audio playback on a goal, and console logging: output only.
- Canvas drawing details (fonts, colours, pixel positions, `texture.needsUpdate`).
  Only the strings drawn are modelled.
- The Meta Quest 1 panel and its user-agent heuristic (lines 303-336): UI plumbing
  around a regular expression on a browser string. The panel system is not part of
  this model.
- Real timers and the event loop: firing is an explicit method, and the event loop
  may call it at any time. `GameLoop.Fire` runs the oldest pending timer rather than
  the one with the earliest due time. The invariant proves that at most one timer is
  ever pending, so the two rules agree.
- Floating-point rounding of `performance.now()` and of positions: times and
  coordinates are exact reals.
- The `delta` and `time` arguments of `update`: the program does not use them.
