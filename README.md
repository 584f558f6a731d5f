# Flappy ghost: the simulation core in Dafny

This project models the simulation core of a browser "flappy" game, in which a
ghost (the character, "ghosty") falls under gravity, jumps on a key press, tap
or click, and must pass through the gaps of walls that scroll in from the
right. The core has three parts, one Dafny module each.

- `PhysicsEngine` (`physics.dfy`, from `js/physics.js`) is the per-tick world step:
  - integration of the character (gravity first, then position with the new velocity, the tilt, and the flap timer);
  - the jump impulse;
  - scrolling, culling and spawning of walls;
  - the difficulty curve for the gap size;
  - the collision tests against ground, ceiling and pipes;
  - the scan that scores each wall once.

  The character and the walls are objects updated in place (classes `Ghosty` and `Wall`). Each has a value view (`GhostyState`, `WallState`). The methods of class `Physics` are proved against value-level functions (`GhostyAfter`, `WallsAfter`, `Collides`, `ScoredAfter`), and the lemmas are stated about those functions.
- `GameEngine` (`game.dfy`, from `js/game.js`) is the phase machine START → FLOATING → PLAYING → GAME_OVER → START, plus the score and high-score bookkeeping.
  - Class `Game` holds the fields `state`, `score`, `highScore`, `running`, `exploded`, `ghosty` and `walls`.
  - Every method is proved to follow a function on `GameView`, the value of the whole game.
  - The two-second float timer's callback is the method `FloatTimerFired`.
  - The playing part of `update` is split, for the proof only, into `Advance` (character step, then wall step) and `Resolve` (collision check, then game over or `Score`). Together they keep the source's statement order.
  - `Consistent` is an invariant of every reachable game and is kept by every event. `Event`, `Apply` and `Run` describe runs of events, which is how the session-wide score properties are stated.
  - `NoInputEndsRound` states the whole-game fall: a PLAYING round whose character is at rest or falling, given only frames of a fixed positive length, ends in GAME_OVER whatever random draws the walls spawned meanwhile use.
  - `ScoredWallStaysScored` (one frame) and `ScoredWallStaysInRound` (any run within a round: frames of any lengths and draws, jumps, the float timer) state that a scored wall, while on screen, stays in the list with its flag set unless the game ends. So it never scores a second time.
- `InputHandling` (`input.dfy`, from `js/input.js`) covers the input side:
  - the Space key, debounced against auto-repeat through `spacePressed`;
  - touch and click, which are not debounced;
  - the dispatch of a press by phase to start, jump or restart.

Numbers are Dafny `real`. The score and high score are `nat`.

Two points where the code is followed exactly:

- The flap timer is decreased only while it is positive and is not floored at zero, so it can go negative (`js/physics.js:28-30`).
- Culling compares against the constant `WALL_WIDTH`, not the wall's own `width` (`js/physics.js:44`).

## Model

| member | source | states |
|---|---|---|
| PhysicsEngine.Physics.constructor | js/physics.js:4-18 | the ground line lies 50 above the bottom of the canvas; the tuning constants are the module constants `GRAVITY` … `WALL_SPACING` |
| PhysicsEngine.Physics.UpdateGhosty | js/physics.js:20-31 | the character object afterwards has exactly the value `GhostyAfter` of its old value |
| PhysicsEngine.RotationFor | js/physics.js:25 | the tilt for a velocity: velocity·50 clamped to [-30, 30] |
| PhysicsEngine.GhostyAfter | js/physics.js:20-31 | the value of updateGhosty: velocity raised by GRAVITY·dt, then y moved by the new velocity·dt, tilt `RotationFor` of the new velocity, flap timer lowered by dt only while positive; x, width and height kept |
| PhysicsEngine.GhostyAfterKinematics | js/physics.js:21-22 | velocity grows by GRAVITY·dt; the height change uses the new velocity (v·dt + GRAVITY·dt²); x, width and height are unchanged |
| PhysicsEngine.RotationClamped | js/physics.js:25 | the tilt is velocity·50 clamped to [-30, 30]: inside the band it equals velocity·50, above it 30, below it -30 |
| PhysicsEngine.GhostyAfterRotation | js/physics.js:25 | after a tick the tilt lies in [-30, 30] and is the clamp of the new velocity |
| PhysicsEngine.GhostyAfterFlapTime | js/physics.js:28-30 | the flap timer drops by dt only when it was positive, is unchanged otherwise, never grows, and goes below zero when dt exceeds a positive timer |
| PhysicsEngine.Physics.Jump | js/physics.js:33-36 | the character object afterwards has the value `GhostyAfterJump` of its old value |
| PhysicsEngine.GhostyAfterJump | js/physics.js:33-36 | the value of jump: velocity -0.5 and flap timer 200, everything else kept |
| PhysicsEngine.JumpOverridesVelocity | js/physics.js:33-36 | a jump sets the velocity to exactly -0.5 whatever it was (even when it was lower), sets the flap timer to 200, leaves x and y alone, and is idempotent |
| PhysicsEngine.GhostyAfterFalls | js/physics.js:21-22 | one tick of `GhostyAfter` extends the n-tick fall `Fall` to n + 1 ticks |
| PhysicsEngine.FallClosedForm | js/physics.js:21-22 | after n ticks without a jump the velocity is v + n·GRAVITY·dt and the height y + n·v·dt + (1+…+n)·GRAVITY·dt² |
| PhysicsEngine.FallReachesAnyDepth | js/physics.js:21-22 | starting at rest or falling, with dt > 0, some number of ticks takes the character below any given line |
| PhysicsEngine.TicksFall | js/physics.js:20-31 | the height and velocity after n ticks of `GhostyAfter` are those of `Fall`; the height of the sprite is kept |
| PhysicsEngine.NoJumpReachesGround | js/physics.js:20-31 | a character that never jumps, at rest or falling, reaches the ground after finitely many ticks, which is a ground collision |
| PhysicsEngine.CalculateGapSize | js/physics.js:69-72 | the gap is 180 - 2·score or 120, never below 120, and at most 180 for a non-negative score |
| PhysicsEngine.GapSizeNonIncreasing | js/physics.js:69-72 | a higher score never gives a wider gap |
| PhysicsEngine.GapSizeCurve | js/physics.js:69-72 | the gap is 180 - 2·score up to a score of 30 and 120 from 30 on (0→180, 29→122, 30→120, 1000→120) |
| PhysicsEngine.CreateWall | js/physics.js:54-67 | a new wall is at x = canvasWidth, 60 wide, unscored, with gap `CalculateGapSize(score)`, and its centre lies between gapSize/2 and groundY - gapSize/2 |
| PhysicsEngine.Lerp | js/physics.js:58 | the random point between the lowest and highest gap centre lies between them, equals the lowest exactly when r = 0, and stays below the highest |
| PhysicsEngine.CreateWallGapInField | js/physics.js:54-67 | with a non-negative score and a field at least 180 high, the whole gap of a new wall lies between ceiling and ground |
| PhysicsEngine.Physics.UpdateWalls | js/physics.js:38-52 | the input wall objects are all moved in place by `Scrolled`; the returned list has the value `WallsAfter`, holds no object twice, and holds only input objects or a fresh wall |
| PhysicsEngine.Physics.ScrollWalls | js/physics.js:39-41 | every wall object moves left by 0.2·dt, in place |
| PhysicsEngine.Physics.KeepOnScreen | js/physics.js:44 | the new list holds the on-screen objects in order (value `Survivors`), without duplicates, and changes no object |
| PhysicsEngine.Physics.KeepNext | js/physics.js:44 | one step of the filter: the wall at the next index is appended exactly when it is on screen, so the list stays the survivors of the prefix seen, without duplicates |
| PhysicsEngine.Physics.SpawnWall | js/physics.js:46-49 | a fresh wall with the value `CreateWall` is appended exactly when the list is empty or its last wall is left of canvasWidth - 300; the list keeps no object twice |
| PhysicsEngine.WallsAfter | js/physics.js:38-52 | the value of updateWalls: the scrolled walls, culled by `Survivors`, then one `CreateWall` appended when `NeedsWall` holds of the survivors |
| PhysicsEngine.OnScreen | js/physics.js:44 | the filter's test: x + 60 > 0, with the constant width |
| PhysicsEngine.NeedsWall | js/physics.js:47 | the spawn condition: no wall kept, or the last kept wall left of canvasWidth - 300 |
| PhysicsEngine.Scrolled | js/physics.js:39-41 | each wall's x drops by 0.2·dt and nothing else changes; the length is kept |
| PhysicsEngine.Survivors | js/physics.js:44 | a wall is kept exactly when x + 60 > 0; nothing is added |
| PhysicsEngine.SurvivorsConcat | js/physics.js:44 | the cull keeps relative order: culling a concatenation is concatenating the culls |
| PhysicsEngine.SurvivorsAllOrNothing | js/physics.js:44 | walls all on screen are kept whole; walls all off screen are all dropped |
| PhysicsEngine.WallsAfterCull | js/physics.js:43-44 | every scrolled wall with x + 60 > 0 survives the tick, and every survivor satisfies it |
| PhysicsEngine.WallsAfterSpawn | js/physics.js:46-49 | the result is the survivors in order followed by exactly one new wall, from `CreateWall`, iff there are no survivors or the last is left of canvasWidth - 300; otherwise nothing is added |
| PhysicsEngine.SurvivorsLayout | js/physics.js:44 | culling keeps the wall layout (order, spacing, widths, gap bounds) |
| PhysicsEngine.WallsAfterLayout | js/physics.js:38-52 | for dt ≥ 0 a tick keeps the layout: walls left of the spawn point, more than 300 apart in spawn order, 60 wide, with gaps never widening along the list |
| PhysicsEngine.LayoutScoreUp | js/physics.js:69-72 | a layout valid at one score stays valid at any higher score |
| PhysicsEngine.CheckWallCollision | js/physics.js:89-101 | the character overlaps the wall strictly in x and its top is above the gap's top edge or its bottom below the gap's bottom edge |
| PhysicsEngine.HitsGroundOrCeiling | js/physics.js:76-79 | the character's bottom is at or below groundY, or its top at or above 0 |
| PhysicsEngine.Collides | js/physics.js:74-87 | what checkCollisions decides: ground or ceiling, or a wall collision with some wall of the list |
| PhysicsEngine.Physics.CheckCollisions | js/physics.js:74-87 | true exactly when the character touches ground or ceiling or collides with some wall (`Collides`) |
| PhysicsEngine.WallCollisionExample | js/physics.js:89-101 | a 50×50 character at x = 120 hits the wall at x = 100 (width 60, gap 180 at 300) at y = 195 but not at y = 215 |
| PhysicsEngine.NoCollisionIffInsideGaps | js/physics.js:74-101 | no collision exactly when 0 < y, y + height < groundY, and the character lies inside the gap of every wall it overlaps strictly in x |
| PhysicsEngine.Scorable | js/physics.js:105 | a wall can score when it is not yet scored and the character's x is right of the wall's right edge |
| PhysicsEngine.ScoredAfter | js/physics.js:103-111 | the value of the walls after checkScoring: the first scorable wall marked scored, all others kept; the list unchanged when none is scorable |
| PhysicsEngine.FirstScorable | js/physics.js:104-109 | the index found is a wall that is unscored and wholly passed, and no earlier wall is |
| PhysicsEngine.Physics.CheckScoring | js/physics.js:103-111 | returns true iff some wall is scorable; the walls afterwards have the value `ScoredAfter`: only the first scorable wall is marked |
| PhysicsEngine.ScoringMarksAtMostOne | js/physics.js:103-111 | the scan changes at most one wall and only its `scored` flag; an already-scored wall never changes; the scored count rises by exactly one iff a wall was scorable |
| PhysicsEngine.CountScoredMark | js/physics.js:106 | marking an unscored wall raises the number of scored walls by one |
| PhysicsEngine.ScoredAfterLayout | js/physics.js:103-111 | scoring moves no wall, so the layout is kept |
| GameEngine.Initial | js/game.js:8-25 | the value of a new game: START, score 0, the stored high score, not running, and the state of `Reset` |
| GameEngine.Reset | js/game.js:27-39 | the value of initGameState: the initial character, no walls, not exploded, other fields kept |
| GameEngine.Game.constructor | js/game.js:8-25 | a new game is on the start screen with score 0, the stored high score, not running, not exploded, the initial character and no walls, and is consistent |
| GameEngine.InitialConsistent | js/game.js:16-22 | the game as built satisfies the invariant `Consistent` |
| GameEngine.Game.InitGameState | js/game.js:27-39 | a fresh character object at (150, 100), 50×50, at rest; no walls; not exploded; nothing else changes |
| GameEngine.Game.Start | js/game.js:41-60 | the game afterwards is `Started` of the game before, and stays consistent |
| GameEngine.Started | js/game.js:41-47 | the value of start: from START a FLOATING round with score 0, running, and the state of `Reset`; in any other phase the game unchanged |
| GameEngine.StartFreshRound | js/game.js:41-47 | start acts only on the start screen; it gives FLOATING, score 0, running, not exploded, no walls, the initial character, and the same high score |
| GameEngine.StartedConsistent | js/game.js:41-47 | start keeps the invariant |
| GameEngine.Game.FloatTimerFired | js/game.js:51-57 | the game afterwards is `FloatEnded` of the game before, and stays consistent |
| GameEngine.FloatEnded | js/game.js:51-57 | the value of the timer callback: FLOATING becomes PLAYING, any other phase unchanged |
| GameEngine.FloatTimerOnlyWhileFloating | js/game.js:51-57 | the timer moves FLOATING to PLAYING, is a no-op in any other phase, and changes nothing but the phase |
| GameEngine.FloatEndedConsistent | js/game.js:51-57 | the timer keeps the invariant |
| GameEngine.OnlyTimerEndsFloat | js/game.js:51-57 | while FLOATING every event other than the timer leaves the game as it is; the timer moves it to PLAYING |
| GameEngine.Game.Jump | js/game.js:62-66 | the game afterwards is `Jumped` of the game before, and stays consistent |
| GameEngine.Jumped | js/game.js:62-66 | the value of jump: while PLAYING the character gets `GhostyAfterJump`; otherwise unchanged |
| GameEngine.JumpOnlyWhilePlaying | js/game.js:62-66 | jump is a no-op unless PLAYING; while playing it sets the velocity to -0.5 and the flap timer to 200 and changes nothing else |
| GameEngine.JumpedConsistent | js/game.js:62-66 | jump keeps the invariant |
| GameEngine.Game.Restart | js/game.js:68-72 | the game afterwards is `Restarted` of the game before, and stays consistent |
| GameEngine.Restarted | js/game.js:68-72 | the value of restart: GAME_OVER becomes START, any other phase unchanged |
| GameEngine.RestartOnlyFromGameOver | js/game.js:68-72 | restart moves GAME_OVER to START, changes nothing else, and is a no-op in every other phase |
| GameEngine.RestartedConsistent | js/game.js:68-72 | restart keeps the invariant |
| GameEngine.Game.Update | js/game.js:86-108 | the game afterwards is `Updated` of the game before, and stays consistent |
| GameEngine.Game.Advance | js/game.js:94-95 | the character object is kept and moves by `GhostyAfter`; the walls become `WallsAfter` with the current score; the list has no duplicates and only old or fresh objects |
| GameEngine.Game.Resolve | js/game.js:97-107 | the game afterwards is `Resolved`: game over on a collision, otherwise `Scored` |
| GameEngine.Game.Score | js/game.js:102-103 | the game afterwards is `Scored`: the walls are those of the scoring scan and the score rises by one exactly when the scan marked a wall |
| GameEngine.Updated | js/game.js:86-108 | the value of update: unchanged unless PLAYING; otherwise `Advanced`, then `Resolved` |
| GameEngine.Advanced | js/game.js:94-95 | the character moved by `GhostyAfter` and the walls by `WallsAfter` at the score before the tick |
| GameEngine.Resolved | js/game.js:97-107 | `Ended` when the moved character collides with the moved walls, otherwise `Scored` |
| GameEngine.Scored | js/game.js:102-103 | the walls after `ScoredAfter` and one point more exactly when a wall was scorable |
| GameEngine.UpdateIdleUnlessPlaying | js/game.js:86-92 | update changes nothing in any phase but PLAYING, FLOATING included |
| GameEngine.UpdateOrder | js/game.js:94-107 | in PLAYING the character moves, then the walls. A collision of the moved character with the moved walls ends the game with the score unchanged. Otherwise play continues and the score rises by one exactly when the scan marked a wall, so by at most one |
| GameEngine.UpdatedConsistent | js/game.js:86-108 | a tick with dt ≥ 0 keeps the invariant, including the wall layout as the score rises |
| GameEngine.Game.GameOver | js/game.js:119-136 | the game afterwards is `Ended` of the game before |
| GameEngine.Ended | js/game.js:119-136 | the value of gameOver: exploded, GAME_OVER, not running, and the high score raised to the score when the score beats it |
| GameEngine.GameOverHighScore | js/game.js:119-136 | game over gives GAME_OVER, not running, exploded, keeps the score, and makes the high score the larger of the high score and the score |
| GameEngine.Game.GetState | js/game.js:166-168 | returns the current phase |
| GameEngine.FrameStep | js/game.js:94-100 | one frame without input from PLAYING either ends the game or keeps it PLAYING with the character one tick further and clear of ground and ceiling |
| GameEngine.Frames | js/game.js:74-84 | a run of frames of length dt has one `Tick` per draw, frame i using draw rs[i] for any wall it spawns |
| GameEngine.FramesInRound | js/game.js:74-84 | frames of length dt ≥ 0 with draws in [0, 1) are events within one round, and their tail is the frames of the remaining draws |
| GameEngine.GameOverAbsorbs | js/game.js:62-92 | once the game is over, any run of frames, jumps and timer firings leaves it exactly as it is |
| GameEngine.FirstFrame | js/game.js:74-100 | a run of frames is one `Updated` tick with the first draw, followed by the frames of the remaining draws |
| GameEngine.FramesFollowTicks | js/game.js:86-100 | after frames without input, whatever the draws, a PLAYING game is over, or still PLAYING with the character at `Ticks` of the frame count and clear of ground and ceiling |
| GameEngine.NoInputEndsRound | js/game.js:86-100 | a PLAYING round whose character is at rest or falling reaches GAME_OVER after some n > 0 frames of a fixed positive length, for every sequence of n draws in [0, 1) |
| GameEngine.ScoredWallStaysScored | js/game.js:94-107 | a wall already scored that is still on screen after one frame's scroll is in the next game's walls, moved left by SCROLL_SPEED · dt with its flag still set, so the scan of that frame cannot count it again |
| GameEngine.DriftedClosedForm | js/physics.js:39-41 | a run moves a wall left by exactly SCROLL_SPEED times its total frame time; only frames move walls |
| GameEngine.DriftedNotRight | js/physics.js:39-41 | within a round a wall never moves right |
| GameEngine.FramesTickTime | js/game.js:74-84 | frames of length dt for n draws add up to n · dt of frame time |
| GameEngine.FramesDrift | js/physics.js:39-41 | frames of length dt for n draws move a wall left by exactly SCROLL_SPEED · n · dt, whatever the draws |
| GameEngine.ScoredWallFirstEvent | js/game.js:62-107 | for a scored wall on screen at the end of a run, the first event either ends the game for good, or keeps PLAYING with the wall (scrolled by a frame, unmoved by a jump or the timer) still scored, in the list and on screen after the rest |
| GameEngine.ScoredWallStaysInRound | js/game.js:51-107 | within a round (frames of any lengths and draws, jumps, the float timer), a scored wall still on screen at the end is in the walls, moved left by the run's scroll and still scored, unless the game is over, so it scores no second time |
| GameEngine.ApplyConsistent | js/game.js:41-136 | every command, timer firing and tick keeps the invariant |
| GameEngine.RunConsistent | js/game.js:41-136 | every game reached from a consistent game by any run of events is consistent |
| GameEngine.ApplyScore | js/game.js:41-136 | one event raises the score by at most one. Only start lowers it, to 0, and only from the start screen. The high score never falls |
| GameEngine.RunScore | js/game.js:41-136 | across any run without start the score never decreases and rises by at most one per event; across any run the high score never decreases |
| InputHandling.InputManager.constructor | js/input.js:4-13 | the manager is attached to its game with Space not held |
| InputHandling.InputManager.HandleKeyDown | js/input.js:15-23 | the manager and game afterwards are `KeyDown` of before; the game stays consistent |
| InputHandling.InputManager.HandleKeyUp | js/input.js:25-29 | the manager and game afterwards are `KeyUp` of before |
| InputHandling.InputManager.HandleTouch | js/input.js:31-34 | one press is dispatched whatever the key state; the game stays consistent |
| InputHandling.InputManager.HandleClick | js/input.js:36-39 | one press is dispatched whatever the key state; the game stays consistent |
| InputHandling.InputManager.HandleJump | js/input.js:41-51 | the game afterwards is `Press` of the game before, and stays consistent |
| InputHandling.Press | js/input.js:41-51 | the value of handleJump: `Started` on START, `Jumped` while PLAYING, `Restarted` after GAME_OVER, the game unchanged while FLOATING |
| InputHandling.KeyDown | js/input.js:15-23 | the value of handleKeyDown: Space with the flag clear sets the flag and applies `Press`; anything else changes nothing |
| InputHandling.KeyUp | js/input.js:25-29 | the value of handleKeyUp: Space clears the flag; other keys change nothing |
| InputHandling.Tapped | js/input.js:31-39 | the value of handleTouch and handleClick: one `Press`, the Space flag kept |
| InputHandling.PressDispatch | js/input.js:41-51 | START starts a fresh floating round, PLAYING jumps and changes nothing else, GAME_OVER returns to START and changes nothing else, FLOATING does nothing, and the high score is never changed |
| InputHandling.PressConsistent | js/input.js:41-51 | a press keeps the game's invariant |
| InputHandling.KeyHandlers | js/input.js:15-29 | non-Space keys change nothing; a Space keydown dispatches exactly one press and sets the flag when Space was not held, and does nothing when it was; a Space keyup clears the flag and leaves the game alone |
| InputHandling.HeldSpaceDispatchesOnce | js/input.js:18-21 | any number ≥ 1 of Space keydowns without a keyup dispatches one press, or none if Space was already held |
| InputHandling.ReleaseRearms | js/input.js:25-29 | after a Space keyup the next Space keydown dispatches a press again |
| InputHandling.TapsAreNotDebounced | js/input.js:31-39 | two taps are two presses and leave the Space flag alone: two taps on the start screen start the game once (the second is ignored while floating), two taps while playing give two jumps |

## Left out

- Rendering, audio, storage, screen scaling and page wiring are not part of this model: `js/renderer.js`, `js/audio.js`, `js/storage.js`, `js/scaler.js` and `js/main.js`. Within `js/game.js` this also drops `render`, `renderInitialState`, `updateUI`, and the sound and renderer calls made by `start`, `jump`, `update` and `gameOver`.
- The frame loop (`gameLoop`, `requestAnimationFrame`, `lastFrameTime`) is not modelled. Each frame is one call of `Game.Update` with its `dt`. Nothing in the source clamps `dt`; the model requires `dt >= 0`. A negative `dt` would move walls right and can break the wall layout.
- Timers are not scheduled. The float timer's callback is the method `FloatTimerFired`, to be called at any moment. The 1800 ms game-over sound timer only plays a sound and refreshes the UI, so it is left out.
- `Math.random()` is the parameter `r`, with `0 <= r < 1`.
- The stored high score is the constructor parameter `storedHighScore`, taken to be a natural number. Saving the high score is a storage write and is left out.
- Browser events are reduced to what the handlers read: a keyboard event becomes its key code, and touch and click carry nothing. `preventDefault` and the listener registration in the `InputManager` constructor are left out.
- Floating point: positions, velocities and times are exact reals, so IEEE-754 rounding is not modelled.
- PhysicsEngine.CreateWall: the bounds on the gap centre are stated only when `gapSize <= groundY`. For a field shorter than the gap, the source's lowest and highest centres cross, and the centre then lies between them the other way round.
