# Territory-reveal game: the gameplay engine in Dafny

This project models the gameplay engine of a browser territory-reveal game
(`game.js`). The player starts in a revealed square in the middle of a
hidden picture. Leaving revealed ground draws a trail. Returning to revealed
ground fills the area the trail encloses and reveals it. Five enemies patrol
the hidden area and bounce off revealed ground. An enemy that touches the
player or the trail costs a life. A stage is cleared when at least 50% of
the canvas is revealed before the 20-second stage timer runs out. There are
five stages and three lives.

The model has three modules:

- `Mask` (`mask.dfy`) covers the territory mask as a sequence of cells.
  - `true` means revealed, i.e. alpha 0 in the game's RGBA buffer.
  - The lookup uses the game's own unchecked `floor(y) * W + floor(x)` index.
  - It holds the revealed count, the merge of a rasterised fill, the
    percentage, and the start square written by a stage load.
- `Enemies` (`enemy.dfy`) covers the enemy record and the random values an
  enemy consumes.
  - It holds the patrol and pause state machine and the wall bounce.
  - It holds the rejection loop that samples spawn points outside the start
    square.
- `Play` (`game.dfy`) holds the class `Game`.
  - The fields are the game's globals, the player, the swarm (a sequence of
    enemy values) and the mask, which is an `array<bool>` updated in place.
  - The methods are the stage load, the spawn loop, the counting loop, the
    merge loop, the tick and its sub-steps, life loss and restart.

The class invariant `Valid()` is the conjunction of five parts:

- lives lie in [0, 3] and are 0 exactly at game over;
- the stage index lies in [0, 5);
- the timer lies in [0, 1200] frames and is 0 exactly once expired;
- the player is on the canvas and the trail is empty exactly while the player is safe;
- there are five enemies, each with speed in [2, 6) and pause data in range, and the stored
  percentage is never above the mask's current one.

Every method that changes state keeps `Valid()`.

Inputs the game takes from the browser become parameters:

- the four arrow-key states;
- one `EnemyDraw` of random rolls and a heading per enemy per tick;
- one `SpawnDraw` per spawned enemy, holding the candidate positions the
  rejection loop draws, in order;
- the per-pixel alpha of the rasterised trail polygon;
- the answer to the "next stage?" dialog.

The running interval timer and the restart button become two flags:
`halted` (the tick interval is cleared) and `awaitingRestart` (the restart
button is shown).

Where the game's behaviour is easy to misread, the model follows the code:

- The revealed start square is 120 × 120 pixels. Its corner is at
  `(floor(W/2 - 15), floor(H/2 - 15))`, so the square is not centred on the
  player.
- It is written with the raw index arithmetic. Writes past the buffer are
  dropped, and columns past the right edge wrap into the next row. This is
  `InStartSquare` in the model.
- The player may stand on `x == W`. That samples the first cell of the next
  row (`RightEdgeSamplesNextRow`).
- The spawn exclusion rectangle is closed:
  `[sx, sx + 120] × [sy, sy + 120]`.
- The stage-clear check runs even in a tick that has just ended the game.
  With a "yes" answer it loads the next stage and ticking resumes. The
  postcondition of `Tick` records this as the only way a game over reached
  in a tick leaves ticking on.
- A life loss makes the player safe at once, and no later enemy in the same
  tick tests a safe player. So a tick costs at most one life in total, not
  one per enemy (`StepEnemies`).
- A stationary enemy touching the player does not keep costing lives. The
  player is moved back to the centre.
- The bounce off revealed ground steps back by the reversed velocity
  without sampling the mask again. An enemy can therefore end a tick on
  revealed ground.
- The game checks no configuration. Five stages and five enemies are
  constants.
- The timer is decremented before the player and enemies move. The coverage
  is recounted after the collisions and just before the clear check.

## Model

| member | source | states |
|---|---|---|
| Mask.StartCorner | game.js:86-87 | the corner coordinate r satisfies r <= c/2 - 15 < r + 1, i.e. it is floor(c/2 - 15) |
| Mask.AlphaAt | game.js:281-284 | the lookup reads 0 exactly when a mask exists, the unchecked index lies inside it and that cell is revealed; otherwise 255 (no mask yet, index outside, or unrevealed) |
| Mask.CellIndex | game.js:282 | the game's unchecked cell index: for a column floor(x) in [0, W) it lies in row floor(y); for floor(x) >= W it lies in a later row |
| Mask.InsideCanvasCell | game.js:282 | a point strictly inside the canvas samples an in-buffer cell whose row is floor(y) and column floor(x) |
| Mask.RightEdgeSamplesNextRow | game.js:168-171 | a player clamped to x == W samples cell (floor(y)+1)*W, the first cell of the next row |
| Mask.BottomEdgeUnrevealed | game.js:169-171 | a player clamped to y == H samples past the buffer and always reads unrevealed |
| Mask.CountRevealed | game.js:306-310 | the number of revealed cells never exceeds the number of cells |
| Mask.CountExtremes | game.js:306-310 | the count is 0 exactly when no cell is revealed and equals the length exactly when all are |
| Mask.CountMonotone | game.js:306-310 | a mask revealing a superset of cells has at least as large a count |
| Mask.CountStrictlyMonotone | game.js:306-310 | a superset that adds a newly revealed cell has a strictly larger count |
| Mask.MergeOnlyReveals | game.js:299-303 | a merge never hides a revealed cell, never lowers the count, and raises it when the fill covers an unrevealed cell |
| Mask.Percentage | game.js:311 | the percentage lies in [0, 100], reaches 50 exactly when twice the count reaches the cell count, and is 100 exactly when every cell is revealed |
| Mask.PercentageOfCells | game.js:311 | the percentage times the number of cells is 100 times the count |
| Mask.PercentageMonotone | game.js:311 | more revealed cells never give a smaller percentage |
| Mask.StartSquareCells | game.js:86-93 | when the square fits the canvas width, the cells the load loop reveals are exactly those with row in [sy, sy+120) and column in [sx, sx+120) |
| Mask.CentreInStartSquare | game.js:86-98 | when the square fits the canvas, the player's start point (W/2, H/2) samples a revealed start-square cell |
| Enemies.HeadingSpeed | game.js:125-133 | a velocity built from a unit heading, base speed 2 and multiplier 1 + 2*roll has squared speed in [4, 36) |
| Enemies.PauseSpin | game.js:203 | a new pause's spin has magnitude in [0.05, 0.15) and is negative exactly when the sign roll is below 0.5 |
| Enemies.PauseLength | game.js:204 | a new pause lasts between 30 and 89 ticks |
| Enemies.Advance | game.js:185-219 | a patrolling enemy steps by its velocity, or on revealed ground reverses both components and steps back; it pauses exactly when the pause roll is below 0.002, with count 0, length in [30, 89] and spin in range; a paused enemy stays put, spins, counts one, and resumes with no spin and a fresh velocity once the count reaches its length; enemy validity is kept |
| Enemies.Patrol | game.js:185-206 | the patrolling branch: forward step or bounce off revealed ground, pause entry exactly under the pause chance, validity kept |
| Enemies.Pause | game.js:207-219 | the paused branch: position fixed, count up by one, spin added, resume with a fresh heading exactly when the count reaches the length, validity kept |
| Enemies.AdvanceKeeps | game.js:185-219 | what the step leaves alone: a patrolling enemy that keeps patrolling changes only position and velocity; one that pauses also changes only the pause fields (spin, length, count 0); a paused enemy that stays paused changes only rotation and count, so it keeps its spin; one that resumes also changes only velocity and spin |
| Enemies.Reflect | game.js:221-222 | position unchanged; a velocity component changes only when the enemy is outside the canvas on that axis, and a non-zero one always flips there; speeds and every other field are kept |
| Enemies.FirstOutside | game.js:119-123 | the accepted spawn point is a drawn candidate outside the closed exclusion rectangle, and every earlier candidate lies inside it |
| Enemies.SampleSpawnPoint | game.js:119-123 | the rejection loop returns exactly the first candidate outside the exclusion rectangle |
| Enemies.SpawnClearOfStartSquare | game.js:113-123 | when the start square fits the canvas width, an on-canvas point outside the closed exclusion rectangle samples an in-buffer cell outside the revealed start square |
| Enemies.NewEnemy | game.js:129-141 | a spawned enemy sits at its point, patrolling, with zero counters and rotation, no spin, and a valid speed |
| Enemies.Spawned | game.js:111-143 | the swarm has one enemy per spawn draw; each is valid, patrolling, with pause count 0 and outside the exclusion rectangle |
| Enemies.SpawnedAt | game.js:118-142 | enemy i of the swarm is built from spawn draw i alone |
| Play.KeyAxis | game.js:161-164 | each velocity component is 0, +3 or -3; +3 exactly when only the positive key is held, -3 exactly when only the negative one is |
| Play.Clamp | game.js:168-169 | the clamped coordinate lies in [0, hi]; it is the input when that is in range, 0 below and hi above |
| Play.TouchesIsDistance | game.js:226-232 | the squared comparison used for the hit tests holds exactly when the Euclidean distance is below the reach |
| Play.TrailStep | game.js:171-182 | the trail state machine at the player's point: safety follows the sample; the trail is empty exactly when safe; leaving safety starts a trail of the current point; staying out appends it; nothing else changes |
| Play.StepEnemy | game.js:185-222 | one enemy's tick (mask-decided step, then wall bounce) keeps enemy validity |
| Play.CaughtByPrefix | game.js:184-237 | whether one of the first n enemies catches the player depends only on those n enemies |
| Play.CaughtByWitness | game.js:184-237 | being caught by the first n enemies holds exactly when some enemy among them reaches the player or a trail point |
| Play.AnyWithin | game.js:230-236 | the trail scan reports a hit exactly when some trail point lies within reach of the enemy |
| Play.Game.constructor | game.js:18-38 | the script's start leaves a valid game with 3 lives, stage 0, no game over, stage 0 freshly loaded, and ticking |
| Play.Game.StartMask | game.js:78-93 | the fresh mask has one cell per pixel and a cell is revealed exactly when the square-writing loop covers it |
| Play.Game.RevealValue | game.js:281-284 | the alpha read is 0 or 255, and 0 exactly when the unchecked index lies inside the mask and that cell is revealed |
| Play.Game.LoadStage | game.js:71-109 | after a load: a new W*H mask revealing exactly the start square, the player at the centre, safe, with no trail, a full unexpired timer, 0% recorded, the spawned swarm, and the invariant holding |
| Play.Game.ResetStageState | game.js:95-105 | the player is at the centre, safe, with no trail; timer full and unexpired; 0% recorded; the swarm is the spawned one |
| Play.Game.SpawnEnemies | game.js:111-143 | the swarm is exactly the one built from the five spawn draws |
| Play.Game.RevealedPercentage | game.js:306-312 | the counting loop returns the percentage of revealed cells in the mask |
| Play.Game.FillTrailArea | game.js:286-304 | with fewer than three trail points the mask is unchanged; otherwise a cell is revealed afterwards exactly when it was before or the fill covers it above alpha 128 |
| Play.Game.UpdateTimer | game.js:146-159 | the timer drops by one tick until it reaches 0, where it expires; expiry is sticky and the timer never goes below 0 |
| Play.Game.MovePlayer | game.js:161-169 | velocity from the keys, position moved and clamped to the canvas |
| Play.Game.Walk | game.js:161-182 | the player part after the clamped move and the trail step: on the canvas, safe exactly when the mask before any fill reads revealed under the new point, trail empty exactly when safe, lives and loop flags unchanged |
| Play.Game.UpdateTrail | game.js:171-182 | the player part becomes TrailStep of the old one at the safety read from the mask under the player; when an unsafe player with three or more trail points returns to safety the mask becomes the fill merge, otherwise it is unchanged; the mask only gains cells; the invariants hold |
| Play.Game.LoseLife | game.js:314-326 | the lives, flags and player become AfterLoss of what they were; lives stay non-negative and zero exactly at game over |
| Play.Game.AfterLoss | game.js:314-326 | one life fewer but never below 0; at 0 the game is over, ticking stops and restart is offered; the player is back at the centre, safe, with no trail |
| Play.Game.Caught | game.js:224-237 | the collision outcome of a whole enemy pass: nothing changes unless the player is unsafe and some enemy catches the player or trail; then exactly one life goes, game over and the halt come exactly when the last life goes, and the player is back at the centre, safe, with no trail |
| Play.Game.Collide | game.js:224-237 | a moved enemy costs exactly one life when the player is out of safety and the enemy reaches the player or a trail point, and nothing otherwise |
| Play.Game.MoveEnemy | game.js:185-222 | enemy i is replaced by its step against the current mask; the others are untouched; the swarm stays valid |
| Play.Game.EnemyTurn | game.js:184-237 | one pass of the enemy loop: enemy i stepped, then at most one life lost, exactly when it catches the unsafe player |
| Play.Game.StepEnemies | game.js:184-238 | every enemy becomes its StepEnemy against the unchanged mask; the player part becomes Caught by the moved swarm, so one life is lost exactly when the player was unsafe and some moved enemy catches the player or trail, and a tick costs at most one life |
| Play.Game.CheckStageClear | game.js:259-278 | nothing happens when expired or under 50%; otherwise ticking stops, and with a next stage and a yes the stage index rises by one, the next stage is loaded fresh and ticking resumes; without either the restart button is offered and the stage is kept |
| Play.Game.PlayerStep | game.js:161-182 | the velocity comes from the keys; the player part becomes Walk of the old one on the old mask; the mask becomes the fill merge exactly when the walk re-enters safety from a trail of three or more points, otherwise it is unchanged; the mask only gains cells; the invariants hold |
| Play.Game.MoveActors | game.js:161-238 | the key velocity; the fill as in PlayerStep; every enemy becomes its StepEnemy against the mask after the fill; the player part becomes Caught(Walk(...)) by the moved swarm; at most one life is lost; game over comes exactly at zero lives; ticking stops only on game over; the mask only gains cells |
| Play.Game.Recount | game.js:257 | the stored percentage becomes the mask's own percentage and never drops |
| Play.Game.PlayTick | game.js:145-257 | an unexpired timer drops by exactly one frame and expires exactly at 0, and an expired one stays at 0; then everything MoveActors states; then the stored percentage is the mask's own and never drops; the invariant holds |
| Play.Game.Tick | game.js:145-279 | the invariant holds; at most one life is lost and game over comes exactly at zero lives; expiry is sticky; the stage changes only by one on an accepted clear of an existing next stage, which is loaded fresh; an advance happens only when the timer had more than one frame left and the old mask, after this tick's fill, is at least 50% revealed; a clear with a next stage and a yes never leaves the stage unchanged; within a stage the timer drops by one frame unless expired, the player walks, the fill merges, every enemy steps, a catch is applied as in Caught, and a clear (unexpired, at least 50%) halts ticking and offers the restart; the mask only gains cells and coverage never drops; ticking stops only on game over or a clear |
| Play.Game.RestartGame | game.js:332-341 | restart gives 3 lives, stage 0, no game over, a freshly loaded stage 0, ticking, and no restart button; the player's velocity is left as it was |

## Left out

- Drawing (the render function, images, HUD text) is presentation and is not modelled.
- The browser's polygon rasterisation inside the fill is a foreign canvas
  call. Its output is the `fillAlpha` parameter: one alpha value per pixel.
  Only the merge loop is modelled, so nothing relates the fill to the trail's
  geometry.
- Image loading is asynchronous in the game; a stage load here takes effect
  at once. Ticks that run before the first image arrives, which read an
  absent mask, are not modelled beyond `AlphaAt` treating a missing mask as
  unrevealed. The same holds for ticks after an accepted advance or a
  restart (game.js:268-270, 338-339): until the new image arrives, the game
  keeps the old mask and the old swarm under the new stage index. If that
  mask is at least 50% revealed, the game asks again, so a stage can be
  skipped. The model loads the new stage at once and does not have these
  ticks.
- Swapping in the fail background on expiry is cosmetic and is not modelled.
- The interval timer, the key listeners and the restart button are browser
  I/O. They are replaced by the `halted` and `awaitingRestart` flags and key
  parameters. Ticks are not scheduled here.
- The confirm and alert dialogs are replaced by the `advance` parameter.
- Random numbers, cosine and sine are parameters with their documented
  ranges. Distances are compared squared, so no square root is taken.
- Particles have no effect on play and are not modelled.
- The enemies' `rotateDirection` field is never read, so it is not modelled.
- Positions and velocities are exact reals, not IEEE doubles.
- Play.Game.UpdateTimer: counts integer frames (20 s × 60) instead of
  subtracting 1/60 from a float. Rounding in the float sum can move the
  moment of expiry by a frame; this is not modelled.
- The canvas size is fixed when a `Game` is built; window resizing does not
  exist in the game either.
- Enemies are values in a sequence, not shared objects. The game never
  aliases them, so no behaviour is lost.
- A canvas at most 31 pixels in both dimensions is not modelled. There
  every on-canvas spawn candidate lies inside the closed exclusion
  rectangle, so the game's rejection loop (game.js:120-123) never ends. The
  members that spawn (`Play.Game.constructor`, `Play.Game.LoadStage`,
  `Play.Game.RestartGame`, `Play.Game.Tick`) require spawn draws whose last
  candidate lies outside the rectangle, and no such draw exists on that
  canvas.
- A zero-size canvas is not modelled: the game's percentage would divide by
  zero cells. The constructor requires a positive width and height.
- Play.Game.Tick: in a tick that clears the stage and loads the next one, the
  contract gives the fresh stage, the one-life bound and the game-over rule,
  but not which enemy caught the player before the load.
