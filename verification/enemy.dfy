/** Enemies: their record, the random values one enemy consumes, the
    patrol/pause step, the wall bounce, and the rejection sampling of spawn
    positions outside the start square. */
module Enemies {
  import opened Mask

  /** Collision radius of an enemy, in pixels. */
  const ENEMY_SIZE: real := 50.0
  /** Speed before the random multiplier in [1, 3) is applied. */
  const BASE_SPEED: real := 2.0
  /** Chance per tick that a patrolling enemy pauses. */
  const PAUSE_CHANCE: real := 0.002
  /** A pause lasts PAUSE_MIN + floor(roll * PAUSE_SPREAD) ticks. */
  const PAUSE_MIN: int := 30
  const PAUSE_SPREAD: int := 60

  /** One enemy. `rotation` is cosmetic; `stopped` is the paused state. */
  datatype Enemy = Enemy(
    x: real, y: real,
    vx: real, vy: real,
    rotation: real, rotationSpeed: real,
    stopped: bool, stopTime: int, maxStopTime: int)

  /** The random values one enemy may consume in one tick. Each roll is a
      value in [0, 1) as drawn from the random source; (cos, sin) is the
      heading chosen on resuming a patrol. */
  datatype EnemyDraw = EnemyDraw(
    pauseRoll: real, signRoll: real, spinRoll: real, pauseLengthRoll: real,
    speedRoll: real, cos: real, sin: real)

  /** The random values for spawning one enemy: the candidate positions the
      rejection loop draws, in order, then its speed roll and heading. */
  datatype SpawnDraw = SpawnDraw(candidates: seq<Point>, speedRoll: real, cos: real, sin: real)

  predicate IsRoll(r: real) { 0.0 <= r < 1.0 }

  /** (c, s) is the cosine and sine of one angle. */
  predicate IsHeading(c: real, s: real) { c * c + s * s == 1.0 }

  predicate ValidEnemyDraw(d: EnemyDraw)
  {
    IsRoll(d.pauseRoll) && IsRoll(d.signRoll) && IsRoll(d.spinRoll)
    && IsRoll(d.pauseLengthRoll) && IsRoll(d.speedRoll) && IsHeading(d.cos, d.sin)
  }

  function Abs(r: real): real { if r < 0.0 then -r else r }

  function SpeedSquared(e: Enemy): real { e.vx * e.vx + e.vy * e.vy }

  /** What every enemy satisfies between ticks: its speed lies in
      [2, 6); a paused enemy has a countdown below its pause length, a pause
      length in [30, 89] and a spin of magnitude in [0.05, 0.15); a
      patrolling enemy does not spin. */
  predicate EnemyValid(e: Enemy)
  {
    4.0 <= SpeedSquared(e) < 36.0
    && (e.stopped ==>
          0 <= e.stopTime < e.maxStopTime
          && PAUSE_MIN <= e.maxStopTime <= PAUSE_MIN + PAUSE_SPREAD - 1
          && 0.05 <= Abs(e.rotationSpeed) < 0.15)
    && (!e.stopped ==> e.rotationSpeed == 0.0)
  }

  function SpeedMultiplier(roll: real): real { 1.0 + roll * 2.0 }

  /** A velocity built from a heading and a speed roll has speed
      BASE_SPEED * SpeedMultiplier(roll), which lies in [2, 6). */
  lemma HeadingSpeed(c: real, s: real, roll: real)
    requires IsHeading(c, s) && IsRoll(roll)
    ensures var m := SpeedMultiplier(roll);
            4.0 <= (c * BASE_SPEED * m) * (c * BASE_SPEED * m)
                   + (s * BASE_SPEED * m) * (s * BASE_SPEED * m) < 36.0
  {
    var m := SpeedMultiplier(roll);
    var vx, vy := c * BASE_SPEED * m, s * BASE_SPEED * m;
    var k := m * m;
    assert vx * vx == 4.0 * k * (c * c);
    assert vy * vy == 4.0 * k * (s * s);
    assert vx * vx + vy * vy == 4.0 * k * (c * c + s * s);
    assert vx * vx + vy * vy == 4.0 * k;
    assert 1.0 <= m < 3.0;
    MulLe(1.0, m, m);
    MulLt(m, 3.0, m);
    MulLt(m, 3.0, 3.0);
    assert 1.0 <= k < 9.0;
  }

  /** Reversing or reflecting velocity components keeps the speed. */
  lemma SignFlipSpeed(e: Enemy, vx: real, vy: real)
    requires vx == e.vx || vx == -e.vx
    requires vy == e.vy || vy == -e.vy
    ensures SpeedSquared(e.(vx := vx, vy := vy)) == SpeedSquared(e)
  {
    assert vx * vx == e.vx * e.vx;
    assert vy * vy == e.vy * e.vy;
  }

  /** Spin of a new pause: random sign, magnitude roll * 0.1 + 0.05. */
  function PauseSpin(d: EnemyDraw): (r: real)
    requires ValidEnemyDraw(d)
    ensures 0.05 <= Abs(r) < 0.15
    ensures r < 0.0 <==> d.signRoll < 0.5
  {
    (if d.signRoll < 0.5 then -1.0 else 1.0) * (d.spinRoll * 0.1 + 0.05)
  }

  /** Length of a new pause, in ticks. */
  function PauseLength(d: EnemyDraw): (n: int)
    requires ValidEnemyDraw(d)
    ensures PAUSE_MIN <= n <= PAUSE_MIN + PAUSE_SPREAD - 1
  {
    PAUSE_MIN + (d.pauseLengthRoll * (PAUSE_SPREAD as real)).Floor
  }

  /** One tick of an enemy's own motion, before the wall bounce.
      `nextRevealed` is the mask sample at the tentative position
      (x + vx, y + vy); it matters only to a patrolling enemy. */
  function Advance(e: Enemy, nextRevealed: bool, d: EnemyDraw): (r: Enemy)
    requires ValidEnemyDraw(d)
    // a patrolling enemy steps forward, or bounces back off revealed ground
    ensures !e.stopped && !nextRevealed ==>
              r.x == e.x + e.vx && r.y == e.y + e.vy && r.vx == e.vx && r.vy == e.vy
    ensures !e.stopped && nextRevealed ==>
              r.vx == -e.vx && r.vy == -e.vy && r.x == e.x - e.vx && r.y == e.y - e.vy
    // and pauses exactly when the pause roll falls under the chance
    ensures !e.stopped ==> (r.stopped <==> d.pauseRoll < PAUSE_CHANCE)
    ensures !e.stopped && r.stopped ==>
              r.stopTime == 0 && PAUSE_MIN <= r.maxStopTime <= PAUSE_MIN + PAUSE_SPREAD - 1
              && 0.05 <= Abs(r.rotationSpeed) < 0.15
    ensures !e.stopped && !r.stopped ==> r.rotationSpeed == e.rotationSpeed
    // a paused enemy stays put, spins and counts; it resumes once the count
    // reaches the pause length, with no spin and a fresh velocity
    ensures e.stopped ==>
              r.x == e.x && r.y == e.y && r.stopTime == e.stopTime + 1
              && r.maxStopTime == e.maxStopTime
              && r.rotation == e.rotation + e.rotationSpeed
    ensures e.stopped ==> (r.stopped <==> e.stopTime + 1 < e.maxStopTime)
    ensures e.stopped && r.stopped ==> r.vx == e.vx && r.vy == e.vy
    ensures e.stopped && !r.stopped ==>
              r.rotationSpeed == 0.0
              && r.vx == d.cos * BASE_SPEED * SpeedMultiplier(d.speedRoll)
              && r.vy == d.sin * BASE_SPEED * SpeedMultiplier(d.speedRoll)
    ensures EnemyValid(e) ==> EnemyValid(r)
  {
    if !e.stopped then Patrol(e, nextRevealed, d) else Pause(e, d)
  }

  /** Patrolling branch of Advance. */
  function Patrol(e: Enemy, nextRevealed: bool, d: EnemyDraw): (r: Enemy)
    requires ValidEnemyDraw(d) && !e.stopped
    ensures !nextRevealed ==>
              r.x == e.x + e.vx && r.y == e.y + e.vy && r.vx == e.vx && r.vy == e.vy
    ensures nextRevealed ==>
              r.vx == -e.vx && r.vy == -e.vy && r.x == e.x - e.vx && r.y == e.y - e.vy
    ensures r.stopped <==> d.pauseRoll < PAUSE_CHANCE
    ensures r.stopped ==>
              r.stopTime == 0 && PAUSE_MIN <= r.maxStopTime <= PAUSE_MIN + PAUSE_SPREAD - 1
              && 0.05 <= Abs(r.rotationSpeed) < 0.15
    ensures !r.stopped ==> r.rotationSpeed == e.rotationSpeed
    ensures EnemyValid(e) ==> EnemyValid(r)
  {
    var moved :=
      if nextRevealed then e.(vx := -e.vx, vy := -e.vy, x := e.x - e.vx, y := e.y - e.vy)
      else e.(x := e.x + e.vx, y := e.y + e.vy);
    SignFlipSpeed(e, moved.vx, moved.vy);
    assert SpeedSquared(moved) == SpeedSquared(e.(vx := moved.vx, vy := moved.vy));
    if d.pauseRoll < PAUSE_CHANCE then
      moved.(stopped := true, rotationSpeed := PauseSpin(d),
             maxStopTime := PauseLength(d), stopTime := 0)
    else moved
  }

  /** Paused branch of Advance. */
  function Pause(e: Enemy, d: EnemyDraw): (r: Enemy)
    requires ValidEnemyDraw(d) && e.stopped
    ensures r.x == e.x && r.y == e.y && r.stopTime == e.stopTime + 1
            && r.maxStopTime == e.maxStopTime && r.rotation == e.rotation + e.rotationSpeed
    ensures r.stopped <==> e.stopTime + 1 < e.maxStopTime
    ensures r.stopped ==> r.vx == e.vx && r.vy == e.vy && r.rotationSpeed == e.rotationSpeed
    ensures !r.stopped ==>
              r.rotationSpeed == 0.0
              && r.vx == d.cos * BASE_SPEED * SpeedMultiplier(d.speedRoll)
              && r.vy == d.sin * BASE_SPEED * SpeedMultiplier(d.speedRoll)
    ensures EnemyValid(e) ==> EnemyValid(r)
  {
    var counted := e.(rotation := e.rotation + e.rotationSpeed, stopTime := e.stopTime + 1);
    if counted.stopTime >= counted.maxStopTime then
      var m := SpeedMultiplier(d.speedRoll);
      HeadingSpeed(d.cos, d.sin, d.speedRoll);
      counted.(stopped := false, vx := d.cos * BASE_SPEED * m, vy := d.sin * BASE_SPEED * m,
               rotationSpeed := 0.0)
    else counted
  }

  /** What one tick of an enemy's own motion leaves alone: a patrol step
      changes only position and velocity (and, on a pause entry, the pause
      fields, keeping the rotation); a pause step changes only the rotation
      and the count, and on resuming the velocity, spin and paused flag. */
  lemma AdvanceKeeps(e: Enemy, nextRevealed: bool, d: EnemyDraw)
    requires ValidEnemyDraw(d)
    ensures var r := Advance(e, nextRevealed, d);
            (!e.stopped && !r.stopped ==> r == e.(x := r.x, y := r.y, vx := r.vx, vy := r.vy))
            && (!e.stopped && r.stopped ==>
                  r == e.(x := r.x, y := r.y, vx := r.vx, vy := r.vy, stopped := true,
                          rotationSpeed := r.rotationSpeed, maxStopTime := r.maxStopTime, stopTime := 0))
            && (e.stopped && r.stopped ==> r == e.(rotation := r.rotation, stopTime := r.stopTime))
            && (e.stopped && !r.stopped ==>
                  r == e.(rotation := r.rotation, stopTime := r.stopTime, stopped := false,
                          vx := r.vx, vy := r.vy, rotationSpeed := 0.0))
  {
  }

  /** Wall bounce after the step: each axis on which the enemy is outside
      [0, w] x [0, h] has its velocity component reversed; nothing else
      changes. */
  function Reflect(e: Enemy, w: real, h: real): (r: Enemy)
    ensures r.x == e.x && r.y == e.y
    ensures Abs(r.vx) == Abs(e.vx) && Abs(r.vy) == Abs(e.vy)
    ensures r.vx != e.vx ==> (e.x < 0.0 || e.x > w)
    ensures r.vy != e.vy ==> (e.y < 0.0 || e.y > h)
    ensures (e.x < 0.0 || e.x > w) && e.vx != 0.0 ==> r.vx != e.vx
    ensures (e.y < 0.0 || e.y > h) && e.vy != 0.0 ==> r.vy != e.vy
    ensures r.(vx := e.vx, vy := e.vy) == e
    ensures EnemyValid(e) ==> EnemyValid(r)
  {
    var vx := if e.x < 0.0 || e.x > w then e.vx * -1.0 else e.vx;
    var vy := if e.y < 0.0 || e.y > h then e.vy * -1.0 else e.vy;
    SignFlipSpeed(e, vx, vy);
    e.(vx := vx, vy := vy)
  }

  /** Closed rectangle [sx, sx + 120] x [sy, sy + 120] in which the spawn
      loop rejects a candidate. */
  predicate InSpawnExclusion(w: int, h: int, p: Point)
  {
    var sx, sy := StartCorner(w) as real, StartCorner(h) as real;
    sx <= p.x <= sx + SAFE_SIDE as real && sy <= p.y <= sy + SAFE_SIDE as real
  }

  /** When the start square fits the canvas, an on-canvas spawn point the
      rejection loop accepts does not sample a cell of the start square:
      enemies start on unrevealed ground. */
  lemma SpawnClearOfStartSquare(w: int, h: int, p: Point)
    requires 0 <= StartCorner(w) && StartCorner(w) + SAFE_SIDE <= w
    requires 0.0 <= p.x < w as real && 0.0 <= p.y < h as real
    requires !InSpawnExclusion(w, h, p)
    ensures 0 <= CellIndex(w, p.x, p.y) < w * h
    ensures !InStartSquare(w, h, CellIndex(w, p.x, p.y))
  {
    InsideCanvasCell(w, h, p.x, p.y);
    StartSquareCells(w, h, CellIndex(w, p.x, p.y));
  }

  /** A spawn draw as the random source produces it: candidates uniform in
      [0, w) x [0, h), the stream ending with the first accepted one. */
  predicate ValidSpawnDraw(w: int, h: int, d: SpawnDraw)
  {
    |d.candidates| > 0
    && (forall k :: 0 <= k < |d.candidates| ==>
          0.0 <= d.candidates[k].x < w as real && 0.0 <= d.candidates[k].y < h as real)
    && !InSpawnExclusion(w, h, d.candidates[|d.candidates| - 1])
    && IsRoll(d.speedRoll) && IsHeading(d.cos, d.sin)
  }

  /** The candidate the rejection loop accepts: the first one outside the
      exclusion rectangle. */
  function FirstOutside(w: int, h: int, cands: seq<Point>): (p: Point)
    requires |cands| > 0 && !InSpawnExclusion(w, h, cands[|cands| - 1])
    ensures !InSpawnExclusion(w, h, p)
    ensures exists k :: 0 <= k < |cands| && cands[k] == p
                        && forall j :: 0 <= j < k ==> InSpawnExclusion(w, h, cands[j])
  {
    if !InSpawnExclusion(w, h, cands[0]) then cands[0]
    else
      var p := FirstOutside(w, h, cands[1..]);
      var k :| 0 <= k < |cands[1..]| && cands[1..][k] == p
               && forall j :: 0 <= j < k ==> InSpawnExclusion(w, h, cands[1..][j]);
      assert cands[k + 1] == p;
      p
  }

  /** The rejection loop: draw candidates until one lies outside the
      exclusion rectangle. */
  method SampleSpawnPoint(w: int, h: int, cands: seq<Point>) returns (p: Point)
    requires |cands| > 0 && !InSpawnExclusion(w, h, cands[|cands| - 1])
    ensures p == FirstOutside(w, h, cands)
    ensures !InSpawnExclusion(w, h, p)
  {
    var k := 0;
    while InSpawnExclusion(w, h, cands[k])
      invariant 0 <= k < |cands|
      invariant FirstOutside(w, h, cands[k..]) == FirstOutside(w, h, cands)
      decreases |cands| - k
    {
      assert cands[k..][1..] == cands[k + 1..];
      k := k + 1;
    }
    p := cands[k];
  }

  /** A freshly spawned enemy at p: patrolling, no spin, zero counters,
      velocity from the draw's heading and speed roll. */
  function NewEnemy(p: Point, d: SpawnDraw): (e: Enemy)
    requires IsRoll(d.speedRoll) && IsHeading(d.cos, d.sin)
    ensures e.x == p.x && e.y == p.y
    ensures !e.stopped && e.stopTime == 0 && e.maxStopTime == 0
    ensures e.rotation == 0.0 && e.rotationSpeed == 0.0
    ensures EnemyValid(e)
  {
    var m := SpeedMultiplier(d.speedRoll);
    HeadingSpeed(d.cos, d.sin, d.speedRoll);
    Enemy(p.x, p.y, d.cos * BASE_SPEED * m, d.sin * BASE_SPEED * m, 0.0, 0.0, false, 0, 0)
  }

  /** The swarm the spawn loop builds from one spawn draw per enemy, in
      order: each enemy at its draw's first candidate outside the exclusion
      rectangle, patrolling with the draw's heading and speed. */
  function Spawned(w: int, h: int, spawn: seq<SpawnDraw>): (r: seq<Enemy>)
    requires forall i :: 0 <= i < |spawn| ==> ValidSpawnDraw(w, h, spawn[i])
    ensures |r| == |spawn|
    ensures forall i :: 0 <= i < |r| ==>
              EnemyValid(r[i]) && !r[i].stopped && r[i].stopTime == 0
              && !InSpawnExclusion(w, h, Point(r[i].x, r[i].y))
  {
    if spawn == [] then []
    else
      var last := spawn[|spawn| - 1];
      assert ValidSpawnDraw(w, h, last);
      Spawned(w, h, spawn[..|spawn| - 1]) + [NewEnemy(FirstOutside(w, h, last.candidates), last)]
  }

  /** Enemy i of the spawned swarm comes from spawn draw i alone. */
  lemma {:induction false} SpawnedAt(w: int, h: int, spawn: seq<SpawnDraw>, i: int)
    requires forall j :: 0 <= j < |spawn| ==> ValidSpawnDraw(w, h, spawn[j])
    requires 0 <= i < |spawn|
    ensures Spawned(w, h, spawn)[i] == NewEnemy(FirstOutside(w, h, spawn[i].candidates), spawn[i])
  {
    var n := |spawn| - 1;
    if i < n {
      SpawnedAt(w, h, spawn[..n], i);
    }
  }
}
