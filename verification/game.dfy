/** The game session: stage controller, player and trail, enemy swarm and
    the territory mask of the current stage, advanced one tick at a time.
    Key state, random values, the stage-advance answer and the rasterised
    trail polygon come in as parameters of the tick. */
module Play {
  import opened Mask
  import opened Enemies

  const STAGE_COUNT: int := 5
  const ENEMY_COUNT: int := 5
  const FRAMES_PER_SECOND: int := 60
  const STAGE_SECONDS: int := 20
  /** The stage timer, counted in ticks. */
  const STAGE_FRAMES: int := STAGE_SECONDS * FRAMES_PER_SECOND
  const START_LIVES: int := 3
  const PLAYER_SIZE: real := 8.0
  const PLAYER_SPEED: real := 3.0
  /** Revealed share, in percent, at which a stage is cleared. */
  const CLEAR_PERCENT: real := 50.0

  /** Velocity along one axis from the key for the positive and the
      negative direction: opposing keys cancel. */
  function KeyAxis(plus: bool, minus: bool): (v: real)
    ensures v == 0.0 || v == PLAYER_SPEED || v == -PLAYER_SPEED
    ensures v == PLAYER_SPEED <==> plus && !minus
    ensures v == -PLAYER_SPEED <==> minus && !plus
  {
    ((if plus then 1.0 else 0.0) - (if minus then 1.0 else 0.0)) * PLAYER_SPEED
  }

  /** min(hi, max(0, v)). */
  function Clamp(v: real, hi: real): (r: real)
    requires 0.0 <= hi
    ensures 0.0 <= r <= hi
    ensures 0.0 <= v <= hi ==> r == v
    ensures v < 0.0 ==> r == 0.0
    ensures hi < v ==> r == hi
  {
    var lo := if 0.0 < v then v else 0.0;
    if hi < lo then hi else lo
  }

  /** Euclidean distance between a and b is below reach (compared squared). */
  predicate Touches(a: Point, b: Point, reach: real)
  {
    (a.x - b.x) * (a.x - b.x) + (a.y - b.y) * (a.y - b.y) < reach * reach
  }

  /** Touches is the game's distance test: with d the Euclidean distance
      between a and b, it holds exactly when d is below the reach. */
  lemma TouchesIsDistance(a: Point, b: Point, reach: real, d: real)
    requires 0.0 <= reach && 0.0 <= d
    requires d * d == (a.x - b.x) * (a.x - b.x) + (a.y - b.y) * (a.y - b.y)
    ensures Touches(a, b, reach) <==> d < reach
  {
    assert reach * reach - d * d == (reach - d) * (reach + d);
    if d < reach {
      MulLt(0.0, reach - d, reach + d);
      assert 0.0 < (reach - d) * (reach + d);
      assert d * d < reach * reach;
    } else {
      MulLe(0.0, d - reach, reach + d);
      assert d * d - reach * reach == (d - reach) * (reach + d);
    }
  }

  /** An enemy at its current position reaches the player or a trail point. */
  predicate Catches(e: Enemy, player: Point, trail: seq<Point>)
  {
    Touches(player, Point(e.x, e.y), ENEMY_SIZE + PLAYER_SIZE)
    || exists k :: 0 <= k < |trail| && Touches(trail[k], Point(e.x, e.y), ENEMY_SIZE)
  }

  /** One enemy's move for the tick on a canvas of w by h pixels whose mask
      holds `cells`: a patrol step or a pause step, decided by the mask
      sample at the tentative next position, then the wall bounce. */
  function StepEnemy(cells: seq<bool>, w: int, h: int, e: Enemy, d: EnemyDraw): (r: Enemy)
    requires ValidEnemyDraw(d)
    ensures EnemyValid(e) ==> EnemyValid(r)
  {
    Reflect(Advance(e, AlphaAt(Some(cells), w, e.x + e.vx, e.y + e.vy) == 0, d), w as real, h as real)
  }

  /** Lives, loop flags and the player: the state a collision can change. */
  datatype Life = Life(lives: int, isGameOver: bool, halted: bool, awaitingRestart: bool,
                       px: real, py: real, trail: seq<Point>, inSafeZone: bool)

  /** The trail state machine at the player's current point, given whether
      the mask reads revealed there: safety follows the sample; a safe
      player has no trail; leaving safety starts a trail at the point, and
      staying out appends the point. Nothing else changes. */
  function TrailStep(s: Life, safe: bool): (r: Life)
    ensures r == s.(trail := r.trail, inSafeZone := safe)
    ensures r.trail == [] <==> safe
    ensures s.inSafeZone && !safe ==> r.trail == [Point(s.px, s.py)]
    ensures !s.inSafeZone && !safe ==> r.trail == s.trail + [Point(s.px, s.py)]
  {
    s.(inSafeZone := safe,
       trail := if safe then [] else (if s.inSafeZone then [] else s.trail) + [Point(s.px, s.py)])
  }

  /** A player step from s to r closes a trail: it returns to safety with
      three or more trail points, so the enclosed area is filled. */
  predicate Fills(s: Life, r: Life)
  {
    !s.inSafeZone && r.inSafeZone && |s.trail| >= 3
  }

  /** `after` is the mask after a player step from s to r: the rasterised
      fill merged into `before` when the step closes a trail, and `before`
      itself otherwise. */
  predicate Filled(s: Life, r: Life, before: seq<bool>, fillAlpha: seq<int>, after: seq<bool>)
  {
    if Fills(s, r) then IsMerge(before, fillAlpha, after) else after == before
  }

  /** One of the first n enemies catches the player or the trail. */
  predicate CaughtBy(es: seq<Enemy>, n: nat, player: Point, trail: seq<Point>)
    requires n <= |es|
  {
    n > 0 && (CaughtBy(es, n - 1, player, trail) || Catches(es[n - 1], player, trail))
  }

  /** CaughtBy looks only at the first n enemies. */
  lemma {:induction false} CaughtByPrefix(a: seq<Enemy>, b: seq<Enemy>, n: nat, player: Point, trail: seq<Point>)
    requires n <= |a| && n <= |b|
    requires forall j :: 0 <= j < n ==> a[j] == b[j]
    ensures CaughtBy(a, n, player, trail) == CaughtBy(b, n, player, trail)
  {
    if n > 0 {
      CaughtByPrefix(a, b, n - 1, player, trail);
    }
  }

  /** CaughtBy is the existential it stands for. */
  lemma {:induction false} CaughtByWitness(es: seq<Enemy>, n: nat, player: Point, trail: seq<Point>)
    requires n <= |es|
    ensures CaughtBy(es, n, player, trail) <==> exists j :: 0 <= j < n && Catches(es[j], player, trail)
  {
    if n > 0 {
      CaughtByWitness(es, n - 1, player, trail);
    }
  }

  /** The trail scan: is some point within reach of c? Stops at the first hit. */
  method AnyWithin(points: seq<Point>, c: Point, reach: real) returns (hit: bool)
    ensures hit <==> exists k :: 0 <= k < |points| && Touches(points[k], c, reach)
  {
    var k := 0;
    while k < |points|
      invariant 0 <= k <= |points|
      invariant forall j :: 0 <= j < k ==> !Touches(points[j], c, reach)
    {
      if Touches(points[k], c, reach) {
        return true;
      }
      k := k + 1;
    }
    return false;
  }

  predicate ValidSpawn(w: int, h: int, spawn: seq<SpawnDraw>)
  {
    |spawn| == ENEMY_COUNT && forall i :: 0 <= i < |spawn| ==> ValidSpawnDraw(w, h, spawn[i])
  }

  predicate ValidDraws(draws: seq<EnemyDraw>)
  {
    |draws| == ENEMY_COUNT && forall i :: 0 <= i < |draws| ==> ValidEnemyDraw(draws[i])
  }

  class Game {
    /** Canvas width and height in pixels; the mask has one cell per pixel. */
    const W: int
    const H: int
    /** Territory mask of the current stage, row-major, true = revealed. */
    var mask: array<bool>
    // the player
    var px: real
    var py: real
    var pvx: real
    var pvy: real
    var trail: seq<Point>
    var inSafeZone: bool
    // the enemy swarm
    var enemies: seq<Enemy>
    // the stage controller
    var lives: int
    var stageIndex: int
    var timer: int
    var timerExpired: bool
    var areaRevealed: real
    var isGameOver: bool
    /** The tick loop is stopped (its interval has been cleared). */
    var halted: bool
    /** The restart button is on offer. */
    var awaitingRestart: bool

    /** Session part of the invariant, kept across stage loads: lives never
        negative and zero exactly at game over; a stage index in range. */
    ghost predicate SessionValid()
      reads this`lives, this`isGameOver, this`stageIndex
    {
      0 < W && 0 < H
      && 0 <= lives <= START_LIVES && (lives == 0 <==> isGameOver)
      && 0 <= stageIndex < STAGE_COUNT
    }

    /** The timer lies within [0, 20 s] and is zero exactly once expired. */
    ghost predicate ClockValid()
      reads this`timer, this`timerExpired
    {
      0 <= timer <= STAGE_FRAMES && (timerExpired <==> timer == 0)
    }

    /** The player is on the canvas, with a trail that is empty exactly
        while safe. */
    ghost predicate PlayerValid()
      reads this`px, this`py, this`trail, this`inSafeZone
    {
      0.0 <= px <= W as real && 0.0 <= py <= H as real
      && (trail == [] <==> inSafeZone)
    }

    /** Five enemies, each within its speed and pause bounds. */
    ghost predicate SwarmValid()
      reads this`enemies
    {
      |enemies| == ENEMY_COUNT && forall i :: 0 <= i < |enemies| ==> EnemyValid(enemies[i])
    }

    /** One cell per pixel, and the stored percentage never above the
        mask's current one. */
    ghost predicate MaskValid()
      reads this`mask, this`areaRevealed, mask
    {
      mask.Length == W * H && 0 < mask.Length
      && 0.0 <= areaRevealed <= Percentage(CountRevealed(mask[..]), mask.Length)
    }

    ghost predicate Valid()
      reads this`lives, this`isGameOver, this`stageIndex, this`timer, this`timerExpired,
            this`px, this`py, this`trail, this`inSafeZone, this`enemies,
            this`mask, this`areaRevealed, mask
    {
      SessionValid() && ClockValid() && PlayerValid() && SwarmValid() && MaskValid()
    }

    /** The alpha byte under a point of the current mask: 0 exactly when
        the sampled cell lies inside the buffer and is revealed. */
    function RevealValue(x: real, y: real): (a: int)
      reads this`mask, mask
      ensures a == 0 || a == 255
      ensures a == 0 <==> 0 <= CellIndex(W, x, y) < mask.Length && mask[CellIndex(W, x, y)]
    {
      AlphaAt(Some(mask[..]), W, x, y)
    }

    ghost predicate PlayerAtStart()
      reads this`px, this`py, this`trail, this`inSafeZone
    {
      px == (W as real) / 2.0 && py == (H as real) / 2.0 && trail == [] && inSafeZone
    }

    /** The state right after a stage load with the given spawn draws. */
    ghost predicate StageFresh(spawn: seq<SpawnDraw>)
      reads this`mask, mask, this`px, this`py, this`trail, this`inSafeZone,
            this`timer, this`timerExpired, this`areaRevealed, this`enemies
    {
      ValidSpawn(W, H, spawn)
      && mask.Length == W * H
      && (forall k :: 0 <= k < mask.Length ==> (mask[k] <==> InStartSquare(W, H, k)))
      && PlayerAtStart()
      && timer == STAGE_FRAMES && !timerExpired && areaRevealed == 0.0
      && enemies == Spawned(W, H, spawn)
    }

    /** The script's start: initial globals, stage 0 loaded, ticking. */
    constructor (w: int, h: int, spawn: seq<SpawnDraw>)
      requires 0 < w && 0 < h && ValidSpawn(w, h, spawn)
      ensures W == w && H == h && Valid() && StageFresh(spawn)
      ensures lives == START_LIVES && stageIndex == 0 && !isGameOver
      ensures pvx == 0.0 && pvy == 0.0 && !halted && !awaitingRestart
    {
      W, H := w, h;
      isGameOver, stageIndex := false, 0;
      timerExpired, timer, lives, areaRevealed := false, STAGE_FRAMES, START_LIVES, 0.0;
      px, py, pvx, pvy := (w as real) / 2.0, (h as real) / 2.0, 0.0, 0.0;
      trail, inSafeZone := [], true;
      enemies := [];
      mask := new bool[0];
      halted, awaitingRestart := false, false;
      new;
      LoadStage(spawn);
    }

    /** A fresh all-unrevealed mask with the 120 x 120 start square
        revealed. The square is written with the game's own index
        arithmetic, so writes that fall outside the buffer are dropped and a
        column past the right edge lands in the next row. */
    method StartMask() returns (cells: array<bool>)
      requires 0 < W && 0 < H
      ensures fresh(cells) && cells.Length == W * H
      ensures forall k :: 0 <= k < cells.Length ==> (cells[k] <==> InStartSquare(W, H, k))
    {
      cells := new bool[W * H](_ => false);  // every cell unrevealed (alpha 255)
      var sx, sy := StartCorner(W), StartCorner(H);
      var y := sy;
      while y < sy + SAFE_SIDE
        invariant sy <= y <= sy + SAFE_SIDE
        invariant forall k :: 0 <= k < cells.Length ==>
                    (cells[k] <==> exists row :: sy <= row < y && RowCovers(W, k, row, SAFE_SIDE))
      {
        var x := sx;
        while x < sx + SAFE_SIDE
          invariant sx <= x <= sx + SAFE_SIDE
          invariant forall k :: 0 <= k < cells.Length ==>
                      (cells[k] <==> (exists row :: sy <= row < y && RowCovers(W, k, row, SAFE_SIDE))
                                     || RowCovers(W, k, y, x - sx))
        {
          var i := y * W + x;
          if 0 <= i < cells.Length {
            cells[i] := true;
          }
          x := x + 1;
        }
        y := y + 1;
      }
    }

    /** Stage load: the start mask, the player back at the centre with no
        trail, a full timer, no expiry, and a newly spawned swarm. */
    method LoadStage(spawn: seq<SpawnDraw>)
      requires SessionValid() && ValidSpawn(W, H, spawn)
      modifies this`mask, this`px, this`py, this`trail, this`inSafeZone, this`timer,
               this`timerExpired, this`areaRevealed, this`enemies
      ensures fresh(mask) && Valid() && StageFresh(spawn)
    {
      MulMonotone(1, H, W);
      mask := StartMask();
      ResetStageState(spawn);
    }

    /** The part of a stage load after the mask: player, clock, coverage
        and swarm. */
    method ResetStageState(spawn: seq<SpawnDraw>)
      requires ValidSpawn(W, H, spawn)
      modifies this`px, this`py, this`trail, this`inSafeZone, this`timer,
               this`timerExpired, this`areaRevealed, this`enemies
      ensures PlayerAtStart() && PlayerValid() && SwarmValid() && ClockValid()
      ensures timer == STAGE_FRAMES && !timerExpired && areaRevealed == 0.0
      ensures enemies == Spawned(W, H, spawn)
    {
      px, py := (W as real) / 2.0, (H as real) / 2.0;
      trail, inSafeZone := [], true;
      timer, timerExpired, areaRevealed := STAGE_FRAMES, false, 0.0;
      SpawnEnemies(spawn);
    }

    /** Five enemies, each at the first spawn candidate outside the start
        rectangle, patrolling with the draw's heading and speed. */
    method SpawnEnemies(spawn: seq<SpawnDraw>)
      requires ValidSpawn(W, H, spawn)
      modifies this`enemies
      ensures enemies == Spawned(W, H, spawn)
    {
      enemies := [];
      var i := 0;
      while i < ENEMY_COUNT
        invariant 0 <= i <= ENEMY_COUNT
        invariant enemies == Spawned(W, H, spawn[..i])
      {
        var p := SampleSpawnPoint(W, H, spawn[i].candidates);
        assert spawn[..i + 1][..i] == spawn[..i];
        enemies := enemies + [NewEnemy(p, spawn[i])];
        i := i + 1;
      }
      assert spawn[..ENEMY_COUNT] == spawn;
    }

    /** Counting loop over the mask: the revealed share in percent. */
    method RevealedPercentage() returns (p: real)
      requires 0 < mask.Length
      ensures p == Percentage(CountRevealed(mask[..]), mask.Length)
    {
      var count := 0;
      var i := 0;
      while i < mask.Length
        invariant 0 <= i <= mask.Length
        invariant count == CountRevealed(mask[..i])
      {
        assert mask[..i + 1][..i] == mask[..i];
        if mask[i] {
          count := count + 1;
        }
        i := i + 1;
      }
      assert mask[..mask.Length] == mask[..];
      p := (count as real) / (mask.Length as real) * 100.0;
    }

    /** Merge of the rasterised trail polygon into the mask. A trail of
        fewer than three points fills nothing. */
    method FillTrailArea(fillAlpha: seq<int>)
      requires |fillAlpha| == mask.Length
      modifies mask
      ensures |trail| < 3 ==> mask[..] == old(mask[..])
      ensures |trail| >= 3 ==> IsMerge(old(mask[..]), fillAlpha, mask[..])
    {
      if |trail| < 3 {
        return;
      }
      var i := 0;
      while i < mask.Length
        invariant 0 <= i <= mask.Length
        invariant forall k :: 0 <= k < i ==>
                    mask[k] == (old(mask[k]) || fillAlpha[k] > FILL_ALPHA_THRESHOLD)
        invariant forall k :: i <= k < mask.Length ==> mask[k] == old(mask[k])
      {
        if fillAlpha[i] > FILL_ALPHA_THRESHOLD {
          mask[i] := true;
        }
        i := i + 1;
      }
    }

    /** Timer countdown by one tick; expiry is sticky. */
    method UpdateTimer()
      requires ClockValid()
      modifies this`timer, this`timerExpired
      ensures ClockValid()
      ensures old(timerExpired) ==> timerExpired && timer == 0
      ensures !old(timerExpired) ==> timer == old(timer) - 1 && (timerExpired <==> timer == 0)
    {
      if !timerExpired {
        timer := timer - 1;
        if timer <= 0 {
          timer := 0;
          timerExpired := true;
        }
      }
    }

    /** Player motion: velocity from the keys, then the clamped move. */
    method MovePlayer(right: bool, left: bool, down: bool, up: bool)
      requires PlayerValid()
      modifies this`px, this`py, this`pvx, this`pvy
      ensures PlayerValid()
      ensures pvx == KeyAxis(right, left) && pvy == KeyAxis(down, up)
      ensures px == Clamp(old(px) + pvx, W as real) && py == Clamp(old(py) + pvy, H as real)
      ensures LifeNow() == Moved(old(LifeNow()), right, left, down, up)
    {
      pvx := KeyAxis(right, left);
      pvy := KeyAxis(down, up);
      px := Clamp(px + pvx, W as real);
      py := Clamp(py + pvy, H as real);
    }

    /** The trail state machine after the move: the mask sample under the
        player decides safety; returning to safety fills the trail and clears
        it, leaving safety starts a fresh trail at the current point, and
        staying out appends the current point. */
    method UpdateTrail(fillAlpha: seq<int>)
      requires PlayerValid() && MaskValid() && |fillAlpha| == mask.Length
      modifies this`trail, this`inSafeZone, mask
      ensures PlayerValid() && MaskValid()
      ensures LifeNow() == TrailStep(old(LifeNow()), AlphaAt(Some(old(mask[..])), W, px, py) == 0)
      ensures Filled(old(LifeNow()), LifeNow(), old(mask[..]), fillAlpha, mask[..])
      ensures forall k :: 0 <= k < mask.Length && old(mask[k]) ==> mask[k]
      ensures CountRevealed(old(mask[..])) <= CountRevealed(mask[..])
    {
      var inRevealed := RevealValue(px, py);
      if inRevealed == 0 {
        if !inSafeZone {
          ghost var before := mask[..];
          FillTrailArea(fillAlpha);
          if |trail| >= 3 {
            MergeOnlyReveals(before, fillAlpha, mask[..]);
            PercentageMonotone(CountRevealed(before), CountRevealed(mask[..]), mask.Length);
          }
          trail := [];
        }
        inSafeZone := true;
      } else {
        if inSafeZone {
          trail := [];
        }
        inSafeZone := false;
        trail := trail + [Point(px, py)];
      }
    }

    /** Life loss: one life fewer, floored at 0 where the game is over and
        ticking stops; the player goes back to the centre, safe, trail-less. */
    method LoseLife()
      requires SessionValid()
      modifies this`lives, this`isGameOver, this`halted, this`awaitingRestart,
               this`px, this`py, this`trail, this`inSafeZone
      ensures SessionValid() && PlayerValid() && PlayerAtStart()
      ensures LifeNow() == AfterLoss(old(LifeNow()))
    {
      lives := lives - 1;
      if lives <= 0 {
        lives := 0;
        isGameOver := true;
        halted := true;
        awaitingRestart := true;
      }
      px := (W as real) / 2.0;
      py := (H as real) / 2.0;
      trail := [];
      inSafeZone := true;
    }

    /** The lives, loop flags and player part of the state. */
    function LifeNow(): Life
      reads this`lives, this`isGameOver, this`halted, this`awaitingRestart,
            this`px, this`py, this`trail, this`inSafeZone
    {
      Life(lives, isGameOver, halted, awaitingRestart, px, py, trail, inSafeZone)
    }

    /** That part of the state after one lost life: one life fewer, down to
        zero; at zero the game is over, ticking stops and the restart button
        shows; the player is back at the centre, safe, with no trail. */
    function AfterLoss(s: Life): (r: Life)
      ensures r.lives == if s.lives <= 1 then 0 else s.lives - 1
      ensures s.lives <= 1 ==> r.isGameOver && r.halted && r.awaitingRestart
      ensures s.lives > 1 ==> r.isGameOver == s.isGameOver && r.halted == s.halted
                              && r.awaitingRestart == s.awaitingRestart
      ensures r.px == (W as real) / 2.0 && r.py == (H as real) / 2.0
      ensures r.trail == [] && r.inSafeZone
    {
      var over := s.lives <= 1;
      Life(if over then 0 else s.lives - 1, over || s.isGameOver, over || s.halted,
           over || s.awaitingRestart, (W as real) / 2.0, (H as real) / 2.0, [], true)
    }

    /** The player part of the state after the key velocity and the clamped
        move, before the trail step. */
    ghost function Moved(s: Life, right: bool, left: bool, down: bool, up: bool): Life
      requires 0 <= W && 0 <= H
    {
      s.(px := Clamp(s.px + KeyAxis(right, left), W as real),
         py := Clamp(s.py + KeyAxis(down, up), H as real))
    }

    /** The player part of the state after the tick's move and trail step:
        the key velocity and the clamped move, then the trail state machine
        with safety read from `cells` (the mask before any fill) under the
        new point. Lives and loop flags are untouched. */
    ghost function Walk(s: Life, right: bool, left: bool, down: bool, up: bool,
                        cells: seq<bool>): (r: Life)
      requires 0 <= W && 0 <= H
      ensures 0.0 <= r.px <= W as real && 0.0 <= r.py <= H as real
      ensures r.inSafeZone <==> AlphaAt(Some(cells), W, r.px, r.py) == 0
      ensures r.trail == [] <==> r.inSafeZone
      ensures r.lives == s.lives && r.isGameOver == s.isGameOver
              && r.halted == s.halted && r.awaitingRestart == s.awaitingRestart
    {
      var m := Moved(s, right, left, down, up);
      TrailStep(m, AlphaAt(Some(cells), W, m.px, m.py) == 0)
    }

    /** Lives, flags and player after the enemy loop, for the player state m
        it started from and the moved swarm: one life is lost exactly when m
        is out of safety and some enemy catches the player or the trail. */
    function Caught(m: Life, swarm: seq<Enemy>): (r: Life)
      requires ENEMY_COUNT <= |swarm|
      ensures var caught := !m.inSafeZone && CaughtBy(swarm, ENEMY_COUNT, Point(m.px, m.py), m.trail);
              (!caught ==> r == m)
              && (0 <= m.lives ==> m.lives - 1 <= r.lives <= m.lives)
              && (r.lives < m.lives <==> caught && 0 < m.lives)
              && (r.isGameOver <==> m.isGameOver || (caught && m.lives <= 1))
              && (r.halted <==> m.halted || (caught && m.lives <= 1))
              && (caught ==> r.px == (W as real) / 2.0 && r.py == (H as real) / 2.0
                             && r.trail == [] && r.inSafeZone)
    {
      if !m.inSafeZone && CaughtBy(swarm, ENEMY_COUNT, Point(m.px, m.py), m.trail)
      then AfterLoss(m) else m
    }

    /** Collision test of one moved enemy against the player, then against
        the trail; each hit costs a life, and a hit on the player makes the
        player safe so that the trail check is skipped. */
    method Collide(e: Enemy)
      requires SessionValid() && PlayerValid()
      modifies this`lives, this`isGameOver, this`halted, this`awaitingRestart,
               this`px, this`py, this`trail, this`inSafeZone
      ensures SessionValid() && PlayerValid()
      ensures LifeNow() == if !old(inSafeZone) && Catches(e, Point(old(px), old(py)), old(trail))
                           then AfterLoss(old(LifeNow())) else old(LifeNow())
    {
      if Touches(Point(px, py), Point(e.x, e.y), ENEMY_SIZE + PLAYER_SIZE) && !inSafeZone {
        LoseLife();
      }
      if !inSafeZone && |trail| > 0 {
        var hit := AnyWithin(trail, Point(e.x, e.y), ENEMY_SIZE);
        if hit {
          LoseLife();
        }
      }
    }

    /** Moves enemy i for the tick, against the current mask. */
    method MoveEnemy(i: int, d: EnemyDraw) returns (e: Enemy)
      requires SwarmValid() && 0 <= i < ENEMY_COUNT && ValidEnemyDraw(d)
      modifies this`enemies
      ensures SwarmValid()
      ensures e == StepEnemy(mask[..], W, H, old(enemies)[i], d) && enemies == old(enemies)[i := e]
    {
      e := StepEnemy(mask[..], W, H, enemies[i], d);
      enemies := enemies[i := e];
    }

    /** One pass of the enemy loop: move enemy i, then test it against the
        player and the trail. */
    method EnemyTurn(i: int, d: EnemyDraw)
      requires SessionValid() && PlayerValid() && SwarmValid()
      requires 0 <= i < ENEMY_COUNT && ValidEnemyDraw(d)
      modifies this`enemies, this`lives, this`isGameOver, this`halted, this`awaitingRestart,
               this`px, this`py, this`trail, this`inSafeZone
      ensures SessionValid() && PlayerValid() && SwarmValid()
      ensures enemies == old(enemies)[i := StepEnemy(mask[..], W, H, old(enemies)[i], d)]
      ensures LifeNow() == if !old(inSafeZone) && Catches(enemies[i], Point(old(px), old(py)), old(trail))
                           then AfterLoss(old(LifeNow())) else old(LifeNow())
    {
      var e := MoveEnemy(i, d);
      Collide(e);
    }

    /** The enemy loop over the whole swarm. A life is lost exactly when the
        player was out of safety and some moved enemy reaches the player or
        the trail; after the loss the player is safe, so the tick costs at
        most one life. */
    method StepEnemies(draws: seq<EnemyDraw>)
      requires SessionValid() && PlayerValid() && SwarmValid() && ValidDraws(draws)
      modifies this`enemies, this`lives, this`isGameOver, this`halted, this`awaitingRestart,
               this`px, this`py, this`trail, this`inSafeZone
      ensures SessionValid() && PlayerValid() && SwarmValid()
      ensures forall i :: 0 <= i < ENEMY_COUNT ==>
                enemies[i] == StepEnemy(mask[..], W, H, old(enemies)[i], draws[i])
      ensures LifeNow() == Caught(old(LifeNow()), enemies)
    {
      ghost var s0, cells, swarm := LifeNow(), mask[..], enemies;
      var i := 0;
      while i < ENEMY_COUNT
        invariant 0 <= i <= ENEMY_COUNT && SessionValid() && PlayerValid() && SwarmValid()
        invariant forall j :: 0 <= j < i ==> enemies[j] == StepEnemy(cells, W, H, swarm[j], draws[j])
        invariant forall j :: i <= j < ENEMY_COUNT ==> enemies[j] == swarm[j]
        invariant LifeNow() == if !s0.inSafeZone && CaughtBy(enemies, i, Point(s0.px, s0.py), s0.trail)
                               then AfterLoss(s0) else s0
      {
        ghost var before := enemies;
        EnemyTurn(i, draws[i]);
        CaughtByPrefix(before, enemies, i, Point(s0.px, s0.py), s0.trail);
        i := i + 1;
      }
      assert mask[..] == cells;
    }

    /** The 50% check: if the timer has not expired and at least half the
        canvas is revealed, ticking stops; with a next stage and a yes the
        next stage is loaded and ticking resumes, otherwise the restart
        button is offered. */
    method CheckStageClear(advance: bool, spawn: seq<SpawnDraw>)
      requires Valid() && ValidSpawn(W, H, spawn)
      modifies this`halted, this`awaitingRestart, this`stageIndex, this`mask, this`px, this`py,
               this`trail, this`inSafeZone, this`timer, this`timerExpired, this`areaRevealed,
               this`enemies
      ensures Valid()
      ensures lives == old(lives) && isGameOver == old(isGameOver)
      ensures !halted ==> !old(halted) || stageIndex == old(stageIndex) + 1
      ensures old(timerExpired) || old(areaRevealed) < CLEAR_PERCENT ==> unchanged(this)
      ensures !old(timerExpired) && old(areaRevealed) >= CLEAR_PERCENT ==>
                if old(stageIndex) + 1 < STAGE_COUNT && advance then
                  stageIndex == old(stageIndex) + 1 && fresh(mask) && StageFresh(spawn)
                  && !halted && awaitingRestart == old(awaitingRestart)
                else
                  stageIndex == old(stageIndex) && halted && awaitingRestart
                  && mask == old(mask) && timer == old(timer) && timerExpired == old(timerExpired)
                  && areaRevealed == old(areaRevealed) && px == old(px) && py == old(py)
                  && trail == old(trail) && inSafeZone == old(inSafeZone) && enemies == old(enemies)
    {
      if !timerExpired && areaRevealed >= CLEAR_PERCENT {
        halted := true;
        var nextAvailable := stageIndex + 1 < STAGE_COUNT;
        if nextAvailable {
          if advance {
            stageIndex := stageIndex + 1;
            LoadStage(spawn);
            halted := false;
          } else {
            awaitingRestart := true;
          }
        } else {
          awaitingRestart := true;
        }
      }
    }

    /** The player half of the tick: move, then the trail state machine. */
    method PlayerStep(right: bool, left: bool, down: bool, up: bool, fillAlpha: seq<int>)
      requires 0 < W && 0 < H && PlayerValid() && MaskValid() && |fillAlpha| == mask.Length
      modifies this`px, this`py, this`pvx, this`pvy, this`trail, this`inSafeZone, mask
      ensures PlayerValid() && MaskValid()
      ensures pvx == KeyAxis(right, left) && pvy == KeyAxis(down, up)
      ensures LifeNow() == Walk(old(LifeNow()), right, left, down, up, old(mask[..]))
      ensures Filled(old(LifeNow()), LifeNow(), old(mask[..]), fillAlpha, mask[..])
      ensures forall k :: 0 <= k < mask.Length && old(mask[k]) ==> mask[k]
      ensures CountRevealed(old(mask[..])) <= CountRevealed(mask[..])
    {
      MovePlayer(right, left, down, up);
      UpdateTrail(fillAlpha);
    }

    /** Player and enemies for the tick: at most one life lost, game over
        exactly at zero lives, and the mask only gains cells. */
    method MoveActors(right: bool, left: bool, down: bool, up: bool, fillAlpha: seq<int>,
                      draws: seq<EnemyDraw>)
      requires SessionValid() && PlayerValid() && SwarmValid() && MaskValid()
      requires |fillAlpha| == mask.Length && ValidDraws(draws)
      modifies this`px, this`py, this`pvx, this`pvy, this`trail, this`inSafeZone, this`enemies,
               this`lives, this`isGameOver, this`halted, this`awaitingRestart, mask
      ensures SessionValid() && PlayerValid() && SwarmValid() && MaskValid()
      ensures pvx == KeyAxis(right, left) && pvy == KeyAxis(down, up)
      ensures Filled(old(LifeNow()), Walk(old(LifeNow()), right, left, down, up, old(mask[..])),
                     old(mask[..]), fillAlpha, mask[..])
      ensures forall i :: 0 <= i < ENEMY_COUNT ==>
                enemies[i] == StepEnemy(mask[..], W, H, old(enemies)[i], draws[i])
      ensures LifeNow() == Caught(Walk(old(LifeNow()), right, left, down, up, old(mask[..])), enemies)
      ensures old(lives) - 1 <= lives <= old(lives)
      ensures isGameOver == (old(isGameOver) || lives == 0)
      ensures halted == old(halted) || isGameOver
      ensures isGameOver && !old(isGameOver) ==> halted && awaitingRestart
      ensures forall k :: 0 <= k < mask.Length && old(mask[k]) ==> mask[k]
      ensures CountRevealed(old(mask[..])) <= CountRevealed(mask[..])
    {
      PlayerStep(right, left, down, up, fillAlpha);
      StepEnemies(draws);
    }

    /** The recount at the end of the tick: the stored percentage becomes
        the mask's own, which is never below the stored one. */
    method Recount()
      requires MaskValid()
      modifies this`areaRevealed
      ensures MaskValid()
      ensures areaRevealed == Percentage(CountRevealed(mask[..]), mask.Length)
      ensures old(areaRevealed) <= areaRevealed
    {
      areaRevealed := RevealedPercentage();
    }

    /** The tick up to the stage-clear check: timer, player, trail and
        fill, enemies and collisions, then the recount. The stage and the
        mask array stay; the mask only gains cells. */
    method PlayTick(right: bool, left: bool, down: bool, up: bool, fillAlpha: seq<int>,
                    draws: seq<EnemyDraw>)
      requires Valid() && |fillAlpha| == mask.Length && ValidDraws(draws)
      modifies this`timer, this`timerExpired, this`px, this`py, this`pvx, this`pvy,
               this`trail, this`inSafeZone, this`enemies, this`lives, this`isGameOver,
               this`halted, this`awaitingRestart, this`areaRevealed, mask
      ensures Valid()
      // the timer counts down one tick until it expires, and expiry is sticky
      ensures !old(timerExpired) ==> timer == old(timer) - 1 && (timerExpired <==> timer == 0)
      ensures old(timerExpired) ==> timerExpired && timer == 0
      // the player walks, the trail may fill, every enemy steps, and a catch
      // costs one life
      ensures pvx == KeyAxis(right, left) && pvy == KeyAxis(down, up)
      ensures Filled(old(LifeNow()), Walk(old(LifeNow()), right, left, down, up, old(mask[..])),
                     old(mask[..]), fillAlpha, mask[..])
      ensures forall i :: 0 <= i < ENEMY_COUNT ==>
                enemies[i] == StepEnemy(mask[..], W, H, old(enemies)[i], draws[i])
      ensures LifeNow() == Caught(Walk(old(LifeNow()), right, left, down, up, old(mask[..])), enemies)
      ensures old(lives) - 1 <= lives <= old(lives)
      ensures isGameOver == (old(isGameOver) || lives == 0)
      ensures halted == old(halted) || isGameOver
      ensures isGameOver && !old(isGameOver) ==> halted && awaitingRestart
      // the mask only gains cells, and the recount never drops
      ensures forall k :: 0 <= k < mask.Length && old(mask[k]) ==> mask[k]
      ensures CountRevealed(old(mask[..])) <= CountRevealed(mask[..])
      ensures old(areaRevealed) <= areaRevealed
      ensures areaRevealed == Percentage(CountRevealed(mask[..]), mask.Length)
    {
      ghost var s0, swarm := LifeNow(), enemies;
      UpdateTimer();
      assert LifeNow() == s0 && enemies == swarm;
      MoveActors(right, left, down, up, fillAlpha, draws);
      Recount();
    }

    /** One tick of the running game. */
    method Tick(right: bool, left: bool, down: bool, up: bool, fillAlpha: seq<int>,
                draws: seq<EnemyDraw>, advance: bool, spawn: seq<SpawnDraw>)
      requires Valid() && !halted
      requires |fillAlpha| == mask.Length && ValidDraws(draws) && ValidSpawn(W, H, spawn)
      modifies this, mask
      ensures Valid()
      // at most one life per tick, lives never go negative, and the game is
      // over exactly at zero lives
      ensures old(lives) - 1 <= lives <= old(lives) && 0 <= lives
      ensures isGameOver == (old(isGameOver) || lives == 0)
      ensures pvx == KeyAxis(right, left) && pvy == KeyAxis(down, up)
      // expiry is sticky, and a tick that ends expired never cleared the stage
      ensures old(timerExpired) ==> timerExpired
      ensures timerExpired ==> stageIndex == old(stageIndex)
      // the only stage change is an accepted advance to an existing next stage
      ensures stageIndex == old(stageIndex)
              || (stageIndex == old(stageIndex) + 1 && stageIndex < STAGE_COUNT && advance
                  && !old(timerExpired) && fresh(mask) && StageFresh(spawn))
      // within a stage the timer counts one tick, the player walks and the
      // trail may fill, every enemy steps, a catch costs one life, and a clear
      // stops ticking and offers the restart
      ensures stageIndex == old(stageIndex) ==>
                mask == old(mask)
                && (if old(timerExpired) then timer == 0 else timer == old(timer) - 1)
                && Filled(old(LifeNow()), Walk(old(LifeNow()), right, left, down, up, old(mask[..])),
                          old(mask[..]), fillAlpha, mask[..])
                && (forall i :: 0 <= i < ENEMY_COUNT ==>
                      enemies[i] == StepEnemy(mask[..], W, H, old(enemies)[i], draws[i]))
                && var r := Caught(Walk(old(LifeNow()), right, left, down, up, old(mask[..])), enemies);
                   var stop := !timerExpired && areaRevealed >= CLEAR_PERCENT;
                   LifeNow() == r.(halted := r.halted || stop, awaitingRestart := r.awaitingRestart || stop)
      ensures stageIndex == old(stageIndex) && !timerExpired && areaRevealed >= CLEAR_PERCENT ==>
                halted && awaitingRestart
      // within a stage the mask only gains revealed cells and coverage never drops
      ensures stageIndex == old(stageIndex) ==>
                (forall k :: 0 <= k < mask.Length && old(mask[k]) ==> mask[k])
                && CountRevealed(old(mask[..])) <= CountRevealed(mask[..])
                && old(areaRevealed) <= areaRevealed
                && areaRevealed == Percentage(CountRevealed(mask[..]), mask.Length)
      // ticking stops only on game over or on a stage clear
      ensures halted ==> isGameOver || (!timerExpired && areaRevealed >= CLEAR_PERCENT)
      // a game over reached in this tick keeps ticking only when the same tick
      // also clears the stage and advances
      ensures isGameOver && !old(isGameOver) && !halted ==> stageIndex == old(stageIndex) + 1
      // a stage advances only on a clear: the timer did not run out in this
      // tick and the old stage's mask, after this tick's fill, is at least
      // half revealed; a clear with a next stage and a yes always advances
      ensures stageIndex == old(stageIndex) + 1 ==>
                old(timer) > 1
                && Percentage(CountRevealed(old(mask)[..]), old(mask).Length) >= CLEAR_PERCENT
      ensures stageIndex == old(stageIndex) && !timerExpired && areaRevealed >= CLEAR_PERCENT ==>
                !(advance && old(stageIndex) + 1 < STAGE_COUNT)
    {
      PlayTick(right, left, down, up, fillAlpha, draws);
      CheckStageClear(advance, spawn);
    }

    /** Restart: three lives, stage 0, no expiry, a fresh stage 0, ticking. */
    method RestartGame(spawn: seq<SpawnDraw>)
      requires 0 < W && 0 < H && ValidSpawn(W, H, spawn)
      modifies this`lives, this`stageIndex, this`isGameOver, this`timerExpired, this`timer,
               this`mask, this`px, this`py, this`trail, this`inSafeZone, this`areaRevealed,
               this`enemies, this`halted, this`awaitingRestart
      ensures fresh(mask) && Valid() && StageFresh(spawn)
      ensures lives == START_LIVES && stageIndex == 0 && !isGameOver && !timerExpired
      ensures !halted && !awaitingRestart
    {
      lives := START_LIVES;
      stageIndex := 0;
      isGameOver := false;
      timerExpired := false;
      timer := STAGE_FRAMES;
      LoadStage(spawn);
      halted := false;
      awaitingRestart := false;
    }
  }
}
