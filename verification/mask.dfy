/** The territory mask: which pixels of the canvas are revealed.
    The game keeps this field in the alpha byte of an RGBA image buffer
    (alpha 0 = revealed, alpha 255 = unrevealed). Here one cell is one
    boolean, `true` meaning revealed; the cell of a point is found with the
    same unchecked row-major arithmetic the game uses. */
module Mask {

  datatype Option<T> = None | Some(value: T)

  /** A point on the canvas (player position, trail vertex, spawn candidate). */
  datatype Point = Point(x: real, y: real)

  /** Side, in pixels, of the square revealed when a stage loads. */
  const SAFE_SIDE: int := 120
  /** The square's corner lies this many pixels left of and above the centre. */
  const SAFE_OFFSET: int := 15
  /** A cell of the rasterised fill counts as covered above this alpha. */
  const FILL_ALPHA_THRESHOLD: int := 128

  /** Corner coordinate floor(c / 2 - 15) of the start square along a canvas
      dimension of c pixels. */
  function StartCorner(c: int): (r: int)
    ensures (r as real) <= (c as real) / 2.0 - (SAFE_OFFSET as real) < (r as real) + 1.0
  {
    (c - 2 * SAFE_OFFSET) / 2
  }

  /** Cell sampled for a point: floor(y) * w + floor(x), no bounds check.
      A point whose column lies in [0, w) lands in the block of row
      floor(y); a column of w or more runs into the next row's block. */
  function CellIndex(w: int, x: real, y: real): (i: int)
    ensures 0 <= x.Floor < w ==> y.Floor * w <= i < y.Floor * w + w
    ensures w <= x.Floor ==> y.Floor * w + w <= i
  {
    y.Floor * w + x.Floor
  }

  /** Alpha byte read for a point: 0 when the sampled cell exists and is
      revealed; 255 when it is unrevealed, when the index falls outside the
      buffer, or when no buffer exists yet. */
  function AlphaAt(cells: Option<seq<bool>>, w: int, x: real, y: real): (a: int)
    ensures a == 0 || a == 255
    ensures a == 0 <==> cells.Some? && 0 <= CellIndex(w, x, y) < |cells.value|
                        && cells.value[CellIndex(w, x, y)]
  {
    match cells
    case None => 255
    case Some(c) =>
      var i := CellIndex(w, x, y);
      if 0 <= i < |c| && c[i] then 0 else 255
  }

  lemma MulMonotone(a: int, b: int, w: int)
    requires a <= b && 0 <= w
    ensures a * w <= b * w
  {
    assert b * w - a * w == (b - a) * w;
  }

  /** Quotient and remainder of k by w are determined by any row r whose
      row-start r * w is at most k and within one row of it. */
  lemma DivUnique(k: int, w: int, r: int)
    requires 0 < w && 0 <= k - r * w < w
    ensures k / w == r && k % w == k - r * w
  {
    var q := k / w;
    assert k == q * w + k % w;
    if q > r {
      MulMonotone(r + 1, q, w);
    } else if q < r {
      MulMonotone(q + 1, r, w);
    }
  }

  /** A point inside the canvas samples its own pixel: row floor(y), column
      floor(x), and an index inside the w * h buffer. */
  lemma {:induction false} InsideCanvasCell(w: int, h: int, x: real, y: real)
    requires 0 < w && 0 < h
    requires 0.0 <= x < w as real && 0.0 <= y < h as real
    ensures 0 <= CellIndex(w, x, y) < w * h
    ensures CellIndex(w, x, y) / w == y.Floor && CellIndex(w, x, y) % w == x.Floor
  {
    assert 0 <= x.Floor < w;
    assert 0 <= y.Floor < h;
    MulMonotone(0, y.Floor, w);
    MulMonotone(y.Floor, h - 1, w);
    assert (h - 1) * w + w == w * h;
    DivUnique(CellIndex(w, x, y), w, y.Floor);
  }

  /** The player may stand exactly on the right edge x == w: the sample is
      then the first cell of the next row, not a cell of its own row. */
  lemma RightEdgeSamplesNextRow(w: int, y: real)
    requires 0 < w && 0.0 <= y
    ensures CellIndex(w, w as real, y) == (y.Floor + 1) * w
    ensures CellIndex(w, w as real, y) % w == 0
  {
    assert (y.Floor + 1) * w == y.Floor * w + w;
    DivUnique(CellIndex(w, w as real, y), w, y.Floor + 1);
  }

  /** On the bottom edge y == h the sample lies past the buffer, so it reads
      as unrevealed whatever the mask holds. */
  lemma {:induction false} BottomEdgeUnrevealed(w: int, h: int, cells: seq<bool>, x: real)
    requires 0 < w && 0 < h && |cells| == w * h
    requires 0.0 <= x <= w as real
    ensures AlphaAt(Some(cells), w, x, h as real) == 255
  {
    assert (h as real).Floor == h;
    assert 0 <= x.Floor;
    assert CellIndex(w, x, h as real) >= h * w;
  }

  /** Number of revealed cells. */
  function CountRevealed(s: seq<bool>): (n: nat)
    ensures n <= |s|
  {
    if s == [] then 0
    else CountRevealed(s[..|s| - 1]) + (if s[|s| - 1] then 1 else 0)
  }

  /** The count is zero exactly when no cell is revealed, and full exactly
      when every cell is. */
  lemma {:induction false} CountExtremes(s: seq<bool>)
    ensures CountRevealed(s) == 0 <==> forall k :: 0 <= k < |s| ==> !s[k]
    ensures CountRevealed(s) == |s| <==> forall k :: 0 <= k < |s| ==> s[k]
  {
    if s != [] {
      var n := |s| - 1;
      CountExtremes(s[..n]);
      assert forall k :: 0 <= k < n ==> s[..n][k] == s[k];
    }
  }

  /** A mask that reveals every cell another reveals has at least as many
      revealed cells. */
  lemma {:induction false} CountMonotone(a: seq<bool>, b: seq<bool>)
    requires |a| == |b|
    requires forall k :: 0 <= k < |a| && a[k] ==> b[k]
    ensures CountRevealed(a) <= CountRevealed(b)
  {
    if a != [] {
      var n := |a| - 1;
      assert forall k :: 0 <= k < n && a[..n][k] ==> b[..n][k];
      CountMonotone(a[..n], b[..n]);
    }
  }

  /** If in addition one cell is revealed only in the second mask, the count
      strictly grows. */
  lemma {:induction false} CountStrictlyMonotone(a: seq<bool>, b: seq<bool>, j: int)
    requires |a| == |b|
    requires forall k :: 0 <= k < |a| && a[k] ==> b[k]
    requires 0 <= j < |a| && !a[j] && b[j]
    ensures CountRevealed(a) < CountRevealed(b)
  {
    var n := |a| - 1;
    assert forall k :: 0 <= k < n && a[..n][k] ==> b[..n][k];
    if j == n {
      CountMonotone(a[..n], b[..n]);
    } else {
      CountStrictlyMonotone(a[..n], b[..n], j);
    }
  }

  /** `after` is `before` with a rasterised fill merged in: a cell whose
      fill alpha is above the threshold becomes revealed, every other cell
      keeps its state. */
  predicate IsMerge(before: seq<bool>, fillAlpha: seq<int>, after: seq<bool>)
  {
    |after| == |before| == |fillAlpha|
    && forall k :: 0 <= k < |before| ==>
         (after[k] <==> before[k] || fillAlpha[k] > FILL_ALPHA_THRESHOLD)
  }

  /** Merging only ever reveals: no revealed cell is lost, so the count never
      drops, and it rises when the fill covers an unrevealed cell. */
  lemma MergeOnlyReveals(before: seq<bool>, fillAlpha: seq<int>, after: seq<bool>)
    requires IsMerge(before, fillAlpha, after)
    ensures forall k :: 0 <= k < |before| && before[k] ==> after[k]
    ensures CountRevealed(before) <= CountRevealed(after)
    ensures (exists k :: 0 <= k < |before| && !before[k] && fillAlpha[k] > FILL_ALPHA_THRESHOLD)
              ==> CountRevealed(before) < CountRevealed(after)
  {
    CountMonotone(before, after);
    if j :| 0 <= j < |before| && !before[j] && fillAlpha[j] > FILL_ALPHA_THRESHOLD {
      CountStrictlyMonotone(before, after, j);
    }
  }

  /** Share of revealed cells, in percent, as the game computes it. */
  function Percentage(count: int, cells: int): (p: real)
    requires 0 <= count <= cells && 0 < cells
    ensures 0.0 <= p <= 100.0
    ensures p >= 50.0 <==> 2 * count >= cells
    ensures p == 100.0 <==> count == cells
  {
    var p := (count as real) / (cells as real) * 100.0;
    ShareScales(count as real, cells as real);
    ShareBounds(count as real, cells as real, p);
    p
  }

  lemma MulLe(a: real, b: real, c: real)
    requires a <= b && 0.0 <= c
    ensures a * c <= b * c
  {
    assert b * c - a * c == (b - a) * c;
  }

  lemma MulLt(a: real, b: real, c: real)
    requires a < b && 0.0 < c
    ensures a * c < b * c
  {
    assert b * c - a * c == (b - a) * c;
  }

  /** A positive factor can be divided out of an inequality. */
  lemma DivideOut(a: real, b: real, n: real)
    requires 0.0 < n && a * n <= b * n
    ensures a <= b
  {
    if b < a {
      MulLt(b, a, n);
    }
  }

  lemma DivideOutStrict(a: real, b: real, n: real)
    requires 0.0 < n && a * n < b * n
    ensures a < b
  {
    if b <= a {
      MulLe(b, a, n);
    }
  }

  /** Multiplying a percentage share back by the total gives 100 times the
      part. */
  lemma ShareScales(c: real, n: real)
    requires 0.0 < n
    ensures c / n * 100.0 * n == 100.0 * c
  {
    var q := c / n;
    assert q * n == c;
    assert q * 100.0 * n == 100.0 * (q * n);
  }

  /** A share p with p * n = 100 * c compares with a threshold t as
      100 * c compares with t * n. */
  lemma ShareCompare(c: real, n: real, p: real, t: real)
    requires 0.0 < n && p * n == 100.0 * c
    ensures p >= t <==> 100.0 * c >= t * n
    ensures p <= t <==> 100.0 * c <= t * n
  {
    if 100.0 * c >= t * n {
      DivideOut(t, p, n);
    } else {
      DivideOutStrict(p, t, n);
    }
    if 100.0 * c <= t * n {
      DivideOut(p, t, n);
    } else {
      DivideOutStrict(t, p, n);
    }
  }

  /** The facts behind Percentage, for any share p with p * n = 100 * c. */
  lemma ShareBounds(c: real, n: real, p: real)
    requires 0.0 <= c <= n && 0.0 < n && p * n == 100.0 * c
    ensures 0.0 <= p <= 100.0
    ensures p >= 50.0 <==> 2.0 * c >= n
    ensures p == 100.0 <==> c == n
  {
    ShareCompare(c, n, p, 0.0);
    ShareCompare(c, n, p, 50.0);
    ShareCompare(c, n, p, 100.0);
  }

  /** The percentage is 100 * count / cells: scaled back by the number of
      cells it gives 100 times the count. */
  lemma PercentageOfCells(count: int, cells: int)
    requires 0 <= count <= cells && 0 < cells
    ensures Percentage(count, cells) * (cells as real) == 100.0 * (count as real)
  {
  }

  /** More revealed cells never give a smaller percentage. */
  lemma PercentageMonotone(c1: int, c2: int, cells: int)
    requires 0 <= c1 <= c2 <= cells && 0 < cells
    ensures Percentage(c1, cells) <= Percentage(c2, cells)
  {
    var p1, p2 := Percentage(c1, cells), Percentage(c2, cells);
    ShareScales(c1 as real, cells as real);
    ShareScales(c2 as real, cells as real);
    ShareCompare(c1 as real, cells as real, p1, p2);
  }

  /** Row `row` of the start square's writes covers cell k within its first
      `cols` columns. */
  predicate RowCovers(w: int, k: int, row: int, cols: int)
  {
    StartCorner(w) <= k - row * w < StartCorner(w) + cols
  }

  /** Cell k is one the stage-load loop reveals: some row y of the 120 rows
      from StartCorner(h) writes index y * w + x with x one of the 120
      columns from StartCorner(w). */
  ghost predicate InStartSquare(w: int, h: int, k: int)
  {
    exists row :: StartCorner(h) <= row < StartCorner(h) + SAFE_SIDE
                  && RowCovers(w, k, row, SAFE_SIDE)
  }

  /** When the square fits inside the canvas width, its cells are exactly
      those whose row and column both lie in the 120-wide ranges. */
  lemma StartSquareCells(w: int, h: int, k: int)
    requires 0 <= StartCorner(w) && StartCorner(w) + SAFE_SIDE <= w
    ensures InStartSquare(w, h, k) <==>
              StartCorner(h) <= k / w < StartCorner(h) + SAFE_SIDE
              && StartCorner(w) <= k % w < StartCorner(w) + SAFE_SIDE
  {
    var sx, sy := StartCorner(w), StartCorner(h);
    if InStartSquare(w, h, k) {
      var row :| sy <= row < sy + SAFE_SIDE && RowCovers(w, k, row, SAFE_SIDE);
      DivUnique(k, w, row);
    } else {
      DivUnique(k, w, k / w);
      if sy <= k / w < sy + SAFE_SIDE && sx <= k % w < sx + SAFE_SIDE {
        assert RowCovers(w, k, k / w, SAFE_SIDE);
        assert false;
      }
    }
  }

  /** When the square fits inside the canvas, the centre (w/2, h/2), where
      the player starts, samples a cell of the square. */
  lemma CentreInStartSquare(w: int, h: int)
    requires 0 <= StartCorner(w) && StartCorner(w) + SAFE_SIDE <= w
    requires 0 <= StartCorner(h) && StartCorner(h) + SAFE_SIDE <= h
    ensures 0 <= CellIndex(w, (w as real) / 2.0, (h as real) / 2.0) < w * h
    ensures InStartSquare(w, h, CellIndex(w, (w as real) / 2.0, (h as real) / 2.0))
  {
    var x, y := (w as real) / 2.0, (h as real) / 2.0;
    InsideCanvasCell(w, h, x, y);
    assert StartCorner(w) <= x.Floor < StartCorner(w) + SAFE_SIDE;
    assert StartCorner(h) <= y.Floor < StartCorner(h) + SAFE_SIDE;
    StartSquareCells(w, h, CellIndex(w, x, y));
  }
}
