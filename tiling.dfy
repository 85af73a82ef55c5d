/**
 * The tiling step of the watermark handler: the watermark is scaled to a
 * quarter of the base image's width, and then laid over the base at every
 * point of a grid whose steps are the scaled watermark's size plus a gap of
 * half its height, row by row from the top-left corner. Pixels are opaque
 * here: an image is a value of any type, and resizing and overlaying are
 * functions passed in.
 */
module Tiling {

  import opened Arith

  /** A position on the base image, in pixels from its top-left corner. */
  datatype Point = Point(x: int, y: int)

  // ---- how many times `for v := 0; v < n; v += s` runs ----

  /** The iterations of a loop that counts from 0 by `s` while below `n`. */
  function Count(n: int, s: nat): nat
    requires s > 0
    decreases n
  {
    if n <= 0 then 0 else 1 + Count(n - s, s)
  }

  /** The k-th iteration (its variable at k * s) runs exactly when k is below the count. */
  lemma {:induction false} CountBound(n: int, s: nat, k: nat)
    requires s > 0
    ensures k * s < n <==> k < Count(n, s)
    decreases k
  {
    if n > 0 && k > 0 {
      CountBound(n - s, s, k - 1);
      assert k * s == (k - 1) * s + s;
    }
  }

  /** The count is the ceiling of n / s. */
  lemma {:induction false} CountIsCeiling(n: nat, s: nat)
    requires s > 0
    ensures Count(n, s) == (n + s - 1) / s
    decreases n
  {
    if n > 0 {
      if n <= s {
        assert s <= n + s - 1 < 2 * s;
        DivIsUnique(n + s - 1, s, 1);
      } else {
        CountIsCeiling(n - s, s);
        var q := (n - 1) / s;
        assert q * s <= n - 1 < q * s + s;
        DivIsUnique(n + s - 1, s, q + 1);
      }
    }
  }

  // ---- the placement plan ----

  /** One row of the grid: `cols` points `sx` apart at height `y`, left to right. */
  function Row(y: int, cols: nat, sx: nat): seq<Point> {
    seq(cols, i => Point(i * sx, y))
  }

  /** The first `j` rows, top to bottom. */
  function Rows(j: nat, cols: nat, sx: nat, sy: nat): seq<Point>
    decreases j
  {
    if j == 0 then [] else Rows(j - 1, cols, sx, sy) + Row((j - 1) * sy, cols, sx)
  }

  /** The points the tiling loops visit on a W x H base with steps sx and sy, in visiting order. */
  function Plan(W: nat, H: nat, sx: nat, sy: nat): (ps: seq<Point>)
    requires sx > 0 && sy > 0
    ensures |ps| == Count(W, sx) * Count(H, sy)
  {
    RowsSize(Count(H, sy), Count(W, sx), sx, sy);
    assert Count(H, sy) * Count(W, sx) == Count(W, sx) * Count(H, sy);
    Rows(Count(H, sy), Count(W, sx), sx, sy)
  }

  /** The plan holds one point per column per row. */
  lemma {:induction false} RowsSize(j: nat, cols: nat, sx: nat, sy: nat)
    ensures |Rows(j, cols, sx, sy)| == j * cols
    decreases j
  {
    if j > 0 {
      RowsSize(j - 1, cols, sx, sy);
      assert j * cols == (j - 1) * cols + cols;
    }
  }

  /** A point of the grid with `cols` columns and `rows` rows. */
  predicate OnGrid(p: Point, cols: nat, rows: nat, sx: nat, sy: nat)
    requires sx > 0 && sy > 0
  {
    0 <= p.x && 0 <= p.y && p.x % sx == 0 && p.y % sy == 0 && p.x / sx < cols && p.y / sy < rows
  }

  lemma MultipleOf(i: nat, s: nat)
    requires s > 0
    ensures (i * s) % s == 0 && (i * s) / s == i
  {
    DivIsUnique(i * s, s, i);
  }

  lemma RowMembers(y: int, cols: nat, sx: nat, p: Point)
    requires sx > 0
    ensures p in Row(y, cols, sx) <==> p.y == y && 0 <= p.x && p.x % sx == 0 && p.x / sx < cols
  {
    var row := Row(y, cols, sx);
    if p in row {
      var i :| 0 <= i < cols && row[i] == p;
      MultipleOf(i, sx);
    }
    if p.y == y && 0 <= p.x && p.x % sx == 0 && p.x / sx < cols {
      var i := p.x / sx;
      assert row[i] == p;
    }
  }

  lemma {:induction false} RowsMembers(j: nat, cols: nat, sx: nat, sy: nat, p: Point)
    requires sx > 0 && sy > 0
    ensures p in Rows(j, cols, sx, sy) <==> OnGrid(p, cols, j, sx, sy)
    decreases j
  {
    if j > 0 {
      RowsMembers(j - 1, cols, sx, sy, p);
      RowMembers((j - 1) * sy, cols, sx, p);
      MultipleOf(j - 1, sy);
      if 0 <= p.y && p.y % sy == 0 && p.y / sy == j - 1 {
        assert p.y == (j - 1) * sy;
      }
    }
  }

  /**
   * Completeness, both directions: the plan visits exactly the points with
   * non-negative coordinates that are multiples of the steps and lie on the
   * base image.
   */
  lemma PlanMembers(W: nat, H: nat, sx: nat, sy: nat, p: Point)
    requires sx > 0 && sy > 0
    ensures p in Plan(W, H, sx, sy) <==>
      0 <= p.x < W && 0 <= p.y < H && p.x % sx == 0 && p.y % sy == 0
  {
    RowsMembers(Count(H, sy), Count(W, sx), sx, sy, p);
    if 0 <= p.x && 0 <= p.y && p.x % sx == 0 && p.y % sy == 0 {
      CountBound(W, sx, p.x / sx);
      CountBound(H, sy, p.y / sy);
      assert p.x == (p.x / sx) * sx && p.y == (p.y / sy) * sy;
    }
  }

  /** Row-major order: higher rows first, and left to right within a row. */
  predicate Before(p: Point, q: Point) {
    p.y < q.y || (p.y == q.y && p.x < q.x)
  }

  /** Every point comes strictly before every later one. */
  predicate Ascending(ps: seq<Point>) {
    forall a, b :: 0 <= a < b < |ps| ==> Before(ps[a], ps[b])
  }

  lemma {:induction false} RowsAbove(j: nat, cols: nat, sx: nat, sy: nat)
    requires sy > 0
    ensures forall k :: 0 <= k < |Rows(j, cols, sx, sy)| ==> Rows(j, cols, sx, sy)[k].y < j * sy
    decreases j
  {
    if j > 0 {
      RowsAbove(j - 1, cols, sx, sy);
      var prev := Rows(j - 1, cols, sx, sy);
      var all := Rows(j, cols, sx, sy);
      forall k | 0 <= k < |all| ensures all[k].y < j * sy {
        if k < |prev| {
          assert all[k] == prev[k];
        }
      }
    }
  }

  lemma {:induction false} RowsOrdered(j: nat, cols: nat, sx: nat, sy: nat)
    requires sx > 0 && sy > 0
    ensures Ascending(Rows(j, cols, sx, sy))
    decreases j
  {
    if j > 0 {
      RowsOrdered(j - 1, cols, sx, sy);
      RowsAbove(j - 1, cols, sx, sy);
      var prev := Rows(j - 1, cols, sx, sy);
      var row := Row((j - 1) * sy, cols, sx);
      var all := prev + row;
      forall a, b | 0 <= a < b < |all| ensures Before(all[a], all[b]) {
        if b < |prev| {
          assert all[a] == prev[a] && all[b] == prev[b];
          assert Before(prev[a], prev[b]);
        } else if a < |prev| {
          assert all[a] == prev[a] && all[b] == row[b - |prev|];
        } else {
          assert all[a] == row[a - |prev|] && all[b] == row[b - |prev|];
          var a', b' := a - |prev|, b - |prev|;
          assert a' * sx < b' * sx by {
            MulMonotone(a' + 1, b', sx);
            assert (a' + 1) * sx == a' * sx + sx;
          }
        }
      }
      assert Rows(j, cols, sx, sy) == all;
    }
  }

  /** The tiling visits each grid point once, in strictly increasing row-major order. */
  lemma PlanOrdered(W: nat, H: nat, sx: nat, sy: nat)
    requires sx > 0 && sy > 0
    ensures Ascending(Plan(W, H, sx, sy))
    ensures forall a, b :: 0 <= a < b < |Plan(W, H, sx, sy)| ==> Plan(W, H, sx, sy)[a] != Plan(W, H, sx, sy)[b]
  {
    RowsOrdered(Count(H, sy), Count(W, sx), sx, sy);
    var plan := Plan(W, H, sx, sy);
    forall a, b | 0 <= a < b < |plan| ensures plan[a] != plan[b] {
      assert Before(plan[a], plan[b]);
    }
  }

  // ---- overlaying ----

  /** The base with `mark` laid over it at each point of `points`, in order. */
  function ApplyAll<Img>(base: Img, mark: Img, overlay: (Img, Img, int, int) -> Img, points: seq<Point>): Img
    decreases |points|
  {
    if points == [] then base
    else
      var last := points[|points| - 1];
      overlay(ApplyAll(base, mark, overlay, points[..|points| - 1]), mark, last.x, last.y)
  }

  /** Overlaying a sequence of points then more points is overlaying their concatenation. */
  lemma {:induction false} ApplyAllAppend<Img>(base: Img, mark: Img, overlay: (Img, Img, int, int) -> Img,
                                               a: seq<Point>, b: seq<Point>)
    ensures ApplyAll(base, mark, overlay, a + b) ==
      ApplyAll(ApplyAll(base, mark, overlay, a), mark, overlay, b)
    decreases |b|
  {
    if b != [] {
      var last := b[|b| - 1];
      assert (a + b)[..|a + b| - 1] == a + b[..|b| - 1];
      ApplyAllAppend(base, mark, overlay, a, b[..|b| - 1]);
    } else {
      assert a + b == a;
    }
  }

  /**
   * The two nested loops of the handler: for each row from the top while
   * above the bottom edge, for each column from the left while left of the
   * right edge, the watermark is laid over the picture so far. The steps are
   * the watermark's width and height plus a gap of half its height.
   */
  method Tile<Img>(base: Img, mark: Img, W: nat, H: nat, rw: nat, rh: nat,
                   overlay: (Img, Img, int, int) -> Img)
    returns (out: Img)
    requires rw + rh / 2 > 0 && rh + rh / 2 > 0
    ensures out == ApplyAll(base, mark, overlay, Plan(W, H, rw + rh / 2, rh + rh / 2))
  {
    var spacing := rh / 2;
    var sx, sy := rw + spacing, rh + spacing;
    ghost var cols := Count(W, sx);
    out := base;
    ghost var j: nat := 0;
    var y := 0;
    while y < H
      invariant y == j * sy && j <= Count(H, sy)
      invariant out == ApplyAll(base, mark, overlay, Rows(j, cols, sx, sy))
      decreases Count(H, sy) - j
    {
      CountBound(H, sy, j);
      ApplyAllAppend(base, mark, overlay, Rows(j, cols, sx, sy), Row(y, cols, sx));
      out := TileRow(out, mark, W, y, sx, overlay);
      y := y + sy;
      j := j + 1;
    }
    CountBound(H, sy, j);
  }

  /** The inner loop: one row of marks at height `y`, left to right while left of the right edge. */
  method TileRow<Img>(img: Img, mark: Img, W: nat, y: int, sx: nat, overlay: (Img, Img, int, int) -> Img)
    returns (out: Img)
    requires sx > 0
    ensures out == ApplyAll(img, mark, overlay, Row(y, Count(W, sx), sx))
  {
    ghost var cols := Count(W, sx);
    out := img;
    ghost var i: nat := 0;
    var x := 0;
    while x < W
      invariant x == i * sx && i <= cols
      invariant out == ApplyAll(img, mark, overlay, Row(y, cols, sx)[..i])
      decreases cols - i
    {
      CountBound(W, sx, i);
      ApplyAllStep(img, mark, overlay, Row(y, cols, sx)[..i], Point(x, y));
      RowPrefixStep(y, cols, sx, i);
      out := overlay(out, mark, x, y);
      x := x + sx;
      i := i + 1;
    }
    CountBound(W, sx, i);
    assert Row(y, cols, sx)[..i] == Row(y, cols, sx);
  }

  lemma ApplyAllStep<Img>(base: Img, mark: Img, overlay: (Img, Img, int, int) -> Img, points: seq<Point>, p: Point)
    ensures ApplyAll(base, mark, overlay, points + [p]) == overlay(ApplyAll(base, mark, overlay, points), mark, p.x, p.y)
  {
    assert (points + [p])[..|points|] == points;
  }

  lemma RowPrefixStep(y: int, cols: nat, sx: nat, i: nat)
    requires i < cols
    ensures Row(y, cols, sx)[..i + 1] == Row(y, cols, sx)[..i] + [Point(i * sx, y)]
    ensures (i + 1) * sx == i * sx + sx
  {
  }

  // ---- the watermark's size ----

  /**
   * imaging.Resize(src, dstW, 0): the width as asked and the height that
   * keeps the aspect ratio, rounded half up and at least one pixel; a
   * non-positive width or an empty source gives an empty image.
   */
  function ResizedDims(dstW: int, srcW: nat, srcH: nat): (d: (nat, nat))
    ensures dstW <= 0 || srcW == 0 || srcH == 0 ==> d == (0, 0)
    ensures dstW > 0 && srcW > 0 && srcH > 0 ==> d.0 == dstW && d.1 >= 1
    ensures dstW > 0 && srcW > 0 && srcH > 0 && d.1 > 1 ==>
      2 * srcW * d.1 <= 2 * dstW * srcH + srcW < 2 * srcW * (d.1 + 1)
    ensures dstW > 0 && srcW > 0 && srcH > 0 && d.1 == 1 ==> 2 * dstW * srcH + srcW < 4 * srcW
  {
    if dstW <= 0 || srcW == 0 || srcH == 0 then (0, 0)
    else
      var h := (2 * dstW * srcH + srcW) / (2 * srcW);
      DivBounds(2 * dstW * srcH + srcW, 2 * srcW);
      (dstW, if h < 1 then 1 else h)
  }

  lemma DivBounds(m: nat, d: nat)
    requires d > 0
    ensures d * (m / d) <= m < d * (m / d + 1)
  {
  }

  /** The watermark's target width as the handler computes it: a quarter of the base width, rounded down. */
  function ScaledWidth(baseWidth: nat): (w: nat)
    ensures 4 * w <= baseWidth < 4 * w + 4
  {
    baseWidth / 4
  }

  /**
   * On a base one to three pixels wide the target width is zero, the resized
   * watermark is empty and both steps are zero: the loop variable never
   * leaves 0, so every iteration's guard holds and the loop never ends.
   */
  lemma NarrowBaseNeverAdvances(baseWidth: nat, baseHeight: nat, srcW: nat, srcH: nat)
    requires 1 <= baseWidth <= 3 && baseHeight >= 1
    ensures var d := ResizedDims(ScaledWidth(baseWidth), srcW, srcH);
      var sx, sy := d.0 + d.1 / 2, d.1 + d.1 / 2;
      sx == 0 && sy == 0 && forall k: nat :: k * sx < baseWidth && k * sy < baseHeight
  {
  }

  /** The target width clamped to at least one pixel. */
  function CorrectedScaledWidth(baseWidth: nat): (w: nat)
    ensures w >= 1
    ensures baseWidth >= 4 ==> w == ScaledWidth(baseWidth)
    ensures baseWidth < 4 ==> w == 1
  {
    if baseWidth / 4 < 1 then 1 else baseWidth / 4
  }

  /** With the clamp, a non-empty watermark always gives positive steps, so both loops end. */
  lemma CorrectedStepsArePositive(baseWidth: nat, srcW: nat, srcH: nat)
    requires srcW >= 1 && srcH >= 1
    ensures var d := ResizedDims(CorrectedScaledWidth(baseWidth), srcW, srcH);
      d.0 + d.1 / 2 > 0 && d.1 + d.1 / 2 > 0
  {
  }

  /**
   * An 800 x 600 base and a 400 x 100 watermark: the watermark becomes
   * 200 x 50, the gap is 25, the columns are at 0, 225, 450 and 675, and
   * eight rows 75 apart give 32 overlays.
   */
  lemma ExampleTiling()
    ensures ResizedDims(ScaledWidth(800), 400, 100) == (200, 50)
    ensures Count(800, 225) == 4 && Count(600, 75) == 8
    ensures |Plan(800, 600, 225, 75)| == 32
    ensures Plan(800, 600, 225, 75)[..4] == [Point(0, 0), Point(225, 0), Point(450, 0), Point(675, 0)]
  {
    assert (2 * 200 * 100 + 400) / (2 * 400) == 50;
    CountBound(600, 75, 0);
    var plan := Plan(800, 600, 225, 75);
    var r8 := Rows(8, 4, 225, 75);
    assert r8 == Rows(1, 4, 225, 75) + Row(75, 4, 225) + Row(150, 4, 225) + Row(225, 4, 225)
      + Row(300, 4, 225) + Row(375, 4, 225) + Row(450, 4, 225) + Row(525, 4, 225);
    RowsSize(1, 4, 225, 75);
    assert Rows(1, 4, 225, 75) == Row(0, 4, 225);
  }
}
