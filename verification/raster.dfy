/**
 The rasterizer of the line chart: Bresenham's line algorithm in its
 all-octant form with an integer error accumulator, writing only the cells
 that fall inside the grid, and the polyline through a series' points.
 */
module Raster {
  import opened Text
  import opened Canvas

  function Abs(n: int): int { if n < 0 then -n else n }

  /** The step direction toward the target, `1 if a < b else -1`. */
  function Dir(a: int, b: int): int { if a < b then 1 else -1 }

  /** One move of the rasterizer: each coordinate changes by 0 or by its
      direction, and at least one of them changes, so `p` and `q` are
      8-adjacent and `q` is closer to the target. */
  predicate Step(p: Point, q: Point, sx: int, sy: int)
  {
    && (q.x == p.x || q.x == p.x + sx)
    && (q.y == p.y || q.y == p.y + sy)
    && p != q
  }

  predicate Between(v: int, a: int, b: int)
  {
    (a <= v <= b) || (b <= v <= a)
  }

  /** `p` lies in the bounding box of the segment from `a` to `b`. */
  predicate InBox(p: Point, a: Point, b: Point)
  {
    Between(p.x, a.x, b.x) && Between(p.y, a.y, b.y)
  }

  lemma MulMono(a: int, b: int, c: int)
    requires 0 <= a && b <= c
    ensures a * b <= a * c
  {
    assert a * c - a * b == a * (c - b);
  }

  /** The error accumulator of `plot_line` after `i` column steps and `j` row
      steps on a segment spanning `dX` columns and `dY` rows, and the bound on
      it that makes the dominant axis step every time. */
  ghost predicate ErrorInv(dX: int, dY: int, err: int, i: int, j: int)
  {
    && 0 <= i <= dX && 0 <= j <= dY
    && err == dX * (j + 1) - dY * (i + 1)
    && (dX >= dY ==> 2 * err >= -dY)
    && (dY >= dX ==> 2 * err <= dX)
    && (dX == dY ==> i == j)
  }

  /** Once the column count is exhausted the error forbids another column step. */
  lemma ColumnDone(dX: int, dY: int, err: int, j: int)
    requires 0 <= j < dY && 0 <= dX
    requires err == dX * (j + 1) - dY * (dX + 1)
    ensures 2 * err < -dY
  {
    MulMono(dX, j + 1, dY);
    ShiftProduct(dY, dX);
  }

  /** Once the row count is exhausted the error forbids another row step. */
  lemma RowDone(dX: int, dY: int, err: int, i: int)
    requires 0 <= i < dX && 0 <= dY
    requires err == dX * (dY + 1) - dY * (i + 1)
    ensures 2 * err > dX
  {
    MulMono(dY, i + 1, dX);
    ShiftProduct(dX, dY);
  }

  /** One iteration away from the target keeps `ErrorInv`, takes at least
      one step, and always steps along the dominant axis. */
  lemma ErrorStep(dX: int, dY: int, err: int, i: int, j: int)
    requires ErrorInv(dX, dY, err, i, j)
    requires !(i == dX && j == dY)
    ensures
      var stepX, stepY := 2 * err >= -dY, 2 * err <= dX;
      && (stepX || stepY)
      && (dX >= dY ==> stepX)
      && (dY >= dX ==> stepY)
      && ErrorInv(dX, dY,
           err + (if stepX then -dY else 0) + (if stepY then dX else 0),
           if stepX then i + 1 else i,
           if stepY then j + 1 else j)
  {
    var stepX, stepY := 2 * err >= -dY, 2 * err <= dX;
    if i == dX {
      ColumnDone(dX, dY, err, j);
    }
    if j == dY {
      RowDone(dX, dY, err, i);
    }
    var i', j' := if stepX then i + 1 else i, if stepY then j + 1 else j;
    var e := err + (if stepX then -dY else 0) + (if stepY then dX else 0);
    ShiftProduct(dY, i + 1);
    ShiftProduct(dX, j + 1);
    assert e == dX * (j' + 1) - dY * (i' + 1);
  }

  lemma ShiftProduct(a: int, b: int)
    ensures a * (b + 1) == a * b + a
  {
  }

  /** The position after `k` steps of `s` from `a`. */
  lemma StepsAlong(a: int, b: int, k: int)
    requires 0 <= k <= Abs(b - a)
    ensures Between(a + k * Dir(a, b), a, b)
    ensures a + k * Dir(a, b) == b <==> k == Abs(b - a)
    ensures a + (k + 1) * Dir(a, b) == a + k * Dir(a, b) + Dir(a, b)
  {
  }

  /** The arithmetic state of `plot_line` after `i` column steps and `j` row steps. */
  ghost predicate Tracks(from: Point, to: Point, x: int, y: int, err: int, i: int, j: int)
  {
    && ErrorInv(Abs(to.x - from.x), Abs(to.y - from.y), err, i, j)
    && x == from.x + i * Dir(from.x, to.x)
    && y == from.y + j * Dir(from.y, to.y)
  }

  /** The loop stops exactly when both step counts are exhausted, and the
      current cell always lies in the segment's bounding box. */
  lemma TracksAtTarget(from: Point, to: Point, x: int, y: int, err: int, i: int, j: int)
    requires Tracks(from, to, x, y, err, i, j)
    ensures (x == to.x && y == to.y) <==> (i == Abs(to.x - from.x) && j == Abs(to.y - from.y))
    ensures InBox(Point(x, y), from, to)
  {
    StepsAlong(from.x, to.x, i);
    StepsAlong(from.y, to.y, j);
  }

  /** One iteration of `plot_line` away from the target keeps `Tracks` and
      moves to an 8-adjacent cell of the bounding box. */
  lemma TracksStep(from: Point, to: Point, x: int, y: int, err: int, i: int, j: int)
    requires Tracks(from, to, x, y, err, i, j)
    requires !(x == to.x && y == to.y)
    ensures
      var dX, dY := Abs(to.x - from.x), Abs(to.y - from.y);
      var stepX, stepY := 2 * err >= -dY, 2 * err <= dX;
      var x', y' := if stepX then x + Dir(from.x, to.x) else x, if stepY then y + Dir(from.y, to.y) else y;
      && (dX >= dY ==> stepX)
      && (dY >= dX ==> stepY)
      && Step(Point(x, y), Point(x', y'), Dir(from.x, to.x), Dir(from.y, to.y))
      && Tracks(from, to, x', y',
           err + (if stepX then -dY else 0) + (if stepY then dX else 0),
           if stepX then i + 1 else i,
           if stepY then j + 1 else j)
  {
    var dX, dY := Abs(to.x - from.x), Abs(to.y - from.y);
    TracksAtTarget(from, to, x, y, err, i, j);
    ErrorStep(dX, dY, err, i, j);
    StepsAlong(from.x, to.x, i);
    StepsAlong(from.y, to.y, j);
  }

  /** What `plot_line` promises of the cells it visits between `from` and
      `to`: one cell per step of the dominant axis plus one, starting at
      `from`, ending at `to`, each an 8-adjacent step toward `to`, all inside
      the bounding box. */
  predicate LineWalk(path: seq<Point>, from: Point, to: Point)
  {
    && |path| == Max(Abs(to.x - from.x), Abs(to.y - from.y)) + 1
    && path[0] == from && path[|path| - 1] == to
    && (forall k :: 0 <= k < |path| - 1 ==>
          Step(path[k], path[k + 1], Dir(from.x, to.x), Dir(from.y, to.y)))
    && (forall k :: 0 <= k < |path| ==> InBox(path[k], from, to))
  }

  /** The cells visited so far, followed by the current cell `cur`, form a
      walk from `from` in unit steps toward `to`, inside its bounding box. */
  ghost predicate Walk(path: seq<Point>, cur: Point, from: Point, to: Point)
  {
    var sx, sy := Dir(from.x, to.x), Dir(from.y, to.y);
    && (|path| == 0 ==> cur == from)
    && (|path| > 0 ==> path[0] == from && Step(path[|path| - 1], cur, sx, sy))
    && (forall k :: 0 <= k < |path| - 1 ==> Step(path[k], path[k + 1], sx, sy))
    && (forall k :: 0 <= k < |path| ==> InBox(path[k], from, to))
  }

  lemma WalkExtend(path: seq<Point>, cur: Point, next: Point, from: Point, to: Point)
    requires Walk(path, cur, from, to) && InBox(cur, from, to)
    requires Step(cur, next, Dir(from.x, to.x), Dir(from.y, to.y))
    ensures Walk(path + [cur], next, from, to)
  {
  }

  /** The arithmetic and the path of `plot_line` at the head of its loop:
      `path` holds the cells already visited, `(x, y)` is the cell about to
      be visited, and the path has one cell per dominant-axis step taken. */
  ghost predicate Progress(from: Point, to: Point, path: seq<Point>, x: int, y: int, err: int, i: int, j: int)
  {
    var dX, dY := Abs(to.x - from.x), Abs(to.y - from.y);
    && Tracks(from, to, x, y, err, i, j)
    && Walk(path, Point(x, y), from, to)
    && (dX >= dY ==> |path| == i)
    && (dY >= dX ==> |path| == j)
  }

  /** Everything `plot_line` keeps true at the head of its loop: its
      `Progress`, and `g'` is `g` with the visited cells inside the grid
      written. */
  ghost predicate LineInv(g: Grid, width: int, height: int, from: Point, to: Point, glyph: string,
                          g': Grid, path: seq<Point>, x: int, y: int, err: int, i: int, j: int)
  {
    && IsGrid(g, width, height)
    && IsGrid(g', width, height)
    && Progress(from, to, path, x, y, err, i, j)
    && g' == Plot(g, width, height, path, glyph)
  }

  /** Visiting the current cell and, away from the target, taking the step
      the error accumulator selects, keeps `Progress` and takes at least one
      step. */
  lemma ProgressStep(from: Point, to: Point, path0: seq<Point>, x0: int, y0: int, err0: int, i0: int, j0: int,
                     stepX: bool, stepY: bool, x: int, y: int, err: int, i: int, j: int)
    requires Progress(from, to, path0, x0, y0, err0, i0, j0)
    requires !(x0 == to.x && y0 == to.y)
    requires stepX == (2 * err0 >= -Abs(to.y - from.y))
    requires stepY == (2 * err0 <= Abs(to.x - from.x))
    requires
      var dX, dY := Abs(to.x - from.x), Abs(to.y - from.y);
      && x == (if stepX then x0 + Dir(from.x, to.x) else x0)
      && y == (if stepY then y0 + Dir(from.y, to.y) else y0)
      && err == err0 + (if stepX then -dY else 0) + (if stepY then dX else 0)
      && i == (if stepX then i0 + 1 else i0)
      && j == (if stepY then j0 + 1 else j0)
    ensures Progress(from, to, path0 + [Point(x0, y0)], x, y, err, i, j)
    ensures i + j > i0 + j0
    ensures i <= Abs(to.x - from.x) && j <= Abs(to.y - from.y)
  {
    TracksAtTarget(from, to, x0, y0, err0, i0, j0);
    TracksStep(from, to, x0, y0, err0, i0, j0);
    WalkExtend(path0, Point(x0, y0), Point(x, y), from, to);
  }

  /** Visiting the current cell and, away from the target, taking the step
      the error accumulator selects, re-establishes `LineInv`. */
  lemma LineInvStep(g: Grid, width: int, height: int, from: Point, to: Point, glyph: string,
                    g0: Grid, path0: seq<Point>, x0: int, y0: int, err0: int, i0: int, j0: int,
                    stepX: bool, stepY: bool,
                    g': Grid, path: seq<Point>, x: int, y: int, err: int, i: int, j: int)
    requires LineInv(g, width, height, from, to, glyph, g0, path0, x0, y0, err0, i0, j0)
    requires !(x0 == to.x && y0 == to.y)
    requires g' == if InBounds(Point(x0, y0), width, height) then Put(g0, Point(x0, y0), glyph) else g0
    requires path == path0 + [Point(x0, y0)]
    requires stepX == (2 * err0 >= -Abs(to.y - from.y))
    requires stepY == (2 * err0 <= Abs(to.x - from.x))
    requires
      var dX, dY := Abs(to.x - from.x), Abs(to.y - from.y);
      && x == (if stepX then x0 + Dir(from.x, to.x) else x0)
      && y == (if stepY then y0 + Dir(from.y, to.y) else y0)
      && err == err0 + (if stepX then -dY else 0) + (if stepY then dX else 0)
      && i == (if stepX then i0 + 1 else i0)
      && j == (if stepY then j0 + 1 else j0)
    ensures LineInv(g, width, height, from, to, glyph, g', path, x, y, err, i, j)
    ensures i + j > i0 + j0
    ensures i <= Abs(to.x - from.x) && j <= Abs(to.y - from.y)
  {
    ProgressStep(from, to, path0, x0, y0, err0, i0, j0, stepX, stepY, x, y, err, i, j);
    PlotSnoc(g, width, height, path0, Point(x0, y0), glyph);
  }

  /** `LineInv` holds before the first iteration. */
  lemma LineInvInit(g: Grid, width: int, height: int, from: Point, to: Point, glyph: string)
    requires IsGrid(g, width, height)
    ensures LineInv(g, width, height, from, to, glyph, g, [], from.x, from.y,
                    Abs(to.x - from.x) - Abs(to.y - from.y), 0, 0)
  {
  }

  /** At the target, visiting the last cell completes the walk: it has one
      cell per step of the dominant axis plus one, ends at `to`, and the grid
      holds `glyph` exactly on the walk's cells inside the grid. */
  lemma LineInvDone(g: Grid, width: int, height: int, from: Point, to: Point, glyph: string,
                    g0: Grid, path0: seq<Point>, x0: int, y0: int, err0: int, i0: int, j0: int,
                    g': Grid, path: seq<Point>)
    requires LineInv(g, width, height, from, to, glyph, g0, path0, x0, y0, err0, i0, j0)
    requires x0 == to.x && y0 == to.y
    requires g' == if InBounds(Point(x0, y0), width, height) then Put(g0, Point(x0, y0), glyph) else g0
    requires path == path0 + [Point(x0, y0)]
    ensures IsGrid(g', width, height)
    ensures LineWalk(path, from, to)
    ensures g' == Plot(g, width, height, path, glyph)
  {
    TracksAtTarget(from, to, x0, y0, err0, i0, j0);
    PlotSnoc(g, width, height, path0, Point(x0, y0), glyph);
  }

  /** `plot_line(x0, y0, x1, y1)`. Returns the updated grid and the cells the
      loop visited, in order. */
  method PlotLine(g: Grid, width: int, height: int, from: Point, to: Point, glyph: string)
    returns (g': Grid, path: seq<Point>)
    requires IsGrid(g, width, height)
    ensures IsGrid(g', width, height)
    ensures LineWalk(path, from, to)
    ensures g' == Plot(g, width, height, path, glyph)
  {
    var dx := Abs(to.x - from.x);
    var dy := -Abs(to.y - from.y);
    var sx := Dir(from.x, to.x);
    var sy := Dir(from.y, to.y);
    var err := dx + dy;
    var x, y := from.x, from.y;
    ghost var i, j := 0, 0;
    g' := g;
    path := [];
    LineInvInit(g, width, height, from, to, glyph);
    while true
      invariant LineInv(g, width, height, from, to, glyph, g', path, x, y, err, i, j)
      decreases (dx - i) + (-dy - j)
    {
      ghost var g0, path0, x0, y0, err0, i0, j0 := g', path, x, y, err, i, j;
      if 0 <= y < height && 0 <= x < width {
        g' := Put(g', Point(x, y), glyph);
      }
      path := path + [Point(x, y)];
      if x == to.x && y == to.y {
        LineInvDone(g, width, height, from, to, glyph, g0, path0, x0, y0, err0, i0, j0, g', path);
        break;
      }
      var e2 := 2 * err;
      if e2 >= dy {
        err := err + dy;
        x := x + sx;
        i := i + 1;
      }
      if e2 <= dx {
        err := err + dx;
        y := y + sy;
        j := j + 1;
      }
      LineInvStep(g, width, height, from, to, glyph, g0, path0, x0, y0, err0, i0, j0,
                  e2 >= dy, e2 <= dx, g', path, x, y, err, i, j);
    }
  }

  /** The walks the polyline loop draws through `points`: one segment
      between each pair of consecutive points, none for fewer than two. */
  predicate Polyline(points: seq<Point>, paths: seq<seq<Point>>)
  {
    |paths| == Max(|points| - 1, 0) && SegmentWalks(points, paths)
  }

  /** Walk `n` runs from point `n` to point `n + 1`. */
  predicate SegmentWalks(points: seq<Point>, paths: seq<seq<Point>>)
  {
    && (paths == [] || |paths| < |points|)
    && forall n :: 0 <= n < |paths| ==> LineWalk(paths[n], points[n], points[n + 1])
  }

  /** One more walk, from the last point reached to the next, extends the
      segments. */
  lemma SegmentWalksSnoc(points: seq<Point>, paths: seq<seq<Point>>, path: seq<Point>)
    requires SegmentWalks(points, paths) && |paths| + 1 < |points|
    requires LineWalk(path, points[|paths|], points[|paths| + 1])
    ensures SegmentWalks(points, paths + [path])
  {
    var ps := paths + [path];
    forall n | 0 <= n < |ps| ensures LineWalk(ps[n], points[n], points[n + 1]) {
      if n < |paths| {
        assert ps[n] == paths[n];
      }
    }
  }

  /** A polyline of two or more points passes through every one of them. */
  lemma PolylineVertices(points: seq<Point>, paths: seq<seq<Point>>, k: int)
    requires Polyline(points, paths) && |points| >= 2 && 0 <= k < |points|
    ensures points[k] in Flatten(paths)
  {
    if k < |paths| {
      assert LineWalk(paths[k], points[k], points[k + 1]);
      assert paths[k][0] == points[k];
    } else {
      var last := paths[k - 1];
      assert LineWalk(last, points[k - 1], points[k]);
      assert last[|last| - 1] == points[k];
    }
  }

  /** Drawing one more segment over the grid of the earlier ones is the
      grid of all of them. */
  lemma PolylineStep(g: Grid, width: int, height: int, paths: seq<seq<Point>>, path: seq<Point>,
                     glyph: string, prev: Grid, next: Grid)
    requires IsGrid(g, width, height)
    requires prev == Plot(g, width, height, Flatten(paths), glyph)
    requires next == Plot(prev, width, height, path, glyph)
    ensures next == Plot(g, width, height, Flatten(paths + [path]), glyph)
  {
    FlattenSnoc(paths, path);
    PlotAppend(g, width, height, Flatten(paths), path, glyph);
  }

  /** The polyline loop of the line chart: `plot_line` between each pair of
      consecutive points. Returns the grid and, as a ghost, the walk of each
      segment; the grid is the input with the glyph on exactly the in-grid
      cells of those walks. */
  method DrawPolyline(g: Grid, width: int, height: int, points: seq<Point>, glyph: string)
    returns (g': Grid, ghost paths: seq<seq<Point>>)
    requires IsGrid(g, width, height)
    ensures Polyline(points, paths)
    ensures g' == Plot(g, width, height, Flatten(paths), glyph)
    ensures |points| < 2 ==> g' == g
  {
    g' := g;
    paths := [];
    if |points| < 2 {
      return;
    }
    var n := 0;
    while n < |points| - 1
      invariant 0 <= n <= |points| - 1 && |paths| == n
      invariant SegmentWalks(points, paths)
      invariant g' == Plot(g, width, height, Flatten(paths), glyph)
    {
      ghost var prev := g';
      var path;
      g', path := PlotLine(g', width, height, points[n], points[n + 1], glyph);
      PolylineStep(g, width, height, paths, path, glyph, prev, g');
      SegmentWalksSnoc(points, paths, path);
      paths := paths + [path];
      n := n + 1;
    }
  }
}

/**
 Consequences of the rasterizer's guarantees: a diagonal segment is drawn as
 the exact diagonal, whichever endpoint it starts from.
 */
module RasterFacts {
  import opened Canvas
  import opened Raster

  lemma {:induction false} WalkColumnFromStart(path: seq<Point>, from: Point, to: Point, k: nat)
    requires LineWalk(path, from, to) && k < |path|
    ensures Abs(path[k].x - from.x) <= k
    decreases k
  {
    if k > 0 {
      WalkColumnFromStart(path, from, to, k - 1);
      assert Step(path[k - 1], path[k], Dir(from.x, to.x), Dir(from.y, to.y));
    }
  }

  lemma {:induction false} WalkColumnToEnd(path: seq<Point>, from: Point, to: Point, k: nat)
    requires LineWalk(path, from, to) && k < |path|
    ensures Abs(to.x - path[k].x) <= |path| - 1 - k
    decreases |path| - k
  {
    if k < |path| - 1 {
      WalkColumnToEnd(path, from, to, k + 1);
      assert Step(path[k], path[k + 1], Dir(from.x, to.x), Dir(from.y, to.y));
    }
  }

  /** The same for rows. */
  lemma {:induction false} WalkRowFromStart(path: seq<Point>, from: Point, to: Point, k: nat)
    requires LineWalk(path, from, to) && k < |path|
    ensures Abs(path[k].y - from.y) <= k
    decreases k
  {
    if k > 0 {
      WalkRowFromStart(path, from, to, k - 1);
      assert Step(path[k - 1], path[k], Dir(from.x, to.x), Dir(from.y, to.y));
    }
  }

  lemma {:induction false} WalkRowToEnd(path: seq<Point>, from: Point, to: Point, k: nat)
    requires LineWalk(path, from, to) && k < |path|
    ensures Abs(to.y - path[k].y) <= |path| - 1 - k
    decreases |path| - k
  {
    if k < |path| - 1 {
      WalkRowToEnd(path, from, to, k + 1);
      assert Step(path[k], path[k + 1], Dir(from.x, to.x), Dir(from.y, to.y));
    }
  }

  /** A segment whose column and row spans are equal is drawn as the exact
      diagonal: cell `k` is `k` steps from `from` along both axes. */
  lemma DiagonalWalk(path: seq<Point>, from: Point, to: Point)
    requires LineWalk(path, from, to)
    requires Abs(to.x - from.x) == Abs(to.y - from.y)
    ensures forall k :: 0 <= k < |path| ==>
              path[k] == Point(from.x + k * Dir(from.x, to.x), from.y + k * Dir(from.y, to.y))
  {
    forall k | 0 <= k < |path|
      ensures path[k] == Point(from.x + k * Dir(from.x, to.x), from.y + k * Dir(from.y, to.y))
    {
      WalkColumnFromStart(path, from, to, k);
      WalkColumnToEnd(path, from, to, k);
      WalkRowFromStart(path, from, to, k);
      WalkRowToEnd(path, from, to, k);
      assert InBox(path[k], from, to);
    }
  }

  /** When the column span is at least the row span, the walk advances one
      column per cell: cell `k` is exactly `k` columns from `from`. */
  lemma ColumnsAdvance(path: seq<Point>, from: Point, to: Point)
    requires LineWalk(path, from, to)
    requires Abs(to.x - from.x) >= Abs(to.y - from.y)
    ensures forall k :: 0 <= k < |path| ==> path[k].x == from.x + k * Dir(from.x, to.x)
  {
    forall k | 0 <= k < |path|
      ensures path[k].x == from.x + k * Dir(from.x, to.x)
    {
      WalkColumnFromStart(path, from, to, k);
      WalkColumnToEnd(path, from, to, k);
      assert InBox(path[k], from, to);
    }
  }

  /** A horizontal segment is the run of cells between its ends, in order. */
  lemma HorizontalWalk(path: seq<Point>, from: Point, to: Point)
    requires LineWalk(path, from, to) && from.y == to.y
    ensures |path| == Abs(to.x - from.x) + 1
    ensures forall k :: 0 <= k < |path| ==> path[k] == Point(from.x + k * Dir(from.x, to.x), from.y)
  {
    ColumnsAdvance(path, from, to);
    forall k | 0 <= k < |path|
      ensures path[k] == Point(from.x + k * Dir(from.x, to.x), from.y)
    {
      assert InBox(path[k], from, to);
    }
  }

  /** Drawing a diagonal segment in either direction visits the same cells,
      in reverse order. */
  lemma DiagonalSymmetric(p: seq<Point>, q: seq<Point>, a: Point, b: Point)
    requires LineWalk(p, a, b) && LineWalk(q, b, a)
    requires Abs(b.x - a.x) == Abs(b.y - a.y)
    ensures |p| == |q|
    ensures forall k :: 0 <= k < |p| ==> p[k] == q[|q| - 1 - k]
  {
    DiagonalWalk(p, a, b);
    DiagonalWalk(q, b, a);
    var d := Abs(b.x - a.x);
    forall k | 0 <= k < |p|
      ensures p[k] == q[|q| - 1 - k]
    {
      assert b.x == a.x + d * Dir(a.x, b.x);
      assert b.y == a.y + d * Dir(a.y, b.y);
    }
  }

  /** The segment from `(0, 0)` to `(4, 4)` is the five cells of the main
      diagonal. */
  lemma MainDiagonal(path: seq<Point>)
    requires LineWalk(path, Point(0, 0), Point(4, 4))
    ensures path == [Point(0, 0), Point(1, 1), Point(2, 2), Point(3, 3), Point(4, 4)]
  {
    DiagonalWalk(path, Point(0, 0), Point(4, 4));
  }
}
