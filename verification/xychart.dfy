/**
 The scatter and line charts: series of `(x, y)` values scaled onto a grid,
 drawn with each series' glyph (later series over earlier ones), then framed
 with axis labels by `Frame.Compose`.
 */
module XYChart {
  import opened Optional
  import opened Text
  import opened Colors
  import opened Scale
  import opened Canvas
  import opened Frame
  import opened Raster

  /** One series: its x and y values, an optional colour name and an
      optional marker. */
  datatype Series = Series(xs: seq<real>, ys: seq<real>, color: Option<string>, marker: Option<string>)

  /** The cell written for a series: its colour code, its marker (`*` when
      none is given) and the reset code when a colour applies. */
  function Glyph(s: Series): string
  {
    Decorate(s.color, if s.marker.Some? then s.marker.value else "*")
  }

  /** Every x value of a series has a y value to pair with; the charts index
      `y[i]` for each index `i` of `x`, so a shorter `y` fails in the source. */
  predicate Aligned(data: seq<Series>)
  {
    forall i :: 0 <= i < |data| ==> |data[i].xs| <= |data[i].ys|
  }

  /** All x values, series by series. */
  function AllX(data: seq<Series>): seq<real>
  {
    Flatten(seq(|data|, i requires 0 <= i < |data| => data[i].xs))
  }

  /** All y values, series by series. */
  function AllY(data: seq<Series>): seq<real>
  {
    Flatten(seq(|data|, i requires 0 <= i < |data| => data[i].ys))
  }

  /** The chart has something to draw: some x value and some y value. */
  predicate HasData(data: seq<Series>)
  {
    |AllX(data)| > 0 && |AllY(data)| > 0
  }

  /** The extremes over every series. */
  function ChartRange(data: seq<Series>): (rng: Range)
    requires HasData(data)
    ensures forall i, k :: 0 <= i < |data| && 0 <= k < |data[i].xs| ==> rng.minX <= data[i].xs[k] <= rng.maxX
    ensures forall i, k :: 0 <= i < |data| && 0 <= k < |data[i].ys| ==> rng.minY <= data[i].ys[k] <= rng.maxY
    ensures rng.minX in AllX(data) && rng.maxX in AllX(data)
    ensures rng.minY in AllY(data) && rng.maxY in AllY(data)
  {
    var xs, ys := AllX(data), AllY(data);
    assert forall i :: 0 <= i < |data| ==> seq(|data|, i requires 0 <= i < |data| => data[i].xs)[i] == data[i].xs;
    assert forall i :: 0 <= i < |data| ==> seq(|data|, i requires 0 <= i < |data| => data[i].ys)[i] == data[i].ys;
    Range(MinOf(xs), MaxOf(xs), MinOf(ys), MaxOf(ys))
  }

  /** The cell of a value pair: column `int((x - min_x) / x_range * (width - 1))`
      and row `height - 1 - int((y - min_y) / y_range * (height - 1))`, each
      index 0 on an axis whose range is zero. */
  function ScaledPoint(x: real, y: real, rng: Range, width: int, height: int): Point
  {
    Point(MapIndex(x, rng.minX, rng.maxX, width), FlipRow(MapIndex(y, rng.minY, rng.maxY, height), height))
  }

  /** A value pair inside the range lands inside the grid. */
  lemma ScaledPointInBounds(x: real, y: real, rng: Range, width: int, height: int)
    requires rng.minX <= x <= rng.maxX && rng.minY <= y <= rng.maxY
    requires width >= 1 && height >= 1
    ensures InBounds(ScaledPoint(x, y, rng, width, height), width, height)
  {
  }

  /** The extremes land in the corners: the minima in the bottom-left cell,
      the maxima in the top-right cell (when both ranges are non-zero). */
  lemma ScaledCorners(rng: Range, width: int, height: int)
    requires rng.minX < rng.maxX && rng.minY < rng.maxY
    requires width >= 1 && height >= 1
    ensures ScaledPoint(rng.minX, rng.minY, rng, width, height) == Point(0, height - 1)
    ensures ScaledPoint(rng.maxX, rng.maxY, rng, width, height) == Point(width - 1, 0)
  {
  }

  /** The cells of a series, one per x value, in order. */
  function Points(s: Series, rng: Range, width: int, height: int): (ps: seq<Point>)
    requires |s.xs| <= |s.ys|
    ensures |ps| == |s.xs|
    ensures forall k :: 0 <= k < |ps| ==> ps[k] == ScaledPoint(s.xs[k], s.ys[k], rng, width, height)
  {
    seq(|s.xs|, k requires 0 <= k < |s.xs| => ScaledPoint(s.xs[k], s.ys[k], rng, width, height))
  }

  /** Every cell of every series lies inside a grid of at least one cell
      when the series are scaled by their own range, so no write of the
      scatter chart leaves the grid. */
  lemma SeriesInBounds(data: seq<Series>, width: int, height: int, i: int, k: int)
    requires Aligned(data) && HasData(data)
    requires width >= 1 && height >= 1
    requires 0 <= i < |data| && 0 <= k < |data[i].xs|
    ensures InBounds(Points(data[i], ChartRange(data), width, height)[k], width, height)
  {
    var rng := ChartRange(data);
    assert k < |data[i].ys|;
    ScaledPointInBounds(data[i].xs[k], data[i].ys[k], rng, width, height);
  }

  /** The cells of each series, in series order. */
  function Layers(data: seq<Series>, rng: Range, width: int, height: int): (layers: seq<seq<Point>>)
    requires Aligned(data)
    ensures |layers| == |data|
    ensures forall i :: 0 <= i < |data| ==> layers[i] == Points(data[i], rng, width, height)
  {
    seq(|data|, i requires 0 <= i < |data| && Aligned(data) => Points(data[i], rng, width, height))
  }

  /** The glyph of each series, in series order. */
  function Glyphs(data: seq<Series>): (glyphs: seq<string>)
    ensures |glyphs| == |data|
    ensures forall i :: 0 <= i < |data| ==> glyphs[i] == Glyph(data[i])
  {
    seq(|data|, i requires 0 <= i < |data| => Glyph(data[i]))
  }

  /** The scatter grid: every series' cells drawn in order with the
      series' glyph, later series over earlier ones. */
  function ScatterGrid(data: seq<Series>, rng: Range, width: nat, height: nat): (g: Grid)
    requires Aligned(data)
    ensures IsGrid(g, width, height)
  {
    Layered(Layers(data, rng, width, height), Glyphs(data), width, height, |data|)
  }

  /** A scatter chart: the error line when there is no data, else the framed
      chart of every series' points, later series drawn over earlier ones. */
  function Scatter(data: seq<Series>, width: int, height: int, fmt: real -> string,
                   title: string, xlabel: string): (out: Rendered)
    requires Aligned(data)
    requires HasData(data) ==> width >= 1 && height >= 1
    ensures out.Failed? <==> !HasData(data)
    ensures out.Failed? ==> out.message == EmptyInput
    ensures out.Chart? ==>
              var grid := ScatterGrid(data, ChartRange(data), width, height);
              IsGrid(grid, width, height)
              && out.lines == Compose(grid, width, height, ChartRange(data), fmt, title, xlabel)
  {
    if !HasData(data) then Failed(EmptyInput)
    else
      var rng := ChartRange(data);
      Chart(Compose(ScatterGrid(data, rng, width, height), width, height, rng, fmt, title, xlabel))
  }

  /** Every point of every series lies inside the grid, is a cell of that
      series' layer, and in the scatter grid shows the series' glyph or that
      of a later series sharing the cell. */
  lemma ScatterShowsEveryPoint(data: seq<Series>, width: nat, height: nat, i: int, k: int)
    requires Aligned(data) && HasData(data)
    requires width >= 1 && height >= 1
    requires 0 <= i < |data| && 0 <= k < |data[i].xs|
    ensures
      var rng := ChartRange(data);
      var p := Points(data[i], rng, width, height)[k];
      && InBounds(p, width, height)
      && p in Layers(data, rng, width, height)[i]
      && DrawnBy(ScatterGrid(data, rng, width, height)[p.y][p.x], data, i, |data|)
  {
    var rng := ChartRange(data);
    SeriesInBounds(data, width, height, i, k);
    var layers := Layers(data, rng, width, height);
    var p := layers[i][k];
    assert p in layers[i];
    LayeredShows(layers, Glyphs(data), width, height, i, p);
    var o := Owner(layers, p, |layers|);
    assert ScatterGrid(data, rng, width, height)[p.y][p.x] == Glyph(data[o.value]);
  }

  /** `cell` holds the glyph of one of the series `from .. to - 1`. */
  predicate DrawnBy(cell: string, data: seq<Series>, from: int, to: int)
  {
    exists j :: from <= j < to && 0 <= j < |data| && cell == Glyph(data[j])
  }

  /** Every cell is blank or shows the glyph of one of the first `n` series. */
  predicate Painted(grid: Grid, data: seq<Series>, n: int, width: nat, height: nat)
    requires IsGrid(grid, width, height)
  {
    forall r, c :: 0 <= r < height && 0 <= c < width ==> grid[r][c] == " " || DrawnBy(grid[r][c], data, 0, n)
  }

  /** Every in-bounds vertex of each of the first `n` series that has a
      segment (two points or more) shows that series' glyph or a later one's. */
  predicate VerticesShown(grid: Grid, data: seq<Series>, rng: Range, n: int, width: nat, height: nat)
    requires IsGrid(grid, width, height) && Aligned(data) && n <= |data|
  {
    forall i, k :: 0 <= i < n && 2 <= |data[i].xs| && 0 <= k < |data[i].xs| ==>
      var p := Points(data[i], rng, width, height)[k];
      InBounds(p, width, height) ==> DrawnBy(grid[p.y][p.x], data, i, n)
  }

  /** The cells each series' polyline covers, given the walks of its
      segments. */
  function Strokes(segments: seq<seq<seq<Point>>>): (layers: seq<seq<Point>>)
    ensures |layers| == |segments|
    ensures forall i :: 0 <= i < |segments| ==> layers[i] == Flatten(segments[i])
  {
    seq(|segments|, i requires 0 <= i < |segments| => Flatten(segments[i]))
  }

  /** Segment walks `segments[i]` are series `i`'s polyline, for every
      series drawn so far. */
  predicate Traced(data: seq<Series>, rng: Range, width: nat, height: nat, segments: seq<seq<seq<Point>>>)
    requires Aligned(data)
  {
    |segments| <= |data| && forall i :: 0 <= i < |segments| ==> Polyline(Points(data[i], rng, width, height), segments[i])
  }

  /** One more series' segment walks add one more stroke. */
  lemma StrokesSnoc(segments: seq<seq<seq<Point>>>, paths: seq<seq<Point>>)
    ensures Strokes(segments + [paths]) == Strokes(segments) + [Flatten(paths)]
  {
    var a, b := Strokes(segments + [paths]), Strokes(segments) + [Flatten(paths)];
    forall i | 0 <= i < |a| ensures a[i] == b[i] {
      if i < |segments| {
        assert (segments + [paths])[i] == segments[i];
      }
    }
  }

  /** The glyphs of the first `n + 1` series, and of all of them. */
  lemma GlyphsPrefix(data: seq<Series>, n: int)
    requires 0 <= n <= |data|
    ensures n < |data| ==> Glyphs(data)[..n + 1] == Glyphs(data)[..n] + [Glyph(data[n])]
    ensures n == |data| ==> Glyphs(data)[..n] == Glyphs(data)
  {
    if n < |data| {
      assert Glyphs(data)[..n + 1] == Glyphs(data)[..n] + [Glyphs(data)[n]];
    }
  }

  /** Tracing series `|segments|`'s polyline traces one more series. */
  lemma TracedSnoc(data: seq<Series>, rng: Range, width: nat, height: nat, segments: seq<seq<seq<Point>>>,
                   paths: seq<seq<Point>>)
    requires Aligned(data) && |segments| < |data|
    requires Traced(data, rng, width, height, segments)
    requires Polyline(Points(data[|segments|], rng, width, height), paths)
    ensures Traced(data, rng, width, height, segments + [paths])
  {
    var ss := segments + [paths];
    forall i | 0 <= i < |ss| ensures Polyline(Points(data[i], rng, width, height), ss[i]) {
      if i < |segments| {
        assert ss[i] == segments[i];
      }
    }
  }

  /** Drawing series `n`'s polyline over the grid of the first `n` series
      gives the grid of the first `n + 1`. */
  lemma LineStep(data: seq<Series>, width: nat, height: nat, segments: seq<seq<seq<Point>>>,
                 paths: seq<seq<Point>>, before: Grid, after: Grid)
    requires |segments| < |data|
    requires before == Layered(Strokes(segments), Glyphs(data)[..|segments|], width, height, |segments|)
    requires after == Plot(before, width, height, Flatten(paths), Glyph(data[|segments|]))
    ensures after == Layered(Strokes(segments + [paths]), Glyphs(data)[..|segments| + 1], width, height, |segments| + 1)
  {
    var n := |segments|;
    StrokesSnoc(segments, paths);
    GlyphsPrefix(data, n);
    LayeredSnoc(Strokes(segments), Glyphs(data)[..n], Flatten(paths), Glyph(data[n]), width, height);
  }

  /** Every cell of a layered drawing of the series is blank or one of their glyphs. */
  lemma LayeredPainted(data: seq<Series>, layers: seq<seq<Point>>, width: nat, height: nat)
    requires |layers| == |data|
    ensures Painted(Layered(layers, Glyphs(data), width, height, |data|), data, |data|, width, height)
  {
    var grid := Layered(layers, Glyphs(data), width, height, |data|);
    forall r, c | 0 <= r < height && 0 <= c < width
      ensures grid[r][c] == " " || DrawnBy(grid[r][c], data, 0, |data|)
    {
      var o := Owner(layers, Point(c, r), |data|);
      if o.Some? {
        assert grid[r][c] == Glyph(data[o.value]);
      }
    }
  }

  /** One in-grid vertex of series `i` shows series `i`'s glyph or a later one's. */
  lemma LineVertexShown(data: seq<Series>, points: seq<Point>, segments: seq<seq<seq<Point>>>, width: nat, height: nat,
                        i: int, k: int)
    requires |segments| == |data| && 0 <= i < |data|
    requires Polyline(points, segments[i]) && 2 <= |points| && 0 <= k < |points|
    requires InBounds(points[k], width, height)
    ensures var grid := Layered(Strokes(segments), Glyphs(data), width, height, |data|);
            IsGrid(grid, width, height) && DrawnBy(grid[points[k].y][points[k].x], data, i, |data|)
  {
    var layers, glyphs := Strokes(segments), Glyphs(data);
    var p := points[k];
    PolylineVertices(points, segments[i], k);
    LayeredShows(layers, glyphs, width, height, i, p);
    var o := Owner(layers, p, |layers|);
    assert Layered(layers, glyphs, width, height, |data|)[p.y][p.x] == Glyph(data[o.value]);
  }

  /** In the line chart's drawing, every in-grid vertex of a series with a
      segment shows that series' glyph or a later series' one. */
  lemma LineVerticesShown(data: seq<Series>, rng: Range, segments: seq<seq<seq<Point>>>, width: nat, height: nat)
    requires Aligned(data) && |segments| == |data|
    requires forall i :: 0 <= i < |data| ==> Polyline(Points(data[i], rng, width, height), segments[i])
    ensures VerticesShown(Layered(Strokes(segments), Glyphs(data), width, height, |data|), data, rng, |data|, width, height)
  {
    var grid := Layered(Strokes(segments), Glyphs(data), width, height, |data|);
    forall i, k | 0 <= i < |data| && 2 <= |data[i].xs| && 0 <= k < |data[i].xs|
                  && InBounds(Points(data[i], rng, width, height)[k], width, height)
      ensures var p := Points(data[i], rng, width, height)[k];
              DrawnBy(grid[p.y][p.x], data, i, |data|)
    {
      LineVertexShown(data, Points(data[i], rng, width, height), segments, width, height, i, k);
    }
  }

  /** What the finished drawing loop of `LineChart` establishes. */
  lemma LineChartDone(data: seq<Series>, rng: Range, width: nat, height: nat, segments: seq<seq<seq<Point>>>,
                      grid: Grid)
    requires Aligned(data) && |segments| == |data|
    requires Traced(data, rng, width, height, segments)
    requires grid == Layered(Strokes(segments), Glyphs(data)[..|data|], width, height, |data|)
    ensures forall i :: 0 <= i < |data| ==> Polyline(Points(data[i], rng, width, height), segments[i])
    ensures grid == Layered(Strokes(segments), Glyphs(data), width, height, |data|)
    ensures IsGrid(grid, width, height)
    ensures Painted(grid, data, |data|, width, height)
    ensures VerticesShown(grid, data, rng, |data|, width, height)
  {
    GlyphsPrefix(data, |data|);
    LayeredPainted(data, Strokes(segments), width, height);
    LineVerticesShown(data, rng, segments, width, height);
  }

  /** A line chart: the error line when there is no data, else the framed
      chart in which each series joins its consecutive points with
      `plot_line` segments, later series drawn over earlier ones. Also
      returns the plot grid and, as a ghost, the walks of every series'
      segments. */
  method LineChart(data: seq<Series>, width: nat, height: nat, fmt: real -> string,
                   title: string, xlabel: string)
    returns (out: Rendered, grid: Grid, ghost segments: seq<seq<seq<Point>>>)
    requires Aligned(data)
    ensures out.Failed? <==> !HasData(data)
    ensures out.Failed? ==> out.message == EmptyInput
    ensures out.Chart? ==> |segments| == |data|
    ensures out.Chart? ==>
              forall i :: 0 <= i < |data| ==> Polyline(Points(data[i], ChartRange(data), width, height), segments[i])
    ensures out.Chart? ==> grid == Layered(Strokes(segments), Glyphs(data), width, height, |data|)
    ensures out.Chart? ==> IsGrid(grid, width, height)
    ensures out.Chart? ==> out.lines == Compose(grid, width, height, ChartRange(data), fmt, title, xlabel)
    ensures out.Chart? ==> Painted(grid, data, |data|, width, height)
    ensures out.Chart? ==> VerticesShown(grid, data, ChartRange(data), |data|, width, height)
  {
    segments := [];
    if !HasData(data) {
      return Failed(EmptyInput), [], segments;
    }
    var rng := ChartRange(data);
    grid := Blank(width, height);
    var n := 0;
    while n < |data|
      invariant n == |segments| && Traced(data, rng, width, height, segments)
      invariant grid == Layered(Strokes(segments), Glyphs(data)[..n], width, height, n)
    {
      ghost var before := grid;
      ghost var paths;
      grid, paths := DrawPolyline(grid, width, height, Points(data[n], rng, width, height), Glyph(data[n]));
      LineStep(data, width, height, segments, paths, before, grid);
      TracedSnoc(data, rng, width, height, segments, paths);
      segments := segments + [paths];
      n := n + 1;
    }
    LineChartDone(data, rng, width, height, segments, grid);
    out := Chart(Compose(grid, width, height, rng, fmt, title, xlabel));
  }
}
