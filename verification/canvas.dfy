/**
 The grid canvas: `height` rows of `width` cells, each cell holding one
 rendered glyph (a string, since a glyph may carry colour escape codes).
 Row 0 is the top row; a point `(x, y)` addresses row `y`, column `x`.
 */
module Canvas {
  import opened Optional

  type Grid = seq<seq<string>>

  /** A grid coordinate: `x` is the column, `y` the row. */
  datatype Point = Point(x: int, y: int)

  predicate IsGrid(g: Grid, width: int, height: int)
  {
    && |g| == height
    && forall r :: 0 <= r < |g| ==> |g[r]| == width
  }

  predicate InBounds(p: Point, width: int, height: int)
  {
    0 <= p.y < height && 0 <= p.x < width
  }

  /** `[[' ' for _ in range(width)] for _ in range(height)]`. */
  function Blank(width: nat, height: nat): (g: Grid)
    ensures IsGrid(g, width, height)
    ensures forall r, c :: 0 <= r < height && 0 <= c < width ==> g[r][c] == " "
  {
    seq(height, _ => seq(width, _ => " "))
  }

  /** `grid[p.y][p.x] = glyph`: exactly one cell changes. */
  function Put(g: Grid, p: Point, glyph: string): (g': Grid)
    requires 0 <= p.y < |g| && 0 <= p.x < |g[p.y]|
    ensures |g'| == |g|
    ensures forall r :: 0 <= r < |g| ==> |g'[r]| == |g[r]|
    ensures forall r, c :: 0 <= r < |g| && 0 <= c < |g[r]| ==>
              g'[r][c] == if Point(c, r) == p then glyph else g[r][c]
  {
    g[p.y := g[p.y][p.x := glyph]]
  }

  /** Writes `glyph` at each point in turn, skipping points outside the grid
      (the line rasterizer's guard; the scatter loop's points always lie
      inside, so there the guard never skips). */
  function Plot(g: Grid, width: int, height: int, points: seq<Point>, glyph: string): (g': Grid)
    requires IsGrid(g, width, height)
    ensures IsGrid(g', width, height)
    ensures forall r, c :: 0 <= r < height && 0 <= c < width ==>
              g'[r][c] == if Point(c, r) in points then glyph else g[r][c]
    decreases |points|
  {
    if points == [] then g
    else
      var init := points[..|points| - 1];
      var last := points[|points| - 1];
      assert points == init + [last];
      var g0 := Plot(g, width, height, init, glyph);
      if InBounds(last, width, height) then
        assert |g0[last.y]| == width;
        Put(g0, last, glyph)
      else
        g0
  }

  /** Plotting one more point is one more guarded write. */
  lemma PlotSnoc(g: Grid, width: int, height: int, points: seq<Point>, p: Point, glyph: string)
    requires IsGrid(g, width, height)
    ensures
      var g0 := Plot(g, width, height, points, glyph);
      Plot(g, width, height, points + [p], glyph)
        == if InBounds(p, width, height) then Put(g0, p, glyph) else g0
  {
    assert (points + [p])[..|points|] == points;
  }

  /** Plotting `a` and then `b` is plotting `a + b`. */
  lemma {:induction false} PlotAppend(g: Grid, width: int, height: int, a: seq<Point>, b: seq<Point>, glyph: string)
    requires IsGrid(g, width, height)
    ensures Plot(g, width, height, a + b, glyph) == Plot(Plot(g, width, height, a, glyph), width, height, b, glyph)
    decreases |b|
  {
    if b == [] {
      assert a + b == a;
    } else {
      var init, p := b[..|b| - 1], b[|b| - 1];
      assert b == init + [p];
      assert a + b == (a + init) + [p];
      PlotAppend(g, width, height, a, init, glyph);
      PlotSnoc(g, width, height, a + init, p, glyph);
      PlotSnoc(Plot(g, width, height, a, glyph), width, height, init, p, glyph);
    }
  }

  /** The last of the first `n` layers (if any) with a cell at `p`: the
      one whose glyph a later-wins drawing of the layers leaves there. */
  function Owner(layers: seq<seq<Point>>, p: Point, n: nat): (o: Option<nat>)
    requires n <= |layers|
    ensures o.Some? ==> o.value < n && p in layers[o.value]
    ensures o.Some? ==> forall j :: o.value < j < n ==> p !in layers[j]
    ensures o.None? ==> forall j :: 0 <= j < n ==> p !in layers[j]
  {
    if n == 0 then None
    else if p in layers[n - 1] then Some(n - 1)
    else Owner(layers, p, n - 1)
  }

  /** The cell contents a drawing leaves given the owner of the cell. */
  function OwnerGlyph(glyphs: seq<string>, o: Option<nat>): string
  {
    if o.Some? && o.value < |glyphs| then glyphs[o.value] else " "
  }

  /** One cell of `LayerNext`: layer `n - 1` takes the cell when it has a
      point there, and the cell keeps its owner among the first `n - 1`
      layers otherwise. */
  lemma LayerNextCell(layers: seq<seq<Point>>, glyphs: seq<string>, width: nat, height: nat, n: nat,
                      prev: Grid, r: int, c: int)
    requires |glyphs| == |layers| && 0 < n <= |layers|
    requires IsGrid(prev, width, height)
    requires 0 <= r < height && 0 <= c < width
    requires prev[r][c] == OwnerGlyph(glyphs, Owner(layers, Point(c, r), n - 1))
    ensures Plot(prev, width, height, layers[n - 1], glyphs[n - 1])[r][c]
            == OwnerGlyph(glyphs, Owner(layers, Point(c, r), n))
  {
    var p := Point(c, r);
    var g := Plot(prev, width, height, layers[n - 1], glyphs[n - 1]);
    assert g[r][c] == if p in layers[n - 1] then glyphs[n - 1] else prev[r][c];
  }

  /** Drawing layer `n - 1` over the grid of the first `n - 1` layers gives
      the grid of the first `n`: later layers win. */
  lemma LayerNext(layers: seq<seq<Point>>, glyphs: seq<string>, width: nat, height: nat, n: nat, prev: Grid)
    requires |glyphs| == |layers| && 0 < n <= |layers|
    requires IsGrid(prev, width, height)
    requires forall r, c :: 0 <= r < height && 0 <= c < width ==>
               prev[r][c] == OwnerGlyph(glyphs, Owner(layers, Point(c, r), n - 1))
    ensures forall r, c :: 0 <= r < height && 0 <= c < width ==>
              Plot(prev, width, height, layers[n - 1], glyphs[n - 1])[r][c]
              == OwnerGlyph(glyphs, Owner(layers, Point(c, r), n))
  {
    forall r, c | 0 <= r < height && 0 <= c < width
      ensures Plot(prev, width, height, layers[n - 1], glyphs[n - 1])[r][c]
              == OwnerGlyph(glyphs, Owner(layers, Point(c, r), n))
    {
      LayerNextCell(layers, glyphs, width, height, n, prev, r, c);
    }
  }

  /** The grid after the first `n` layers have been drawn in order, each
      with its own glyph: every cell shows the glyph of its owner, or stays
      blank when no layer reaches it. */
  function Layered(layers: seq<seq<Point>>, glyphs: seq<string>, width: nat, height: nat, n: nat): (g: Grid)
    requires |glyphs| == |layers| && n <= |layers|
    ensures IsGrid(g, width, height)
    ensures forall r, c :: 0 <= r < height && 0 <= c < width ==>
              g[r][c] == OwnerGlyph(glyphs, Owner(layers, Point(c, r), n))
  {
    if n == 0 then Blank(width, height)
    else
      var prev := Layered(layers, glyphs, width, height, n - 1);
      LayerNext(layers, glyphs, width, height, n, prev);
      Plot(prev, width, height, layers[n - 1], glyphs[n - 1])
  }

  /** A cell of layer `i` inside the grid shows, once every layer is drawn,
      the glyph of layer `i` or of a later layer that also reaches it. */
  lemma LayeredShows(layers: seq<seq<Point>>, glyphs: seq<string>, width: nat, height: nat, i: int, p: Point)
    requires |glyphs| == |layers| && 0 <= i < |layers|
    requires p in layers[i] && InBounds(p, width, height)
    ensures
      var o := Owner(layers, p, |layers|);
      && o.Some? && i <= o.value
      && Layered(layers, glyphs, width, height, |layers|)[p.y][p.x] == glyphs[o.value]
  {
  }

  /** The grid of the first `n` layers depends on those layers and their
      glyphs only. */
  lemma {:induction false} LayeredPrefix(layers: seq<seq<Point>>, glyphs: seq<string>,
                                         layers': seq<seq<Point>>, glyphs': seq<string>,
                                         width: nat, height: nat, n: nat)
    requires |glyphs| == |layers| && |glyphs'| == |layers'| && n <= |layers| && n <= |layers'|
    requires layers[..n] == layers'[..n] && glyphs[..n] == glyphs'[..n]
    ensures Layered(layers, glyphs, width, height, n) == Layered(layers', glyphs', width, height, n)
  {
    if n > 0 {
      assert layers[n - 1] == layers[..n][n - 1] && layers'[n - 1] == layers'[..n][n - 1];
      assert glyphs[n - 1] == glyphs[..n][n - 1] && glyphs'[n - 1] == glyphs'[..n][n - 1];
      assert layers[..n - 1] == layers[..n][..n - 1] && layers'[..n - 1] == layers'[..n][..n - 1];
      assert glyphs[..n - 1] == glyphs[..n][..n - 1] && glyphs'[..n - 1] == glyphs'[..n][..n - 1];
      LayeredPrefix(layers, glyphs, layers', glyphs', width, height, n - 1);
    }
  }

  /** Drawing one more layer over the grid of the earlier ones is the grid
      of all of them. */
  lemma LayeredSnoc(layers: seq<seq<Point>>, glyphs: seq<string>, layer: seq<Point>, glyph: string,
                    width: nat, height: nat)
    requires |glyphs| == |layers|
    ensures Layered(layers + [layer], glyphs + [glyph], width, height, |layers| + 1)
            == Plot(Layered(layers, glyphs, width, height, |layers|), width, height, layer, glyph)
  {
    var n := |layers|;
    assert (layers + [layer])[..n] == layers[..n] && (glyphs + [glyph])[..n] == glyphs[..n];
    LayeredPrefix(layers + [layer], glyphs + [glyph], layers, glyphs, width, height, n);
  }
}
