/**
 The frame composer of the scatter and line charts: title, bordered rows
 with the y-label margin, the x-label line and the x-axis caption, in the
 order the chart prints them.
 */
module Frame {
  import opened Text
  import opened Canvas
  import opened Ticks
  import opened Axes

  /** The outcome of a chart call: the printed lines, or the one error line
      printed instead. */
  datatype Rendered = Chart(lines: seq<string>) | Failed(message: string)

  /** The error line of every chart given no data. */
  const EmptyInput := "Error: Input data cannot be empty."

  /** `'+' + '-' * n + '+'`. */
  function Border(n: int): (b: string)
    ensures |b| == Max(n, 0) + 2
    ensures b[0] == '+' && b[|b| - 1] == '+'
    ensures forall i :: 0 < i < |b| - 1 ==> b[i] == '-'
  {
    "+" + Repeat('-', n) + "+"
  }

  /** `'|' + ''.join(row) + '|'`. */
  function Framed(row: Row): string
  {
    "|" + Concat(row) + "|"
  }

  /** A framed row of one-character cells is two characters wider than the
      row, with the cells between the bars in order. */
  lemma FramedWidth(row: Row)
    requires SingleChars(row)
    ensures |Framed(row)| == |row| + 2
    ensures Framed(row)[0] == '|' && Framed(row)[|row| + 1] == '|'
    ensures forall k :: 0 <= k < |row| ==> Framed(row)[k + 1] == row[k][0]
  {
    ConcatSingleChars(row);
  }

  /** `f"\n{title.center(w)}\n"` when a title is given (an empty title counts
      as none, as in Python's truthiness test). */
  function TitleLines(title: string, w: int): seq<string>
  {
    if title != "" then ["\n" + Center(title, w) + "\n"] else []
  }

  /** `f"\n{xlabel.center(w)}"` when an x-axis caption is given. */
  function CaptionLines(xlabel: string, w: int): seq<string>
  {
    if xlabel != "" then ["\n" + Center(xlabel, w)] else []
  }

  /** The data range of a chart: the extremes over every series. */
  datatype Range = Range(minX: real, maxX: real, minY: real, maxY: real)

  /** The y-label margin of a chart. */
  function Margin(rng: Range, fmt: real -> string): nat
  {
    LabelWidth(fmt, rng.maxY)
  }

  /** Display row `r` of a plotted grid. */
  function GridRow(grid: Grid, width: nat, height: nat, rng: Range, fmt: real -> string, r: int): Row
    requires IsGrid(grid, width, height) && 0 <= r < height
  {
    DisplayRow(grid[r], Margin(rng, fmt), IsTick(r, height),
               fmt(RowValue(r, rng.minY, rng.maxY - rng.minY, height)))
  }

  /** The x-label line of a chart. */
  function XLine(width: nat, rng: Range, fmt: real -> string): Row
  {
    XLabels(width, width, Margin(rng, fmt), c => fmt(ColumnValue(c, rng.minX, rng.maxX - rng.minX, width)))
  }

  /** The framed display rows of a plotted grid, top row first. */
  function FramedRows(grid: Grid, width: nat, height: nat, rng: Range, fmt: real -> string): (rows: seq<string>)
    requires IsGrid(grid, width, height)
    ensures |rows| == height
    ensures forall r :: 0 <= r < height ==> rows[r] == Framed(GridRow(grid, width, height, rng, fmt, r))
  {
    seq(height, r requires 0 <= r < height => Framed(GridRow(grid, width, height, rng, fmt, r)))
  }

  /** The print order of a framed chart: title lines, top border, rows,
      bottom border, x-label line, caption lines and a final newline line. */
  function Assemble(titles: seq<string>, border: string, rows: seq<string>, xline: string,
                    captions: seq<string>): seq<string>
  {
    titles + [border] + rows + [border] + [xline] + captions + ["\n"]
  }

  /** Where each part of an assembled chart lands. */
  lemma AssembleLayout(titles: seq<string>, border: string, rows: seq<string>, xline: string,
                       captions: seq<string>)
    ensures
      var lines := Assemble(titles, border, rows, xline, captions);
      var t := |titles|;
      && |lines| == t + |rows| + 4 + |captions|
      && (forall i :: 0 <= i < t ==> lines[i] == titles[i])
      && lines[t] == border && lines[t + |rows| + 1] == border
      && lines[t + |rows| + 2] == xline
      && lines[|lines| - 1] == "\n"
      && (forall r :: 0 <= r < |rows| ==> lines[t + 1 + r] == rows[r])
  {
    var lines := Assemble(titles, border, rows, xline, captions);
    var t := |titles|;
    forall r | 0 <= r < |rows| ensures lines[t + 1 + r] == rows[r] {
      assert lines[t + 1 + r] == (titles + [border] + rows)[t + 1 + r];
    }
  }

  /** One line for a given (non-empty) title or caption, none otherwise. */
  function Lead(text: string): nat
  {
    if text != "" then 1 else 0
  }

  /** The output lines of a scatter or line chart drawn on `grid`. */
  function Compose(grid: Grid, width: nat, height: nat, rng: Range, fmt: real -> string,
                   title: string, xlabel: string): seq<string>
    requires IsGrid(grid, width, height)
  {
    var w := width + Margin(rng, fmt);
    Assemble(TitleLines(title, width), Border(w), FramedRows(grid, width, height, rng, fmt),
             Concat(XLine(width, rng, fmt)), CaptionLines(xlabel, w))
  }

  /** The layout of a composed chart: the optional title line, a border,
      the display rows (see `ComposeRows`), a second border, the x-label
      line, the optional caption and a closing newline line. */
  lemma ComposeLayout(grid: Grid, width: nat, height: nat, rng: Range, fmt: real -> string,
                      title: string, xlabel: string)
    requires IsGrid(grid, width, height)
    ensures |Compose(grid, width, height, rng, fmt, title, xlabel)| == Lead(title) + height + 4 + Lead(xlabel)
    ensures title != "" ==> Compose(grid, width, height, rng, fmt, title, xlabel)[0] == "\n" + Center(title, width) + "\n"
    ensures Compose(grid, width, height, rng, fmt, title, xlabel)[Lead(title)] == Border(width + Margin(rng, fmt))
    ensures Compose(grid, width, height, rng, fmt, title, xlabel)[Lead(title) + height + 1] == Border(width + Margin(rng, fmt))
    ensures Compose(grid, width, height, rng, fmt, title, xlabel)[Lead(title) + height + 2] == Concat(XLine(width, rng, fmt))
    ensures xlabel != "" ==> Compose(grid, width, height, rng, fmt, title, xlabel)[Lead(title) + height + 3] == "\n" + Center(xlabel, width + Margin(rng, fmt))
    ensures Compose(grid, width, height, rng, fmt, title, xlabel)[Lead(title) + height + 3 + Lead(xlabel)] == "\n"
  {
    var w := width + Margin(rng, fmt);
    var captions := CaptionLines(xlabel, w);
    var rows := FramedRows(grid, width, height, rng, fmt);
    var xline := Concat(XLine(width, rng, fmt));
    AssembleLayout(TitleLines(title, width), Border(w), rows, xline, captions);
    var t := Lead(title);
    assert t == |TitleLines(title, width)|;
    var lines := Compose(grid, width, height, rng, fmt, title, xlabel);
    if xlabel != "" {
      assert lines == (TitleLines(title, width) + [Border(w)] + rows + [Border(w)] + [xline]) + captions + ["\n"];
      assert lines[t + height + 3] == captions[0];
    }
  }

  /** Row `r` of an assembled chart sits right after the title lines and
      the top border. */
  lemma AssembleRow(titles: seq<string>, border: string, rows: seq<string>, xline: string,
                    captions: seq<string>, r: int)
    requires 0 <= r < |rows|
    ensures |titles| + 1 + r < |Assemble(titles, border, rows, xline, captions)|
    ensures Assemble(titles, border, rows, xline, captions)[|titles| + 1 + r] == rows[r]
  {
    var lines := Assemble(titles, border, rows, xline, captions);
    assert lines == (titles + [border] + rows) + ([border] + [xline] + captions + ["\n"]);
    assert (titles + [border] + rows)[|titles| + 1 + r] == rows[r];
  }

  /** Between the borders, line `Lead(title) + 1 + r` of a composed chart is
      grid row `r` framed with its y-label margin. */
  lemma ComposeRows(grid: Grid, width: nat, height: nat, rng: Range, fmt: real -> string,
                    title: string, xlabel: string, r: int)
    requires IsGrid(grid, width, height) && 0 <= r < height
    ensures Lead(title) + 1 + r < |Compose(grid, width, height, rng, fmt, title, xlabel)|
    ensures Compose(grid, width, height, rng, fmt, title, xlabel)[Lead(title) + 1 + r]
            == Framed(GridRow(grid, width, height, rng, fmt, r))
  {
    var w := width + Margin(rng, fmt);
    var titles := TitleLines(title, width);
    var rows := FramedRows(grid, width, height, rng, fmt);
    var lines := Assemble(titles, Border(w), rows, Concat(XLine(width, rng, fmt)), CaptionLines(xlabel, w));
    AssembleRow(titles, Border(w), rows, Concat(XLine(width, rng, fmt)), CaptionLines(xlabel, w), r);
    assert Lead(title) == |titles|;
    assert Compose(grid, width, height, rng, fmt, title, xlabel) == lines;
    assert rows[r] == Framed(GridRow(grid, width, height, rng, fmt, r));
  }

  /** When every plot cell of a row is a single character (a marker without
      colour), its framed display line is exactly as wide as the borders,
      `width + margin + 2` characters. */
  lemma FramedRowWidth(grid: Grid, width: nat, height: nat, rng: Range, fmt: real -> string, r: int)
    requires IsGrid(grid, width, height) && 0 <= r < height
    requires SingleChars(grid[r])
    ensures |Framed(GridRow(grid, width, height, rng, fmt, r))| == |Border(width + Margin(rng, fmt))|
  {
    var row := GridRow(grid, width, height, rng, fmt, r);
    var m := Margin(rng, fmt);
    assert SingleChars(row) by {
      forall k | 0 <= k < |row| ensures |row[k]| == 1 {
        if k >= m {
          assert row[(k - m) + m] == grid[r][k - m];
        }
      }
    }
    FramedWidth(row);
  }
}
