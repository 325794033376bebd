# termatplotlib grid renderer, modelled in Dafny

termatplotlib draws charts as text in a terminal. This project models the
part that turns data into lines of text. It covers the horizontal bar
chart, the scatter chart, the line chart and the histogram.

- **Bar chart.** Each label is padded to the longest label and followed by a
  ` | ` separator. Then comes a bar of `█` scaled so that the largest value
  fills the width left over, then the value.
- **Scatter chart.** Each `(x, y)` pair is mapped linearly onto a
  `width × height` grid, with rows flipped so that larger values sit higher.
  Each series writes its glyph, and later series win a shared cell.
- **Line chart.** Consecutive mapped points are joined with Bresenham's
  all-octant line algorithm. Only cells inside the grid are written.
- **Frame.** Both grid charts are framed the same way:
  - a title;
  - a `+---+` border;
  - the rows, each prefixed by a y-label margin, with a label on tick rows
    only (about five ticks plus both ends);
  - a second border;
  - an x-label line, where a label is written only if it ends before the
    line does;
  - an x-axis caption and a closing newline line.
- **Histogram.** There are `bins` equal-width bins between the data's minimum
  and maximum. The maximum goes into the last bin, and any other value into
  the first bin whose half-open interval holds it. Each height level gets one
  text row, top level first, and a bin shows its glyph while its scaled count
  exceeds the level. A dashed rule and a line of left bin edges follow.

Each chart is a function or method that returns the printed lines, or the
single error line the source prints instead:

- `BarChart.Bar` and `XYChart.Scatter` return a `Frame.Rendered`.
- `XYChart.LineChart` returns a `Frame.Rendered` plus the plot grid.
- `Histogram.Hist` returns a sequence of lines.

Numbers are `real`. Python's `int()` on a float is `Scale.Trunc`, which
truncates toward zero. Number formatting (`f"{v:.1f}"` and `str(value)`) is an
opaque function parameter. The Python string operations the renderer uses are
modelled with CPython's rules in module `Text`:

- `*` by a negative count;
- `[:n]` with a negative bound;
- `ljust`, `rjust` and `center`, including CPython's choice of the left
  margin.

Modules:

- `Text`: string helpers.
- `Optional`: `None` as `Option`.
- `Colors`: the colour table and glyph decoration.
- `Scale`: the value-to-index map, minimum and maximum.
- `Canvas`: grids, cell writes, drawing layered point sets.
- `Raster`: `plot_line` and the polyline loop.
- `RasterFacts`: what follows for diagonal and horizontal segments.
- `Ticks`: tick selection.
- `Axes`: row and column values, the y-label margin, the x-label line.
- `Frame`: the assembled frame of the grid charts.
- `XYChart`: the scatter and line charts.
- `Histogram`: the histogram.
- `BarChart`: the bar chart.

## Model

| member | source | states |
|---|---|---|
| Text.Repeat | termatplotlib/__init__.py:118 | `c * n` has `max(n, 0)` characters, all equal to `c` |
| Text.Prefix | termatplotlib/__init__.py:363 | `s[:n]` is a prefix of `s` of length `min(n, len(s))`; a negative `n` drops `-n` characters from the end |
| Text.LJust | termatplotlib/__init__.py:45 | `ljust` never shortens: it keeps `s` in front and pads with blanks to `max(w, len(s))` |
| Text.RJust | termatplotlib/__init__.py:40 | `rjust` keeps `s` at the end and pads with blanks in front to `max(w, len(s))` |
| Text.Center | termatplotlib/__init__.py:22 | `center` leaves `s` alone when `w <= len(s)`; otherwise `s` sits at CPython's left margin between blank paddings that differ by at most one |
| Text.ConcatSingleChars | termatplotlib/__init__.py:120 | joining one-character cells yields one character per cell, in order |
| Text.ConcatSlice | termatplotlib/__init__.py:361-363 | joining `n` cells of width `w` gives `n * w` characters, with cell `i` exactly the slice from `i * w` |
| Colors.Code | termatplotlib/__init__.py:4-14 | `COLORS.get(color, '')` is non-empty exactly for the names in the table, and then it is that name's escape code |
| Colors.DecorateWraps | termatplotlib/__init__.py:92-98 | an unknown or missing colour leaves the marker bare; a known one gives code, then marker, then reset, in that order |
| Colors.Decorate | termatplotlib/__init__.py:92-93 | a marker is written as `color_code + marker + reset_code`, the reset present only with a colour code; `DecorateWraps` states the shape |
| Scale.Trunc | termatplotlib/__init__.py:43 | `int(x)` rounds toward zero: the floor for `x >= 0`, the ceiling below zero |
| Scale.TruncMonotone | termatplotlib/__init__.py:43 | on non-negative values, truncation preserves order |
| Scale.MapIndex | termatplotlib/__init__.py:96-97 | an in-range value maps to an index in `[0, span)`, the minimum to 0 and the maximum to `span - 1`; a zero range maps everything to 0 |
| Scale.MapIndexMonotone | termatplotlib/__init__.py:207-208 | a larger value never maps to a smaller index |
| Scale.FlipRow | termatplotlib/__init__.py:98 | `height - 1 - y_scaled` mirrors the row: a valid index stays valid, and row plus index is `height - 1` |
| Scale.MinOf | termatplotlib/__init__.py:78 | `min` is an element no larger than any other |
| Scale.MaxOf | termatplotlib/__init__.py:79 | `max` is an element no smaller than any other |
| Canvas.Blank | termatplotlib/__init__.py:84 | a `height × width` grid with every cell blank |
| Canvas.Put | termatplotlib/__init__.py:98 | a cell write changes exactly the addressed cell and keeps the grid's shape |
| Canvas.Plot | termatplotlib/__init__.py:193-194 | writing a glyph at each point, skipping points outside the grid, leaves the glyph exactly on the in-grid cells of the points and the rest untouched |
| Canvas.Owner | termatplotlib/__init__.py:86-98 | the owner of a cell is the last of the first `n` layers with a point there; no later layer reaches the cell, and no layer at all when there is none |
| Canvas.Layered | termatplotlib/__init__.py:86-98 | after drawing the layers in order, each cell shows its owner's glyph, or a blank when no layer reaches it |
| Canvas.LayerNext | termatplotlib/__init__.py:86-98 | drawing one more layer over the grid of the earlier ones gives the grid of all of them: later layers win |
| Canvas.LayeredShows | termatplotlib/__init__.py:95-98 | a point of layer `i` inside the grid ends up showing the glyph of layer `i` or of a later layer sharing the cell |
| Canvas.PlotAppend | termatplotlib/__init__.py:211-212 | plotting the points of `a + b` is plotting those of `a` and then those of `b`, so consecutive segments of a polyline compose |
| Canvas.LayeredSnoc | termatplotlib/__init__.py:86-98 | the layered drawing of one more layer is that layer plotted over the drawing of the earlier ones |
| Raster.ErrorStep | termatplotlib/__init__.py:197-203 | each iteration steps along the dominant axis (both on a diagonal) and keeps the error `dx·(j+1) − dy·(i+1)` within the bounds that forbid overshooting either span |
| Raster.TracksAtTarget | termatplotlib/__init__.py:195-196 | the loop stops exactly when both spans are exhausted, and the current cell stays in the segment's bounding box |
| Raster.PlotLine | termatplotlib/__init__.py:185-203 | the cells visited run from `(x0, y0)` to `(x1, y1)`, one per step of the longer span plus one, each an 8-adjacent step toward the end, all inside the bounding box; the new grid is the old one with the glyph written on the visited cells that lie inside it |
| Raster.DrawPolyline | termatplotlib/__init__.py:205-212 | every pair of consecutive points is joined by a `plot_line` walk between them, and the new grid is the old one with the glyph written on exactly the in-grid cells of those walks; fewer than two points draw nothing |
| Raster.PolylineVertices | termatplotlib/__init__.py:211-212 | every point of a series of two or more points lies on one of the segment walks joining them |
| RasterFacts.ColumnsAdvance | termatplotlib/__init__.py:185-203 | when the column span is at least the row span, cell `k` of the segment is exactly `k` columns from its start |
| RasterFacts.HorizontalWalk | termatplotlib/__init__.py:185-203 | a horizontal segment is the run of cells between its ends, in order |
| RasterFacts.DiagonalWalk | termatplotlib/__init__.py:185-203 | a segment with equal spans is the exact diagonal |
| RasterFacts.DiagonalSymmetric | termatplotlib/__init__.py:185-203 | a diagonal segment drawn from either end visits the same cells, in reverse order |
| RasterFacts.MainDiagonal | termatplotlib/__init__.py:185-203 | the segment from `(0, 0)` to `(4, 4)` is the five cells of the main diagonal |
| Ticks.TickStep | termatplotlib/__init__.py:108 | the tick step is at least 1, and on an axis of `n >= 5` cells it is `n // 5`, i.e. the `s` with `5·s ≤ n < 5·s + 5` |
| Ticks.IsTick | termatplotlib/__init__.py:108 | the tick rule `r % step == 0 or r == 0 or r == n - 1`; `TicksAreTickSet` characterises the indices it picks |
| Ticks.TicksAreTickSet | termatplotlib/__init__.py:108 | the per-row tick test selects exactly the on-axis multiples of the step plus the last index |
| Ticks.EndsAndShortAxes | termatplotlib/__init__.py:222 | both ends are always ticks, and on an axis of fewer than five cells every index is |
| Ticks.TickWithinStep | termatplotlib/__init__.py:128 | every index has a tick at most `step - 1` cells before it |
| Ticks.FiveMultiples | termatplotlib/__init__.py:242 | on an axis of five or more cells, the first five multiples of the step are all ticks on the axis |
| Axes.Overlay | termatplotlib/__init__.py:132-133 | copying cells into a row from an offset changes exactly those positions |
| Axes.AxisEndValues | termatplotlib/__init__.py:107 | the value behind the bottom row and the left column is the minimum; on an axis of two or more cells the value behind the top row and the right column is the minimum plus the range. The top row's label shows it; the right column's label is never printed (`LastColumnUnlabelled`) |
| Axes.DisplayRow | termatplotlib/__init__.py:104-116 | a display row is margin plus plot width long, with plot cell `c` at column `c + margin`; the margin holds the label's leading characters on tick rows and blanks elsewhere |
| Axes.XLabels | termatplotlib/__init__.py:123-134 | the x-label line is margin plus width long, blank in the margin and in its last column; any non-blank cell lies inside a written label |
| Axes.Written | termatplotlib/__init__.py:131 | the guard on an x label: a tick column whose label ends strictly before the line does; it never looks at labels already written |
| Axes.LabelCharIntact | termatplotlib/__init__.py:130-133 | one character of a written label survives unless a later written label starts at or before it |
| Axes.LabelIntact | termatplotlib/__init__.py:130-133 | a written label survives whole unless a later written label starts inside it: labels are checked against the line end, not against each other |
| Axes.LastColumnUnlabelled | termatplotlib/__init__.py:131 | the last column's label, if non-empty, is never written |
| Axes.LabelsOverlap | termatplotlib/__init__.py:130-133 | on a 10-column axis with a 5-cell margin, labels `abc` at column 0 and `xyz` at tick column 2 are both written and the second overwrites the first's last character |
| Axes.TidyLabels | termatplotlib/__init__.py:128-133 | the x-label line as the comments describe it: margin plus width long, blank in the margin and after the last placed label, a tick label shifted left to end with the line if need be and skipped if it would overwrite the label before it |
| Axes.TidyEndMonotone | termatplotlib/__init__.py:130-133 | processing more columns never moves the end of the placed labels back |
| Axes.TidyLabelCharIntact | termatplotlib/__init__.py:130-133 | every character of a placed label survives all later columns |
| Axes.TidyLabelIntact | termatplotlib/__init__.py:130-133 | on the finished tidy line every placed label is intact: no label overwrites another |
| Axes.TidyEnds | termatplotlib/__init__.py:128-131 | on the tidy line the first column's label, when it fits, starts at the margin, and the last column's label is placed, ending with the line, whenever the labels before it leave room |
| Frame.Border | termatplotlib/__init__.py:118 | a border is `+`, then `max(n, 0)` dashes, then `+` |
| Frame.FramedWidth | termatplotlib/__init__.py:120 | a framed row of one-character cells is two wider than the row, with the cells between the bars in order |
| Frame.FramedRows | termatplotlib/__init__.py:119-120 | one framed display row per grid row, top row first |
| Frame.ComposeLayout | termatplotlib/__init__.py:64-138 | a grid chart is the optional title line, a border, `height` rows, a border, the x-label line, the optional caption and a closing newline line |
| Frame.ComposeRows | termatplotlib/__init__.py:104-120 | line `title + 1 + r` of a grid chart is grid row `r` framed with its y-label margin |
| Frame.FramedRowWidth | termatplotlib/__init__.py:118-120 | when a row's plot cells are single characters, its framed line is exactly as wide as the borders |
| Frame.Compose | termatplotlib/__init__.py:104-138 | the lines of a grid chart: title, border, framed display rows, border, x-label line and caption; `ComposeLayout` and `ComposeRows` state its layout |
| Text.Flatten | termatplotlib/__init__.py:67-68 | the flattened list holds exactly the values of the parts, and is empty exactly when every part is |
| XYChart.ChartRange | termatplotlib/__init__.py:78-79 | the chart range holds every x and y value and its ends are values of the data |
| XYChart.ScaledPointInBounds | termatplotlib/__init__.py:95-98 | a value pair inside the range lands inside the grid |
| XYChart.ScaledCorners | termatplotlib/__init__.py:96-98 | the minima land in the bottom-left cell and the maxima in the top-right cell |
| XYChart.ScaledPoint | termatplotlib/__init__.py:96-98 | a value pair maps to column `x_scaled` and the flipped row `height - 1 - y_scaled`; `ScaledPointInBounds` and `ScaledCorners` state where it lands |
| XYChart.Glyph | termatplotlib/__init__.py:89-93 | a series' cell text is its marker, `*` by default, decorated with its colour |
| XYChart.SeriesInBounds | termatplotlib/__init__.py:95-98 | no scatter write leaves the grid |
| XYChart.Scatter | termatplotlib/__init__.py:57-144 | the error line is printed exactly when there is no x or no y value; otherwise the chart frames the layered grid of every series |
| XYChart.ScatterShowsEveryPoint | termatplotlib/__init__.py:95-98 | every point of every series lies in the grid, and its cell in the scatter grid shows that series' glyph or the glyph of a later series sharing the cell |
| XYChart.LineStep | termatplotlib/__init__.py:176-212 | drawing series `n`'s polyline over the drawing of the first `n` series gives the layered drawing of the first `n + 1`, the new series over the earlier ones |
| XYChart.LayeredPainted | termatplotlib/__init__.py:176-212 | in the layered drawing of the series every cell is blank or the glyph of one of them |
| XYChart.LineVerticesShown | termatplotlib/__init__.py:205-212 | in the line chart's drawing every in-grid point of a series with a segment shows that series' glyph or a later series' glyph |
| XYChart.LineChart | termatplotlib/__init__.py:147-258 | the error line is printed exactly when there is no data; otherwise each series is a polyline of `plot_line` walks through its mapped points, the grid is the drawing of those polylines in series order with each series' glyph, and the lines frame that grid; so every cell is blank or some series' glyph and every vertex shows its series' glyph or a later one's |
| Histogram.Edges | termatplotlib/__init__.py:325 | `bins + 1` edges, edge `i` at `i` bin widths above the minimum |
| Histogram.EdgesSpan | termatplotlib/__init__.py:323-325 | the edges start at the minimum, end exactly at the maximum and strictly increase |
| Histogram.FindBin | termatplotlib/__init__.py:331-334 | the search finds the first bin whose half-open interval holds the value, or reports that none does |
| Histogram.BinOf | termatplotlib/__init__.py:328-334 | the maximum goes to the last bin; any other value to a bin whose half-open interval holds it, and no bin is found only when no bin holds it |
| Histogram.Bucket | termatplotlib/__init__.py:327-334 | the closed-form bin `floor((x − min) / bin width)` is a valid bin, and the maximum's is the last one |
| Histogram.BucketHolds | termatplotlib/__init__.py:332 | a value below the maximum lies in its bucket's half-open interval |
| Histogram.BinIsBucket | termatplotlib/__init__.py:327-334 | the edge search puts every in-range value in exactly the closed-form bucket, never missing it and never a neighbour |
| Histogram.Tally | termatplotlib/__init__.py:324-334 | counter `i` is the number of values whose bin is `i` |
| Histogram.TallySum | termatplotlib/__init__.py:327-334 | when every value has a bin, the counters add up to the number of values |
| Histogram.MaxCount | termatplotlib/__init__.py:336 | `max(counts)` is a counter no smaller than any other |
| Histogram.EveryValueCounted | termatplotlib/__init__.py:327-339 | binned between its own extremes, every value is counted once, so the largest counter is positive and the "no data points fell into any bin" branch is unreachable |
| Histogram.HiInLastBin | termatplotlib/__init__.py:328-329 | every occurrence of the upper end is counted in the last bin |
| Histogram.MaxInLastBin | termatplotlib/__init__.py:328-329 | binned between its own extremes, the last counter is at least the number of occurrences of the maximum, which is at least one |
| Histogram.FilledIff | termatplotlib/__init__.py:341-350 | a bin shows at level `h` exactly when `count · height > h · max_count` |
| Histogram.Filled | termatplotlib/__init__.py:350 | the test `counts[i] * scale > h` with `scale = height / max_count`; `FilledIff` restates it without division |
| Histogram.BarsGrowFromBottom | termatplotlib/__init__.py:347-350 | a bin shown at some level is shown at every lower level |
| Histogram.TallestAndEmptyBars | termatplotlib/__init__.py:341-350 | the tallest bin shows at every level, and an empty bin at none |
| Histogram.SegmentShape | termatplotlib/__init__.py:350-353 | a bin's cell is one cell width wide: glyph or blank, then blanks |
| Histogram.BarRowLayout | termatplotlib/__init__.py:347-354 | a bar row is `bins` cells wide; bin `i`'s cell starts with the glyph exactly when the bin shows at this level and is blank elsewhere |
| Histogram.BarRow | termatplotlib/__init__.py:348-354 | one text row of the bars at level `h`; `BarRowLayout` states its layout |
| Histogram.Bars | termatplotlib/__init__.py:347 | one bar row per level, the top level first and level 0 last |
| Histogram.LabelCellShape | termatplotlib/__init__.py:363 | an edge label cell is exactly `spacing` characters: the label cut to fit, padded with blanks |
| Histogram.LabelLineLayout | termatplotlib/__init__.py:358-364 | the label line holds the left edge of each bin in its own cell; the maximum edge is never labelled |
| Histogram.Counts | termatplotlib/__init__.py:323-336 | data with a spread yields one counter per bin, adding up to the number of values, with a positive maximum; the last counter holds at least every occurrence of the maximum |
| Histogram.FooterLayout | termatplotlib/__init__.py:357-370 | under the bars: the rule, the edge labels, the optional caption, the `(count)` caption when given, and a newline line |
| Histogram.Footer | termatplotlib/__init__.py:357-370 | the lines under the bars: rule, edge labels, optional caption, optional `(count)` caption, newline; `FooterLayout` states them |
| Histogram.HistChartLayout | termatplotlib/__init__.py:346-370 | a histogram chart is its bar rows (top level first) followed by the footer |
| Histogram.Hist | termatplotlib/__init__.py:307-370 | the title comes first, even before an error; then the empty-data error, the all-equal error, or the chart |
| BarChart.MaxLen | termatplotlib/__init__.py:32 | the label width is the length of some label and no label is longer |
| BarChart.LongestBar | termatplotlib/__init__.py:32-44 | the largest value's bar fills exactly the `max_width − label width − 5` columns left over |
| BarChart.BarsMonotone | termatplotlib/__init__.py:43 | with a non-negative scale, a larger non-negative value never gets a shorter bar |
| BarChart.DoubleBar | termatplotlib/__init__.py:43 | doubling a value doubles its bar, up to one column of truncation |
| BarChart.SeparatorAligned | termatplotlib/__init__.py:45 | every line has its ` \| ` separator at the same columns, and without a colour the bar's blocks follow directly |
| BarChart.BarLine | termatplotlib/__init__.py:43-45 | a bar line is the padded label, ` \| `, the decorated bar of `int(value * scale)` blocks, a blank and the value; `SeparatorAligned` states its layout |
| BarChart.BarLines | termatplotlib/__init__.py:42-45 | one line per label, in order, each built from its own label and value |
| BarChart.Bar | termatplotlib/__init__.py:16-54 | the error line is printed, and an earlier title dropped, exactly when labels or values are empty or their lengths differ |
| BarChart.BarLayout | termatplotlib/__init__.py:20-48 | a bar chart is the optional title, the optional y caption right-justified to the label width, one line per label and the optional x caption |

## Left out

- `pie` (termatplotlib/__init__.py:260-304) is left out. It builds the same kind of blank grid (line 275) and writes `color + '█' + reset` cells taken from the colour table (lines 273, 281, 292), but which cells it fills depends on `atan2` and floating-point angles, and it prints directly.
- Output sinks are left out: printing, `output_file` and the final `"\n".join`. Each chart returns its lines instead.
- Number formatting is left out. `f"{v:.1f}"` and `str(value)` are the parameters `fmt` and `show`. Nothing is assumed about their output, so the y-label margin and the label lengths stay symbolic.
- IEEE floating point is left out: values are exact reals. The "no data points fell into any bin" branch is unreachable either way, since the maximum is always counted in the last bin (lines 328-329). What depends on exact reals is that every other value finds its bin, so that the counters add up to the number of values: with floats the last edge can fall short of the maximum and a value just below it can miss every bin.
- `str(label)` on non-string labels is left out. Labels are strings.
- The `ylabel` and `color` parameters of `scatter` and `line` are never used by the source. The model does not take them.
- Malformed series are left out. A missing `'x'` or `'y'` key, or a `'marker': None` entry, raises in the source. The model's series always have both value lists. A missing marker is `None` and a missing colour is `None`.
- XYChart.Scatter: requires `width, height >= 1` when there is data. With a zero size the source's grid write raises `IndexError`. `LineChart` takes natural sizes and draws nothing outside the grid.
- XYChart.Aligned: every series needs at least as many `y` values as `x` values. The source indexes `y[i]` for every index of `x` and raises otherwise.
- BarChart.Bar: requires a non-zero largest value for valid input. The source divides by it and raises `ZeroDivisionError`.
- Histogram.Hist: requires `bins >= 1` when the data has a spread. With `bins == 0` the source divides by zero. With fewer bins it indexes an empty counter list.
- Raster.PlotLine: its contract describes the visited cells as an 8-adjacent walk toward the end, one cell per step of the longer span, inside the bounding box. It does not pin down which cells Bresenham picks. Those follow only for diagonal and horizontal segments (`RasterFacts`).
- Colors.Code: COLORS is modelled only as a name-to-code map. No terminal semantics are given to the escape codes.

## Findings

| source | as written | input that shows it | evidently intended | confidence | as-written member | corrected member |
|---|---|---|---|---|---|---|
| termatplotlib/__init__.py:130-133 | the comment says a label must not overwrite other labels, but the guard only compares the label's end with the line's end | `width = 10`, margin 5, labels `abc` at column 0 and `xyz` at column 2: the line reads `abxyz` | a label that would overlap the label written before it is skipped | not executed | Axes.LabelsOverlap | Axes.TidyLabelIntact |
| termatplotlib/__init__.py:128-131 | the comment promises ticks at both ends, but the last column's label would have to end before the line does, which only an empty label can | any `width >= 1` with a non-empty label for column `width - 1` | the last column's label is written, shifted left so that it ends with the line | not executed | Axes.LastColumnUnlabelled | Axes.TidyEnds |

`Frame.Compose`, and so the scatter and line charts, keep the x-label line as
written (`Axes.XLabels`), since they model what the program prints.
`Axes.TidyLabels` is the corrected line, with both properties proved about it.
