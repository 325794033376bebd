/**
 The axis annotator of the scatter and line charts: the data value behind
 each row and column, the y-label margin, the display row (margin followed
 by the plot cells) and the x-label line below the frame.
 */
module Axes {
  import opened Text
  import opened Ticks

  /** A row of display cells. */
  type Row = seq<string>

  /** The one-character cells spelling `text`. */
  function Cells(text: string): (cells: Row)
    ensures |cells| == |text|
    ensures forall i :: 0 <= i < |text| ==> cells[i] == [text[i]]
  {
    seq(|text|, i requires 0 <= i < |text| => [text[i]])
  }

  /** A row of `n` blank cells, `[' '] * n`. */
  function BlankRow(n: nat): (row: Row)
    ensures |row| == n && forall k :: 0 <= k < n ==> row[k] == " "
  {
    seq(n, _ => " ")
  }

  /** Writes `cells[i]` into `row[at + i]` for each `i` in turn. */
  function Overlay(row: Row, at: int, cells: Row): (r: Row)
    requires 0 <= at && at + |cells| <= |row|
    ensures |r| == |row|
    ensures forall k :: 0 <= k < |row| ==>
              r[k] == if at <= k < at + |cells| then cells[k - at] else row[k]
    decreases |cells|
  {
    if cells == [] then row
    else Overlay(row[at := cells[0]], at + 1, cells[1..])
  }

  /** `len(f"{max_y:.1f}") + 2`: the margin is two cells wider than the
      formatted maximum; `fmt` stands for the one-decimal formatting. */
  function LabelWidth(fmt: real -> string, maxY: real): nat
  {
    |fmt(maxY)| + 2
  }

  /** The data value labelling row `r`: rows count down from the maximum,
      `min_y + (height - 1 - r) * (y_range / (height - 1) if height > 1 else 1)`. */
  function RowValue(r: int, minY: real, yRange: real, height: int): real
  {
    minY + (height - 1 - r) as real * (if height > 1 then yRange / (height - 1) as real else 1.0)
  }

  /** The data value labelling column `c`,
      `min_x + c * (x_range / (width - 1) if width > 1 else 1)`. */
  function ColumnValue(c: int, minX: real, xRange: real, width: int): real
  {
    minX + c as real * (if width > 1 then xRange / (width - 1) as real else 1.0)
  }

  /** The bottom row is labelled with the minimum, and on an axis of more
      than one cell the top row with the minimum plus the range; columns
      likewise run from the minimum at the left to the maximum at the right. */
  lemma AxisEndValues(minV: real, range: real, n: int)
    requires n >= 1
    ensures RowValue(n - 1, minV, range, n) == minV
    ensures ColumnValue(0, minV, range, n) == minV
    ensures n > 1 ==> RowValue(0, minV, range, n) == minV + range
    ensures n > 1 ==> ColumnValue(n - 1, minV, range, n) == minV + range
  {
    if n > 1 {
      var k := (n - 1) as real;
      assert k * (range / k) == range;
    }
  }

  /** Display row `r` of the scatter and line charts: a blank row of
      `|gridRow| + margin` cells; on a tick row the label's characters go
      into the margin, those at index `margin` or beyond being dropped; then
      plot cell `c` is copied to column `c + margin`. */
  function DisplayRow(gridRow: Row, margin: nat, tick: bool, tickLabel: string): (row: Row)
    ensures |row| == |gridRow| + margin
    ensures forall c :: 0 <= c < |gridRow| ==> row[c + margin] == gridRow[c]
    ensures forall i :: 0 <= i < margin ==>
              row[i] == if tick && i < |tickLabel| then [tickLabel[i]] else " "
  {
    var base := BlankRow(|gridRow| + margin);
    var labelled := if tick then Overlay(base, 0, Cells(Prefix(tickLabel, margin))) else base;
    Overlay(labelled, margin, gridRow)
  }

  /** The x label of column `c` is written only if it ends strictly before
      the end of the label line: `c + margin + len(label) < width + margin`. */
  predicate Written(c: int, width: int, margin: int, labelAt: int -> string)
  {
    0 <= c < width && IsTick(c, width) && c + margin + |labelAt(c)| < width + margin
  }

  /** The x-label line after the columns `0 .. n - 1` have been processed:
      each written label's characters are copied to the columns from
      `c + margin` on, later labels overwriting earlier ones. */
  function XLabels(n: nat, width: nat, margin: nat, labelAt: int -> string): (line: Row)
    requires n <= width
    ensures |line| == width + margin
    ensures forall k :: 0 <= k < margin ==> line[k] == " "
    ensures width + margin == 0 || line[width + margin - 1] == " "
    ensures forall k :: 0 <= k < |line| && line[k] != " " ==>
              exists c :: 0 <= c < n && Written(c, width, margin, labelAt)
                          && c + margin <= k < c + margin + |labelAt(c)|
    decreases n
  {
    if n == 0 then BlankRow(width + margin)
    else
      var prev := XLabels(n - 1, width, margin, labelAt);
      var c := n - 1;
      if Written(c, width, margin, labelAt) then
        Overlay(prev, c + margin, Cells(labelAt(c)))
      else
        prev
  }

  /** Character `i` of a written label survives in the x-label line unless
      a later written label starts at or before it: labels are only
      checked against the right edge, never against each other. */
  lemma {:induction false} LabelCharIntact(n: nat, width: nat, margin: nat, labelAt: int -> string, c: int, i: int)
    requires n <= width
    requires 0 <= c < n && Written(c, width, margin, labelAt)
    requires forall c' :: c < c' < n && Written(c', width, margin, labelAt) ==> c' > c + i
    requires 0 <= i < |labelAt(c)|
    ensures c + margin + i < width + margin
    ensures XLabels(n, width, margin, labelAt)[c + margin + i] == [labelAt(c)[i]]
    decreases n
  {
    var line := XLabels(n, width, margin, labelAt);
    var prev := XLabels(n - 1, width, margin, labelAt);
    if n - 1 == c {
      assert line == Overlay(prev, c + margin, Cells(labelAt(c)));
    } else {
      LabelCharIntact(n - 1, width, margin, labelAt, c, i);
      if Written(n - 1, width, margin, labelAt) {
        assert line == Overlay(prev, n - 1 + margin, Cells(labelAt(n - 1)));
        assert c + margin + i < n - 1 + margin;
      } else {
        assert line == prev;
      }
    }
  }

  /** A written label survives intact unless a later written label starts
      inside it. */
  lemma LabelIntact(n: nat, width: nat, margin: nat, labelAt: int -> string, c: int)
    requires n <= width
    requires 0 <= c < n && Written(c, width, margin, labelAt)
    requires forall c' :: c < c' < n && Written(c', width, margin, labelAt) ==> c' >= c + |labelAt(c)|
    ensures forall i :: 0 <= i < |labelAt(c)| ==>
              XLabels(n, width, margin, labelAt)[c + margin + i] == [labelAt(c)[i]]
  {
    forall i | 0 <= i < |labelAt(c)|
      ensures XLabels(n, width, margin, labelAt)[c + margin + i] == [labelAt(c)[i]]
    {
      LabelCharIntact(n, width, margin, labelAt, c, i);
    }
  }

  /** The label of the last column is never written: it would have to end
      before the line does, which only an empty label can. */
  lemma LastColumnUnlabelled(width: nat, margin: nat, labelAt: int -> string)
    requires width >= 1 && |labelAt(width - 1)| >= 1
    ensures !Written(width - 1, width, margin, labelAt)
  {
  }

  /** The labels of a chart whose first column is labelled `abc` and every
      other one `xyz`. */
  function ClashingLabels(c: int): string
  {
    if c == 0 then "abc" else "xyz"
  }

  /** On a 10-column axis with a 5-cell margin both the label of column 0
      and that of tick column 2 are written, and the second one overwrites
      the last character of the first: the line reads `abxyz` where `abc`
      was written. */
  lemma LabelsOverlap()
    ensures Written(0, 10, 5, ClashingLabels) && Written(2, 10, 5, ClashingLabels)
    ensures XLabels(10, 10, 5, ClashingLabels)[5 + 2] == "x" != [ClashingLabels(0)[2]]
  {
    assert TickStep(10) == 2;
    LabelCharIntact(10, 10, 5, ClashingLabels, 2, 0);
  }

  /** The first cell a label of column `c` may occupy: its own column, or
      further left when the label would otherwise run past the line end. */
  function LabelStart(c: int, width: int, margin: int, labelAt: int -> string): int
  {
    Min(c + margin, width + margin - |labelAt(c)|)
  }

  /** A tick column's label is placed when it starts no earlier than the
      end `end` of the last label placed. */
  predicate Fits(c: int, width: int, margin: int, labelAt: int -> string, end: int)
  {
    0 <= c < width && IsTick(c, width) && end <= LabelStart(c, width, margin, labelAt)
  }

  /** An x-label line being built, with the cell after the last label
      placed on it. */
  datatype Labels = Labels(line: Row, end: int)

  /** The x-label line as its comments describe it, after the columns
      `0 .. n - 1` have been processed: a tick column's label is placed,
      shifted left to end with the line if need be, unless it would
      overwrite the label placed before it. */
  function TidyLabels(n: nat, width: nat, margin: nat, labelAt: int -> string): (r: Labels)
    requires n <= width
    ensures |r.line| == width + margin
    ensures margin <= r.end <= width + margin
    ensures forall k :: 0 <= k < margin ==> r.line[k] == " "
    ensures forall k :: r.end <= k < |r.line| ==> r.line[k] == " "
    decreases n
  {
    if n == 0 then Labels(BlankRow(width + margin), margin)
    else
      var prev := TidyLabels(n - 1, width, margin, labelAt);
      var c := n - 1;
      if Fits(c, width, margin, labelAt, prev.end) then
        var s := LabelStart(c, width, margin, labelAt);
        Labels(Overlay(prev.line, s, Cells(labelAt(c))), s + |labelAt(c)|)
      else
        prev
  }

  /** Column `c`'s label is placed on the tidy x-label line. */
  predicate Placed(c: int, width: nat, margin: nat, labelAt: int -> string)
  {
    0 <= c < width && Fits(c, width, margin, labelAt, TidyLabels(c, width, margin, labelAt).end)
  }

  /** Processing column `n - 1` moves the end of the placed labels no
      further back and, when the column's label is placed, ends the labels
      right after it. */
  lemma TidyEndStep(n: nat, width: nat, margin: nat, labelAt: int -> string)
    requires 1 <= n <= width
    ensures TidyLabels(n - 1, width, margin, labelAt).end <= TidyLabels(n, width, margin, labelAt).end
    ensures Placed(n - 1, width, margin, labelAt) ==>
              TidyLabels(n, width, margin, labelAt).end == LabelStart(n - 1, width, margin, labelAt) + |labelAt(n - 1)|
  {
  }

  /** Processing column `n - 1` leaves every cell before the old end of the
      placed labels as it was. */
  lemma TidyKeeps(n: nat, width: nat, margin: nat, labelAt: int -> string, k: int)
    requires 1 <= n <= width
    requires 0 <= k < TidyLabels(n - 1, width, margin, labelAt).end
    ensures TidyLabels(n, width, margin, labelAt).line[k] == TidyLabels(n - 1, width, margin, labelAt).line[k]
  {
  }

  /** Placing column `n - 1`'s label writes its character `i` at the
      label's start plus `i`. */
  lemma TidyPlaces(n: nat, width: nat, margin: nat, labelAt: int -> string, i: int)
    requires 1 <= n <= width && Placed(n - 1, width, margin, labelAt)
    requires 0 <= i < |labelAt(n - 1)|
    ensures margin <= LabelStart(n - 1, width, margin, labelAt) + i < width + margin
    ensures TidyLabels(n, width, margin, labelAt).line[LabelStart(n - 1, width, margin, labelAt) + i] == [labelAt(n - 1)[i]]
  {
    var prev := TidyLabels(n - 1, width, margin, labelAt);
    var st := LabelStart(n - 1, width, margin, labelAt);
    var line := Overlay(prev.line, st, Cells(labelAt(n - 1)));
    assert TidyLabels(n, width, margin, labelAt).line == line;
    assert line[st + i] == Cells(labelAt(n - 1))[i];
  }

  /** Processing more columns never moves the end of the placed labels back. */
  lemma {:induction false} TidyEndMonotone(m: nat, n: nat, width: nat, margin: nat, labelAt: int -> string)
    requires m <= n <= width
    ensures TidyLabels(m, width, margin, labelAt).end <= TidyLabels(n, width, margin, labelAt).end
    decreases n
  {
    if m < n {
      TidyEndMonotone(m, n - 1, width, margin, labelAt);
      TidyEndStep(n, width, margin, labelAt);
    }
  }

  /** Character `i` of a placed label survives every later column. */
  lemma {:induction false} TidyLabelCharIntact(n: nat, width: nat, margin: nat, labelAt: int -> string, c: int, i: int)
    requires n <= width
    requires 0 <= c < n && Placed(c, width, margin, labelAt)
    requires 0 <= i < |labelAt(c)|
    ensures margin <= LabelStart(c, width, margin, labelAt) + i < width + margin
    ensures TidyLabels(n, width, margin, labelAt).line[LabelStart(c, width, margin, labelAt) + i] == [labelAt(c)[i]]
    decreases n
  {
    if n == c + 1 {
      TidyPlaces(n, width, margin, labelAt, i);
    } else {
      TidyLabelCharIntact(n - 1, width, margin, labelAt, c, i);
      TidyLaterKeeps(n, width, margin, labelAt, c, i);
    }
  }

  /** A character of column `c`'s placed label that survives column
      `n - 2` survives column `n - 1` too, since that column's label, if
      placed, starts after column `c`'s ends. */
  lemma TidyLaterKeeps(n: nat, width: nat, margin: nat, labelAt: int -> string, c: int, i: int)
    requires 0 <= c && c + 1 < n <= width && Placed(c, width, margin, labelAt)
    requires 0 <= i < |labelAt(c)|
    requires 0 <= LabelStart(c, width, margin, labelAt) + i < width + margin
    ensures TidyLabels(n, width, margin, labelAt).line[LabelStart(c, width, margin, labelAt) + i]
         == TidyLabels(n - 1, width, margin, labelAt).line[LabelStart(c, width, margin, labelAt) + i]
  {
    TidyEndStep(c + 1, width, margin, labelAt);
    TidyEndMonotone(c + 1, n - 1, width, margin, labelAt);
    TidyKeeps(n, width, margin, labelAt, LabelStart(c, width, margin, labelAt) + i);
  }

  /** Every placed label survives intact on the finished tidy line: no
      label overwrites another. */
  lemma TidyLabelIntact(width: nat, margin: nat, labelAt: int -> string, c: int)
    requires Placed(c, width, margin, labelAt)
    ensures forall i :: 0 <= i < |labelAt(c)| ==>
              TidyLabels(width, width, margin, labelAt).line[LabelStart(c, width, margin, labelAt) + i] == [labelAt(c)[i]]
  {
    forall i | 0 <= i < |labelAt(c)|
      ensures TidyLabels(width, width, margin, labelAt).line[LabelStart(c, width, margin, labelAt) + i] == [labelAt(c)[i]]
    {
      TidyLabelCharIntact(width, width, margin, labelAt, c, i);
    }
  }

  /** Both ends of the axis are labelled on the tidy line: the first
      column's label, when it fits the axis at all, starts at the margin;
      the last column's label is placed, ending with the line, whenever the
      labels before it leave room for it. */
  lemma TidyEnds(width: nat, margin: nat, labelAt: int -> string)
    requires width >= 1
    ensures |labelAt(0)| <= width ==> Placed(0, width, margin, labelAt) && LabelStart(0, width, margin, labelAt) == margin
    ensures 1 <= |labelAt(width - 1)| &&
            TidyLabels(width - 1, width, margin, labelAt).end + |labelAt(width - 1)| <= width + margin ==>
              && Placed(width - 1, width, margin, labelAt)
              && LabelStart(width - 1, width, margin, labelAt) + |labelAt(width - 1)| == width + margin
              && TidyLabels(width, width, margin, labelAt).end == width + margin
  {
  }
}
