/**
 The horizontal bar chart: one line per label, the label left-justified to
 the longest label, a ` | ` separator, a bar of `█` whose length is the
 value scaled so that the largest value fills the width left over, and the
 value itself.
 */
module BarChart {
  import opened Optional
  import opened Text
  import opened Colors
  import opened Scale
  import opened Frame

  const InvalidInput := "Error: Invalid input. Labels and values must be non-empty and of the same length."

  /** The block character bars are drawn with. */
  const Block := '█'

  /** The input the chart accepts: as many labels as values, and some. */
  predicate ValidInput(labels: seq<string>, values: seq<real>)
  {
    |labels| > 0 && |values| > 0 && |labels| == |values|
  }

  /** `max(len(str(label)) for label in labels)`. */
  function MaxLen(labels: seq<string>): (m: nat)
    requires |labels| > 0
    ensures forall i :: 0 <= i < |labels| ==> |labels[i]| <= m
    ensures exists i :: 0 <= i < |labels| && |labels[i]| == m
    decreases |labels|
  {
    if |labels| == 1 then |labels[0]|
    else
      var rest := MaxLen(labels[1..]);
      assert forall i :: 1 <= i < |labels| ==> labels[i] == labels[1..][i - 1];
      if rest <= |labels[0]| then |labels[0]| else rest
  }

  /** `scale = (max_width - max_label_len - 5) / max_value`: the columns
      left after the label, the separator and a margin, per unit of the
      largest value. */
  function BarScale(maxWidth: int, labelWidth: int, maxValue: real): real
    requires maxValue != 0.0
  {
    (maxWidth - labelWidth - 5) as real / maxValue
  }

  /** `int(value * scale)`; the bar is `'█' * bar_len`, empty when negative. */
  function BarLen(value: real, scale: real): int
  {
    Trunc(value * scale)
  }

  /** One chart line: label padded to the label width, separator, coloured
      bar, a blank and the value as `show` renders it. */
  function BarLine(name: string, value: real, labelWidth: int, scale: real,
                   show: real -> string, color: Option<string>): string
  {
    LJust(name, labelWidth) + " | " + Decorate(color, Repeat(Block, BarLen(value, scale))) + " " + show(value)
  }

  /** `int` of a whole number is that number. */
  lemma TruncWhole(n: int)
    ensures Trunc(n as real) == n
  {
  }

  /** The largest value's bar fills exactly the columns left over,
      `max_width - max_label_len - 5` (none when that is negative). */
  lemma LongestBar(maxWidth: int, labelWidth: int, maxValue: real)
    requires maxValue != 0.0
    ensures BarLen(maxValue, BarScale(maxWidth, labelWidth, maxValue)) == maxWidth - labelWidth - 5
    ensures |Repeat(Block, BarLen(maxValue, BarScale(maxWidth, labelWidth, maxValue)))| == Max(maxWidth - labelWidth - 5, 0)
  {
    var w := maxWidth - labelWidth - 5;
    assert maxValue * (w as real / maxValue) == w as real;
    TruncWhole(w);
  }

  /** Bars of non-negative values grow with the value, and none is longer
      than the largest value's when the scale is non-negative. */
  lemma BarsMonotone(v: real, w: real, scale: real)
    requires 0.0 <= v <= w && 0.0 <= scale
    ensures 0 <= BarLen(v, scale) <= BarLen(w, scale)
  {
    assert v * scale <= w * scale;
    TruncMonotone(v * scale, w * scale);
  }

  /** Doubling a non-negative value doubles its bar, up to the one column
      that truncation can add. */
  lemma DoubleBar(v: real, scale: real)
    requires 0.0 <= v * scale
    ensures 0 <= BarLen(2.0 * v, scale) - 2 * BarLen(v, scale) <= 1
  {
    var x := v * scale;
    assert (2.0 * v) * scale == 2.0 * x;
    TruncIsFloor(x);
    TruncIsFloor(2.0 * x);
  }

  /** Every line has its separator in the same columns: a blank at the
      label width, `|` right after it and another blank, with the bar
      starting at `label width + 3`; without a colour the bar's characters
      follow directly. */
  lemma SeparatorAligned(name: string, value: real, labelWidth: nat, scale: real,
                         show: real -> string, color: Option<string>)
    requires |name| <= labelWidth
    ensures
      var line := BarLine(name, value, labelWidth, scale, show, color);
      && |line| > labelWidth + 2
      && line[..labelWidth + 3] == LJust(name, labelWidth) + " | "
      && (Code(color) == "" ==>
            forall j :: labelWidth + 3 <= j < labelWidth + 3 + BarLen(value, scale) ==> line[j] == Block)
  {
    var line := BarLine(name, value, labelWidth, scale, show, color);
    var head := LJust(name, labelWidth) + " | ";
    var bar := Repeat(Block, BarLen(value, scale));
    assert |head| == labelWidth + 3;
    assert line == head + (Decorate(color, bar) + " " + show(value));
    if Code(color) == "" {
      assert Decorate(color, bar) == bar;
      assert line == head + bar + (" " + show(value));
      forall j | labelWidth + 3 <= j < labelWidth + 3 + BarLen(value, scale)
        ensures line[j] == Block
      {
        assert line[j] == bar[j - |head|];
      }
    }
  }

  /** The lines of the chart proper, one per label. */
  function BarLines(labels: seq<string>, values: seq<real>, labelWidth: int, scale: real,
                    show: real -> string, color: Option<string>): (lines: seq<string>)
    requires |labels| == |values|
    ensures |lines| == |labels|
    ensures forall i :: 0 <= i < |labels| ==> lines[i] == BarLine(labels[i], values[i], labelWidth, scale, show, color)
  {
    seq(|labels|, i requires 0 <= i < |labels| => BarLine(labels[i], values[i], labelWidth, scale, show, color))
  }

  /** The lines of a bar chart for valid input: the title, the y-axis
      caption right-justified to the label width, a line per label and the
      x-axis caption. */
  function BarBody(labels: seq<string>, values: seq<real>, maxWidth: int, show: real -> string,
                   title: string, xlabel: string, ylabel: string, color: Option<string>): seq<string>
    requires ValidInput(labels, values) && MaxOf(values) != 0.0
  {
    var width := MaxLen(labels);
    TitleLines(title, maxWidth) + (if ylabel != "" then [RJust(ylabel, width)] else [])
    + BarLines(labels, values, width, BarScale(maxWidth, width, MaxOf(values)), show, color)
    + CaptionLines(xlabel, maxWidth)
  }

  /** A bar chart: the error line alone for mismatched or empty input (an
      earlier title is dropped), else the chart lines. */
  function Bar(labels: seq<string>, values: seq<real>, maxWidth: int, show: real -> string,
               title: string, xlabel: string, ylabel: string, color: Option<string>): (out: Rendered)
    requires ValidInput(labels, values) ==> MaxOf(values) != 0.0
    ensures out.Failed? <==> !ValidInput(labels, values)
    ensures out.Failed? ==> out.message == InvalidInput
    ensures out.Chart? ==> out.lines == BarBody(labels, values, maxWidth, show, title, xlabel, ylabel, color)
  {
    if !ValidInput(labels, values) then Failed(InvalidInput)
    else Chart(BarBody(labels, values, maxWidth, show, title, xlabel, ylabel, color))
  }

  /** Where each part of a bar chart lands: the optional title line, the
      optional y-axis caption right-justified to the longest label, one
      line per label in order, and the optional x-axis caption last. */
  lemma BarLayout(labels: seq<string>, values: seq<real>, maxWidth: int, show: real -> string,
                  title: string, xlabel: string, ylabel: string, color: Option<string>)
    requires ValidInput(labels, values) && MaxOf(values) != 0.0
    ensures |BarBody(labels, values, maxWidth, show, title, xlabel, ylabel, color)|
            == Lead(title) + Lead(ylabel) + |labels| + Lead(xlabel)
    ensures BarBody(labels, values, maxWidth, show, title, xlabel, ylabel, color)[..Lead(title)]
            == TitleLines(title, maxWidth)
    ensures ylabel != "" ==>
              BarBody(labels, values, maxWidth, show, title, xlabel, ylabel, color)[Lead(title)]
              == RJust(ylabel, MaxLen(labels))
    ensures xlabel != "" ==>
              BarBody(labels, values, maxWidth, show, title, xlabel, ylabel, color)[Lead(title) + Lead(ylabel) + |labels|]
              == "\n" + Center(xlabel, maxWidth)
    ensures BarBody(labels, values, maxWidth, show, title, xlabel, ylabel, color)
              [Lead(title) + Lead(ylabel)..Lead(title) + Lead(ylabel) + |labels|]
            == BarLines(labels, values, MaxLen(labels), BarScale(maxWidth, MaxLen(labels), MaxOf(values)), show, color)
  {
    var width := MaxLen(labels);
    var titles := TitleLines(title, maxWidth);
    var ycap: seq<string> := if ylabel != "" then [RJust(ylabel, width)] else [];
    var body := BarLines(labels, values, width, BarScale(maxWidth, width, MaxOf(values)), show, color);
    var caps := CaptionLines(xlabel, maxWidth);
    Parts(titles, ycap, body, caps);
    assert BarBody(labels, values, maxWidth, show, title, xlabel, ylabel, color) == titles + ycap + body + caps;
    assert |titles| == Lead(title) && |ycap| == Lead(ylabel) && |caps| == Lead(xlabel);
  }
}
