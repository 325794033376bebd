/**
 The histogram: equal-width bins between the minimum and the maximum of the
 data, a count per bin, one text row per height level (top row first) in
 which a bin shows its glyph while its scaled count exceeds the level, a
 dashed rule and a line of left edges.
 */
module Histogram {
  import opened Optional
  import opened Text
  import opened Colors
  import opened Scale
  import opened Frame

  const SameValues := "Error: All data points are the same, cannot create meaningful bins."
  const NoneBinned := "No data points fell into any bin."

  /** `(max_val - min_val) / bins`. */
  function BinWidth(lo: real, hi: real, bins: nat): real
    requires bins >= 1
  {
    (hi - lo) / bins as real
  }

  /** `[min_val + i * bin_range for i in range(bins + 1)]`. */
  function Edges(lo: real, hi: real, bins: nat): (e: seq<real>)
    requires bins >= 1
    ensures |e| == bins + 1
    ensures forall i :: 0 <= i <= bins ==> e[i] == lo + i as real * BinWidth(lo, hi, bins)
  {
    seq(bins + 1, i => lo + i as real * BinWidth(lo, hi, bins))
  }

  lemma PositiveProduct(a: real, b: real)
    requires a > 0.0 && b > 0.0
    ensures a * b > 0.0
  {
  }

  /** Scaling by a natural number preserves order on integers. */
  lemma ScaleLe(a: int, b: int, w: nat)
    requires a <= b
    ensures a * w <= b * w
  {
  }

  lemma ScaleLess(a: real, b: real, r: real)
    requires r > 0.0
    ensures a < b <==> a * r < b * r
    ensures a <= b <==> a * r <= b * r
  {
    if a < b {
      PositiveProduct(b - a, r);
    }
    if b < a {
      PositiveProduct(a - b, r);
    }
  }

  /** The edges start at the minimum, end exactly at the maximum and
      strictly increase in between. */
  lemma EdgesSpan(lo: real, hi: real, bins: nat)
    requires bins >= 1 && lo < hi
    ensures Edges(lo, hi, bins)[0] == lo
    ensures Edges(lo, hi, bins)[bins] == hi
    ensures forall i, j :: 0 <= i < j <= bins ==> Edges(lo, hi, bins)[i] < Edges(lo, hi, bins)[j]
  {
    var e := Edges(lo, hi, bins);
    var r := BinWidth(lo, hi, bins);
    assert r > 0.0;
    assert bins as real * r == hi - lo;
    forall i, j | 0 <= i < j <= bins ensures e[i] < e[j] {
      assert e[j] - e[i] == (j - i) as real * r;
      PositiveProduct((j - i) as real, r);
    }
  }

  /** The search `for i in range(bins): if edges[i] <= x < edges[i+1]`,
      from index `i` on: the first bin whose half-open interval holds `x`. */
  function FindBin(x: real, e: seq<real>, i: nat): (b: Option<nat>)
    requires i < |e|
    ensures b.Some? ==> i <= b.value < |e| - 1 && e[b.value] <= x < e[b.value + 1]
    ensures b.Some? ==> forall j :: i <= j < b.value ==> !(e[j] <= x < e[j + 1])
    ensures b.None? ==> forall j :: i <= j < |e| - 1 ==> !(e[j] <= x < e[j + 1])
    decreases |e| - i
  {
    if i == |e| - 1 then None
    else if e[i] <= x < e[i + 1] then Some(i)
    else FindBin(x, e, i + 1)
  }

  /** The bin a value is counted in: the maximum goes to the last bin, any
      other value to the first bin that holds it, if any. */
  function BinOf(x: real, lo: real, hi: real, bins: nat): (b: Option<nat>)
    requires bins >= 1
    ensures x == hi ==> b == Some(bins - 1)
    ensures b.Some? ==> b.value < bins
    ensures b.Some? && x != hi ==> Edges(lo, hi, bins)[b.value] <= x < Edges(lo, hi, bins)[b.value + 1]
    ensures b.None? ==> x != hi && forall j :: 0 <= j < bins ==> !(Edges(lo, hi, bins)[j] <= x < Edges(lo, hi, bins)[j + 1])
  {
    if x == hi then Some(bins - 1) else FindBin(x, Edges(lo, hi, bins), 0)
  }

  /** The bin of a value, computed directly: `floor((x - lo) / bin width)`,
      with the maximum in the last bin. */
  function Bucket(x: real, lo: real, hi: real, bins: nat): (k: nat)
    requires bins >= 1 && lo <= x <= hi && lo < hi
    ensures k < bins
    ensures x == hi ==> k == bins - 1
  {
    if x == hi then bins - 1
    else
      var t := (x - lo) / BinWidth(lo, hi, bins);
      assert 0.0 <= t < bins as real by {
        var r := BinWidth(lo, hi, bins);
        assert bins as real * r == hi - lo;
        assert t * r == x - lo;
        ScaleLess(t, bins as real, r);
        ScaleLess(0.0, t, r);
      }
      t.Floor
  }

  lemma FloorBracket(t: real, k: int, r: real)
    requires r > 0.0 && k == t.Floor
    ensures k as real * r <= t * r < (k + 1) as real * r
  {
    ScaleLess(k as real, t, r);
    ScaleLess(t, (k + 1) as real, r);
  }

  /** `x` lies between the `k`-th and `k + 1`-th multiples of a positive step
      above `lo` when `k` is the floor of its distance in steps. */
  lemma StepBracket(x: real, lo: real, r: real, k: int)
    requires r > 0.0 && k == ((x - lo) / r).Floor
    ensures lo + k as real * r <= x < lo + (k + 1) as real * r
  {
    var t := (x - lo) / r;
    assert t * r == x - lo;
    FloorBracket(t, k, r);
  }

  /** A value below the maximum lies in the half-open interval of its
      bucket. */
  lemma BucketHolds(x: real, lo: real, hi: real, bins: nat)
    requires bins >= 1 && lo <= x < hi
    ensures Edges(lo, hi, bins)[Bucket(x, lo, hi, bins)] <= x < Edges(lo, hi, bins)[Bucket(x, lo, hi, bins) + 1]
  {
    var r := BinWidth(lo, hi, bins);
    var k := Bucket(x, lo, hi, bins);
    assert r > 0.0;
    StepBracket(x, lo, r, k);
    var e := Edges(lo, hi, bins);
    assert e[k] == lo + k as real * r;
    assert e[k + 1] == lo + (k + 1) as real * r;
  }

  /** Every value between the minimum and the maximum falls in exactly the
      bin `Bucket` names: the edge search never misses and never lands in
      a neighbouring bin. */
  lemma BinIsBucket(x: real, lo: real, hi: real, bins: nat)
    requires bins >= 1 && lo <= x <= hi && lo < hi
    ensures BinOf(x, lo, hi, bins) == Some(Bucket(x, lo, hi, bins))
  {
    if x != hi {
      var e := Edges(lo, hi, bins);
      var k := Bucket(x, lo, hi, bins);
      BucketHolds(x, lo, hi, bins);
      EdgesSpan(lo, hi, bins);
      var b := FindBin(x, e, 0);
      assert e[k] <= x < e[k + 1];
      assert b.Some?;
      assert b.value <= k;
      assert e[b.value] <= x < e[b.value + 1];
      assert k <= b.value;
    }
  }

  /** `counts`: one counter per bin, each value in turn adding one to the
      counter of its bin. */
  function Tally(bs: seq<Option<nat>>, bins: nat): (counts: seq<nat>)
    ensures |counts| == bins
    ensures forall i :: 0 <= i < bins ==> counts[i] == multiset(bs)[Some(i)]
    decreases |bs|
  {
    if bs == [] then seq(bins, _ => 0)
    else
      var init := bs[..|bs| - 1];
      var last := bs[|bs| - 1];
      assert bs == init + [last];
      var prev := Tally(init, bins);
      if last.Some? && last.value < bins then prev[last.value := prev[last.value] + 1] else prev
  }

  /** Python's `sum`. */
  function Sum(s: seq<nat>): nat
    decreases |s|
  {
    if s == [] then 0 else Sum(s[..|s| - 1]) + s[|s| - 1]
  }

  lemma {:induction false} SumBump(s: seq<nat>, i: nat)
    requires i < |s|
    ensures Sum(s[i := s[i] + 1]) == Sum(s) + 1
    decreases |s|
  {
    var s' := s[i := s[i] + 1];
    var n := |s|;
    assert s'[..n - 1] == if i < n - 1 then s[..n - 1][i := s[i] + 1] else s[..n - 1];
    if i < n - 1 {
      SumBump(s[..n - 1], i);
    }
  }

  lemma {:induction false} SumZeros(n: nat)
    ensures Sum(seq(n, _ => 0)) == 0
  {
    if n > 0 {
      assert seq(n, _ => 0)[..n - 1] == seq(n - 1, _ => 0);
      SumZeros(n - 1);
    }
  }

  /** When every value has a bin, the counters add up to the number of values. */
  lemma {:induction false} TallySum(bs: seq<Option<nat>>, bins: nat)
    requires forall k :: 0 <= k < |bs| ==> bs[k].Some? && bs[k].value < bins
    ensures Sum(Tally(bs, bins)) == |bs|
    decreases |bs|
  {
    if bs == [] {
      SumZeros(bins);
    } else {
      var init := bs[..|bs| - 1];
      var last := bs[|bs| - 1];
      TallySum(init, bins);
      var prev := Tally(init, bins);
      assert Tally(bs, bins) == prev[last.value := prev[last.value] + 1];
      SumBump(prev, last.value);
    }
  }

  lemma {:induction false} PositiveSum(s: seq<nat>)
    requires Sum(s) > 0
    ensures exists i :: 0 <= i < |s| && s[i] > 0
    decreases |s|
  {
    var n := |s|;
    if s[n - 1] == 0 {
      PositiveSum(s[..n - 1]);
      var i :| 0 <= i < n - 1 && s[..n - 1][i] > 0;
      assert s[i] > 0;
    }
  }

  /** Python's `max` over the counters. */
  function MaxCount(s: seq<nat>): (m: nat)
    requires |s| > 0
    ensures m in s
    ensures forall i :: 0 <= i < |s| ==> s[i] <= m
    decreases |s|
  {
    if |s| == 1 then s[0]
    else
      var rest := MaxCount(s[1..]);
      if rest <= s[0] then s[0] else rest
  }

  /** The bin of each value, in data order. */
  function Bins(data: seq<real>, lo: real, hi: real, bins: nat): (bs: seq<Option<nat>>)
    requires bins >= 1
    ensures |bs| == |data|
    ensures forall k :: 0 <= k < |data| ==> bs[k] == BinOf(data[k], lo, hi, bins)
  {
    seq(|data|, k requires 0 <= k < |data| => BinOf(data[k], lo, hi, bins))
  }

  /** The counters of a data set binned between `lo` and `hi`. */
  function BinCounts(data: seq<real>, lo: real, hi: real, bins: nat): (counts: seq<nat>)
    requires bins >= 1
    ensures |counts| == bins
  {
    Tally(Bins(data, lo, hi, bins), bins)
  }

  /** Binned between its own minimum and maximum, every value of a data
      set is counted exactly once: the counters add up to the number of
      values, so the largest counter is positive and the "no data points
      fell into any bin" branch is never taken. */
  lemma EveryValueCounted(data: seq<real>, bins: nat)
    requires |data| > 0 && MinOf(data) != MaxOf(data) && bins >= 1
    ensures Sum(BinCounts(data, MinOf(data), MaxOf(data), bins)) == |data|
    ensures MaxCount(BinCounts(data, MinOf(data), MaxOf(data), bins)) >= 1
  {
    var lo, hi := MinOf(data), MaxOf(data);
    var bs := Bins(data, lo, hi, bins);
    forall k | 0 <= k < |bs| ensures bs[k].Some? && bs[k].value < bins {
      assert lo <= data[k] <= hi;
      BinIsBucket(data[k], lo, hi, bins);
    }
    TallySum(bs, bins);
    var counts := BinCounts(data, lo, hi, bins);
    PositiveSum(counts);
    var i :| 0 <= i < |counts| && counts[i] > 0;
    assert counts[i] <= MaxCount(counts);
  }

  /** `counts[i] * scale > h` with `scale = height / max_count`. */
  predicate Filled(count: nat, maxCount: nat, height: int, h: int)
    requires maxCount > 0
  {
    count as real * (height as real / maxCount as real) > h as real
  }

  /** Without division: a bin shows at level `h` exactly when
      `count * height > h * max_count`. */
  lemma FilledIff(count: nat, maxCount: nat, height: int, h: int)
    requires maxCount > 0
    ensures Filled(count, maxCount, height, h) <==> count * height > h * maxCount
  {
    var m := maxCount as real;
    var s := height as real / m;
    assert s * m == height as real;
    assert (count as real * s) * m == (count * height) as real;
    assert (h * maxCount) as real == h as real * m;
    if count as real * s > h as real {
      assert (count as real * s) * m > h as real * m;
    }
    if (count * height) as real > h as real * m {
      assert (count as real * s) * m > h as real * m;
    }
  }

  /** Bars grow from the bottom: a bin shown at some level is shown at every
      lower level. */
  lemma BarsGrowFromBottom(count: nat, maxCount: nat, height: int, h: int, h': int)
    requires maxCount > 0 && 0 <= h' <= h
    requires Filled(count, maxCount, height, h)
    ensures Filled(count, maxCount, height, h')
  {
    FilledIff(count, maxCount, height, h);
    FilledIff(count, maxCount, height, h');
    ScaleLe(h', h, maxCount);
  }

  /** A bin holding the largest count is shown at every level, and an empty
      bin at none. */
  lemma TallestAndEmptyBars(maxCount: nat, height: int, h: int)
    requires maxCount > 0 && 0 <= h
    ensures h < height ==> Filled(maxCount, maxCount, height, h)
    ensures !Filled(0, maxCount, height, h)
  {
    FilledIff(maxCount, maxCount, height, h);
    FilledIff(0, maxCount, height, h);
    if h < height {
      assert maxCount * height > maxCount * h by {
        assert maxCount * height - maxCount * h == maxCount * (height - h);
      }
    }
  }

  /** A bin's cell in a bar row: the glyph then `width // bins - 1` blanks,
      or `width // bins` blanks. */
  function Segment(filled: bool, glyph: string, cellWidth: int): string
  {
    if filled then glyph + Spaces(cellWidth - 1) else Spaces(cellWidth)
  }

  /** With a one-character glyph a segment is one cell width wide: the
      glyph or a blank, then blanks. */
  lemma SegmentShape(filled: bool, glyph: string, cellWidth: int)
    requires |glyph| == 1 && cellWidth >= 1
    ensures |Segment(filled, glyph, cellWidth)| == cellWidth
    ensures Segment(filled, glyph, cellWidth)[0] == if filled then glyph[0] else ' '
    ensures forall j :: 0 < j < cellWidth ==> Segment(filled, glyph, cellWidth)[j] == ' '
  {
  }

  /** The cells of one bar row at level `h`. */
  function Segments(counts: seq<nat>, maxCount: nat, height: int, h: int, glyph: string, cellWidth: int): (cells: seq<string>)
    requires maxCount > 0
    ensures |cells| == |counts|
    ensures forall i :: 0 <= i < |counts| ==> cells[i] == Segment(Filled(counts[i], maxCount, height, h), glyph, cellWidth)
  {
    seq(|counts|, i requires 0 <= i < |counts| => Segment(Filled(counts[i], maxCount, height, h), glyph, cellWidth))
  }

  /** The bar row at level `h`. */
  function BarRow(counts: seq<nat>, maxCount: nat, height: int, h: int, glyph: string, cellWidth: int): string
    requires maxCount > 0
  {
    Concat(Segments(counts, maxCount, height, h, glyph, cellWidth))
  }

  /** With a one-character glyph and cells at least one wide, a bar row is
      `bins * cell width` characters; bin `i` owns the slice from
      `i * cell width`, which starts with the glyph when the bin is shown
      at this level and is blank everywhere else. */
  lemma BarRowLayout(counts: seq<nat>, maxCount: nat, height: int, h: int, glyph: string, cellWidth: int, i: int)
    requires maxCount > 0 && |glyph| == 1 && cellWidth >= 1
    requires 0 <= i < |counts|
    ensures |BarRow(counts, maxCount, height, h, glyph, cellWidth)| == |counts| * cellWidth
    ensures i * cellWidth + cellWidth <= |BarRow(counts, maxCount, height, h, glyph, cellWidth)|
    ensures
      var cell := BarRow(counts, maxCount, height, h, glyph, cellWidth)[i * cellWidth .. i * cellWidth + cellWidth];
      && cell[0] == (if Filled(counts[i], maxCount, height, h) then glyph[0] else ' ')
      && forall j :: 0 < j < cellWidth ==> cell[j] == ' '
  {
    var cells := Segments(counts, maxCount, height, h, glyph, cellWidth);
    assert BarRow(counts, maxCount, height, h, glyph, cellWidth) == Concat(cells);
    forall k | 0 <= k < |cells| ensures |cells[k]| == cellWidth {
      SegmentShape(Filled(counts[k], maxCount, height, h), glyph, cellWidth);
    }
    ConcatSlice(cells, cellWidth, i);
    SegmentShape(Filled(counts[i], maxCount, height, h), glyph, cellWidth);
  }

  /** The bar rows, the top level `height - 1` first and level 0 last. */
  function Bars(counts: seq<nat>, maxCount: nat, height: int, glyph: string, cellWidth: int): (rows: seq<string>)
    requires maxCount > 0
    ensures |rows| == Max(height, 0)
    ensures forall k :: 0 <= k < |rows| ==> rows[k] == BarRow(counts, maxCount, height, height - 1 - k, glyph, cellWidth)
  {
    seq(Max(height, 0), k => BarRow(counts, maxCount, height, height - 1 - k, glyph, cellWidth))
  }

  /** One edge label, `label.ljust(spacing)[:spacing]`. */
  function LabelCell(text: string, spacing: int): string
  {
    Prefix(LJust(text, spacing), spacing)
  }

  /** A label cell is exactly `spacing` characters: the label cut to fit,
      padded with blanks. */
  lemma LabelCellShape(text: string, spacing: int)
    requires spacing >= 0
    ensures |LabelCell(text, spacing)| == spacing
    ensures forall j :: 0 <= j < spacing ==>
              LabelCell(text, spacing)[j] == if j < |text| then text[j] else ' '
  {
    var padded := LJust(text, spacing);
    assert LabelCell(text, spacing) == padded[..spacing];
    forall j | 0 <= j < spacing && j < |text|
      ensures padded[j] == text[j]
    {
      assert padded[..|text|][j] == text[j];
    }
  }

  /** The cells of the label line: the left edge of each bin, formatted. */
  function LabelCells(edges: seq<real>, bins: nat, fmt: real -> string, spacing: int): (cells: seq<string>)
    requires bins <= |edges|
    ensures |cells| == bins
    ensures forall i :: 0 <= i < bins ==> cells[i] == LabelCell(fmt(edges[i]), spacing)
  {
    seq(bins, i requires 0 <= i < bins => LabelCell(fmt(edges[i]), spacing))
  }

  /** `label_line`. */
  function LabelLine(edges: seq<real>, bins: nat, fmt: real -> string, spacing: int): string
    requires bins <= |edges|
  {
    Concat(LabelCells(edges, bins, fmt, spacing))
  }

  /** The label line is `bins * spacing` characters, bin `i`'s left edge
      label occupying the slice from `i * spacing`; only the first `bins`
      of the `bins + 1` edges are labelled, so the maximum never is. */
  lemma LabelLineLayout(edges: seq<real>, bins: nat, fmt: real -> string, spacing: int, i: int)
    requires bins <= |edges| && spacing >= 0 && 0 <= i < bins
    ensures |LabelLine(edges, bins, fmt, spacing)| == bins * spacing
    ensures i * spacing + spacing <= |LabelLine(edges, bins, fmt, spacing)|
    ensures LabelLine(edges, bins, fmt, spacing)[i * spacing .. i * spacing + spacing] == LabelCell(fmt(edges[i]), spacing)
  {
    var cells := LabelCells(edges, bins, fmt, spacing);
    assert LabelLine(edges, bins, fmt, spacing) == Concat(cells);
    forall k | 0 <= k < bins ensures |cells[k]| == spacing {
      LabelCellShape(fmt(edges[k]), spacing);
    }
    ConcatSlice(cells, spacing, i);
  }

  /** When every occurrence of `v` in `a` is matched by `w` at the same
      index of `b`, `b` holds `w` at least as often as `a` holds `v`. */
  lemma {:induction false} CountCarried<A, B>(a: seq<A>, b: seq<B>, v: A, w: B)
    requires |a| == |b|
    requires forall k :: 0 <= k < |a| && a[k] == v ==> b[k] == w
    ensures multiset(b)[w] >= multiset(a)[v]
    decreases |a|
  {
    if a != [] {
      var n := |a|;
      assert a == a[..n - 1] + [a[n - 1]];
      assert b == b[..n - 1] + [b[n - 1]];
      CountCarried(a[..n - 1], b[..n - 1], v, w);
    }
  }

  /** Binned up to `hi`, every occurrence of `hi` is counted in the last bin. */
  lemma HiInLastBin(data: seq<real>, lo: real, hi: real, bins: nat)
    requires bins >= 1
    ensures BinCounts(data, lo, hi, bins)[bins - 1] >= multiset(data)[hi]
  {
    var bs := Bins(data, lo, hi, bins);
    assert BinCounts(data, lo, hi, bins)[bins - 1] == multiset(bs)[Some(bins - 1)];
    CountCarried(data, bs, hi, Some(bins - 1));
  }

  /** The maximum is counted in the last bin, every occurrence of it: the
      last counter is at least the number of times the maximum occurs, so
      it is positive. */
  lemma MaxInLastBin(data: seq<real>, bins: nat)
    requires |data| > 0 && MinOf(data) != MaxOf(data) && bins >= 1
    ensures BinCounts(data, MinOf(data), MaxOf(data), bins)[bins - 1] >= multiset(data)[MaxOf(data)]
    ensures multiset(data)[MaxOf(data)] >= 1
  {
    HiInLastBin(data, MinOf(data), MaxOf(data), bins);
    assert MaxOf(data) in multiset(data);
  }

  /** The counters of a data set with a spread, binned between its own
      minimum and maximum. */
  function Counts(data: seq<real>, bins: nat): (counts: seq<nat>)
    requires |data| > 0 && MinOf(data) != MaxOf(data) && bins >= 1
    ensures |counts| == bins && Sum(counts) == |data| && MaxCount(counts) >= 1
    ensures counts[bins - 1] >= multiset(data)[MaxOf(data)] >= 1
  {
    EveryValueCounted(data, bins);
    MaxInLastBin(data, bins);
    BinCounts(data, MinOf(data), MaxOf(data), bins)
  }

  /** The lines below the bar rows: the dashed rule, the edge labels, the
      optional captions and a closing newline line. */
  function Footer(lo: real, hi: real, bins: nat, width: int, fmt: real -> string,
                  xlabel: string, ylabel: string): seq<string>
    requires bins >= 1
  {
    [Repeat('-', width), LabelLine(Edges(lo, hi, bins), bins, fmt, width / bins)]
    + CaptionLines(xlabel, width)
    + (if ylabel != "" then [RJust(ylabel, 10) + " (count)"] else [])
    + ["\n"]
  }

  /** The chart lines after the title when the data has a spread: the bar
      rows from the top level down, then the footer. */
  function HistChart(data: seq<real>, bins: nat, width: int, height: int, fmt: real -> string,
                     xlabel: string, ylabel: string, glyph: string): seq<string>
    requires |data| > 0 && MinOf(data) != MaxOf(data) && bins >= 1
  {
    var counts := Counts(data, bins);
    Bars(counts, MaxCount(counts), height, glyph, width / bins) + Footer(MinOf(data), MaxOf(data), bins, width, fmt, xlabel, ylabel)
  }

  /** The footer holds the rule first, the edge labels second, then the
      x-axis caption and the y-axis caption with its `(count)` suffix when
      given, and a newline line last. */
  lemma FooterLayout(lo: real, hi: real, bins: nat, width: int, fmt: real -> string,
                     xlabel: string, ylabel: string)
    requires bins >= 1
    ensures |Footer(lo, hi, bins, width, fmt, xlabel, ylabel)| == 3 + Lead(xlabel) + Lead(ylabel)
    ensures Footer(lo, hi, bins, width, fmt, xlabel, ylabel)[0] == Repeat('-', width)
    ensures Footer(lo, hi, bins, width, fmt, xlabel, ylabel)[1] == LabelLine(Edges(lo, hi, bins), bins, fmt, width / bins)
    ensures xlabel != "" ==>
              Footer(lo, hi, bins, width, fmt, xlabel, ylabel)[2] == "\n" + Center(xlabel, width)
    ensures ylabel != "" ==>
              Footer(lo, hi, bins, width, fmt, xlabel, ylabel)[2 + Lead(xlabel)] == RJust(ylabel, 10) + " (count)"
    ensures Footer(lo, hi, bins, width, fmt, xlabel, ylabel)[2 + Lead(xlabel) + Lead(ylabel)] == "\n"
  {
    var two := [Repeat('-', width), LabelLine(Edges(lo, hi, bins), bins, fmt, width / bins)];
    var caps := CaptionLines(xlabel, width);
    var ys: seq<string> := if ylabel != "" then [RJust(ylabel, 10) + " (count)"] else [];
    var f := Footer(lo, hi, bins, width, fmt, xlabel, ylabel);
    assert f == two + caps + ys + ["\n"];
    assert |caps| == Lead(xlabel) && |ys| == Lead(ylabel);
    Parts(two, caps, ys, ["\n"]);
    assert f[..2] == two;
    assert f[0] == two[0] && f[1] == two[1];
  }

  /** A histogram chart is `height` bar rows, the top level first and
      level 0 last, followed by the footer: the rule, the edge labels,
      the optional captions and a newline line. */
  lemma HistChartLayout(data: seq<real>, bins: nat, width: int, height: int, fmt: real -> string,
                        xlabel: string, ylabel: string, glyph: string)
    requires |data| > 0 && MinOf(data) != MaxOf(data) && bins >= 1
    ensures |HistChart(data, bins, width, height, fmt, xlabel, ylabel, glyph)| == Max(height, 0) + 3 + Lead(xlabel) + Lead(ylabel)
    ensures HistChart(data, bins, width, height, fmt, xlabel, ylabel, glyph)[..Max(height, 0)]
            == Bars(Counts(data, bins), MaxCount(Counts(data, bins)), height, glyph, width / bins)
    ensures HistChart(data, bins, width, height, fmt, xlabel, ylabel, glyph)[Max(height, 0)..]
            == Footer(MinOf(data), MaxOf(data), bins, width, fmt, xlabel, ylabel)
  {
    var counts := Counts(data, bins);
    var bars := Bars(counts, MaxCount(counts), height, glyph, width / bins);
    var foot := Footer(MinOf(data), MaxOf(data), bins, width, fmt, xlabel, ylabel);
    FooterLayout(MinOf(data), MaxOf(data), bins, width, fmt, xlabel, ylabel);
    Halves(bars, foot);
  }

  /** The printed lines of a histogram: the title (if any) first, then the
      error line for empty or constant data, or the chart. */
  function Hist(data: seq<real>, bins: int, width: int, height: int, fmt: real -> string,
                title: string, xlabel: string, ylabel: string, color: Option<string>, mark: string): (lines: seq<string>)
    requires |data| > 0 && MinOf(data) != MaxOf(data) ==> bins >= 1
    ensures |lines| > Lead(title) && lines[..Lead(title)] == TitleLines(title, width)
    ensures |data| == 0 ==> lines[Lead(title)..] == [EmptyInput]
    ensures |data| > 0 && MinOf(data) == MaxOf(data) ==> lines[Lead(title)..] == [SameValues]
    ensures |data| > 0 && MinOf(data) != MaxOf(data) ==>
              lines[Lead(title)..] == HistChart(data, bins, width, height, fmt, xlabel, ylabel, Decorate(color, mark))
  {
    var t := TitleLines(title, width);
    assert |t| == Lead(title);
    if |data| == 0 then t + [EmptyInput]
    else
      var lo, hi := MinOf(data), MaxOf(data);
      if lo == hi then t + [SameValues]
      else
        var counts := Counts(data, bins);
        if MaxCount(counts) == 0 then t + [NoneBinned]
        else
          var chart := HistChart(data, bins, width, height, fmt, xlabel, ylabel, Decorate(color, mark));
          assert (t + chart)[|t|..] == chart;
          t + chart
  }
}
