/**
 The scale mapper: data values become grid indices by the linear map
 `int(((v - min) / range) * (span - 1))`, collapsing to 0 when the range is
 zero; rows are then flipped so that larger values sit higher on screen.
 Also the data range (minimum and maximum) the map is taken over.
 */
module Scale {

  /** Python's `int(x)` on a float: truncation toward zero. */
  function Trunc(x: real): (r: int)
    ensures 0.0 <= x ==> r >= 0 && r as real <= x < r as real + 1.0
    ensures x < 0.0 ==> r <= 0 && r as real - 1.0 < x <= r as real
  {
    if 0.0 <= x then x.Floor else -((-x).Floor)
  }

  /** For non-negative arguments truncation is the floor. */
  lemma TruncIsFloor(x: real)
    requires 0.0 <= x
    ensures Trunc(x) == x.Floor
  {
  }

  /** Truncation of a non-negative value is monotone. */
  lemma TruncMonotone(x: real, y: real)
    requires 0.0 <= x <= y
    ensures Trunc(x) <= Trunc(y)
  {
  }

  /** The position of `v` within `[lo, hi]`, as a fraction. */
  function Ratio(v: real, lo: real, hi: real): real
    requires hi - lo != 0.0
  {
    (v - lo) / (hi - lo)
  }

  lemma RatioBounds(v: real, lo: real, hi: real)
    requires lo <= v <= hi && hi - lo != 0.0
    ensures 0.0 <= Ratio(v, lo, hi) <= 1.0
    ensures v == lo ==> Ratio(v, lo, hi) == 0.0
    ensures v == hi ==> Ratio(v, lo, hi) == 1.0
  {
    var d, n := hi - lo, v - lo;
    var r := n / d;
    assert d > 0.0 && 0.0 <= n <= d;
    assert r * d == n;
    if v == lo {
      assert n == 0.0;
    }
  }

  lemma ScaleFraction(t: real, k: int)
    requires 0.0 <= t <= 1.0 && 0 <= k
    ensures 0.0 <= t * k as real <= k as real
  {
  }

  lemma ScaleMonotone(a: real, b: real, k: real)
    requires a <= b && 0.0 <= k
    ensures a * k <= b * k
  {
    assert b * k - a * k == (b - a) * k;
  }

  /** The position of `v` scaled to an axis of `span` cells: between 0 and
      `span - 1` for a value in range, 0 at the minimum and `span - 1` at
      the maximum. */
  lemma ScaledFacts(v: real, lo: real, hi: real, span: int)
    requires hi - lo != 0.0
    ensures lo <= v <= hi && 1 <= span ==> 0.0 <= Ratio(v, lo, hi) * (span - 1) as real <= (span - 1) as real
    ensures lo < hi && v == lo ==> Ratio(v, lo, hi) * (span - 1) as real == 0.0
    ensures lo < hi && v == hi ==> Ratio(v, lo, hi) * (span - 1) as real == (span - 1) as real
  {
    if lo <= v <= hi {
      RatioBounds(v, lo, hi);
      if 1 <= span {
        ScaleFraction(Ratio(v, lo, hi), span - 1);
      }
    }
  }

  /** The cell index of `v` along an axis of `span` cells, for the data range
      `[lo, hi]`: `int(((v - min) / range) * (span - 1))`, and 0 whenever
      the range is zero. */
  function MapIndex(v: real, lo: real, hi: real, span: int): (r: int)
    ensures hi - lo == 0.0 ==> r == 0
    ensures lo <= v <= hi && 1 <= span ==> 0 <= r < span
    ensures lo < hi && 1 <= span && v == lo ==> r == 0
    ensures lo < hi && 1 <= span && v == hi ==> r == span - 1
  {
    if hi - lo != 0.0 then
      ScaledFacts(v, lo, hi, span);
      Trunc(Ratio(v, lo, hi) * (span - 1) as real)
    else
      0
  }

  /** A larger value sits no lower within the range. */
  lemma RatioMonotone(v: real, w: real, lo: real, hi: real)
    requires v <= w && lo < hi
    ensures Ratio(v, lo, hi) <= Ratio(w, lo, hi)
  {
    assert Ratio(w, lo, hi) - Ratio(v, lo, hi) == (w - v) / (hi - lo);
  }

  /** A larger value never maps to a smaller index. */
  lemma MapIndexMonotone(v: real, w: real, lo: real, hi: real, span: int)
    requires lo <= v <= w <= hi && 1 <= span
    ensures MapIndex(v, lo, hi, span) <= MapIndex(w, lo, hi, span)
  {
    if hi - lo != 0.0 {
      var k := (span - 1) as real;
      var a, b := Ratio(v, lo, hi), Ratio(w, lo, hi);
      RatioMonotone(v, w, lo, hi);
      ScaledFacts(v, lo, hi, span);
      ScaleMonotone(a, b, k);
      TruncMonotone(a * k, b * k);
      assert MapIndex(v, lo, hi, span) == Trunc(a * k) && MapIndex(w, lo, hi, span) == Trunc(b * k);
    }
  }

  /** `height - 1 - y_scaled`: row 0 is the top of the grid, so the vertical
      index is mirrored. */
  function FlipRow(yIndex: int, height: int): (row: int)
    ensures 0 <= yIndex < height ==> 0 <= row < height
    ensures row + yIndex == height - 1
  {
    height - 1 - yIndex
  }

  /** Python's `min(s)`. */
  function MinOf(s: seq<real>): (m: real)
    requires |s| > 0
    ensures m in s
    ensures forall i :: 0 <= i < |s| ==> m <= s[i]
    decreases |s|
  {
    if |s| == 1 then s[0]
    else
      var rest := MinOf(s[1..]);
      if s[0] <= rest then s[0] else rest
  }

  /** Python's `max(s)`. */
  function MaxOf(s: seq<real>): (m: real)
    requires |s| > 0
    ensures m in s
    ensures forall i :: 0 <= i < |s| ==> s[i] <= m
    decreases |s|
  {
    if |s| == 1 then s[0]
    else
      var rest := MaxOf(s[1..]);
      if rest <= s[0] then s[0] else rest
  }
}
