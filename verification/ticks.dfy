/**
 Tick selection along an axis of `n` cells: every `n // 5`-th index (every
 index when `n < 5`), plus the first and the last.
 */
module Ticks {

  /** `n // 5 if n >= 5 else 1`. */
  function TickStep(n: int): (s: int)
    ensures s >= 1
    ensures n >= 5 ==> 5 * s <= n < 5 * s + 5
  {
    if n >= 5 then n / 5 else 1
  }

  /** `r % step == 0 or r == 0 or r == n - 1`. */
  predicate IsTick(r: int, n: int)
  {
    r % TickStep(n) == 0 || r == 0 || r == n - 1
  }

  /** The ticks described independently: the multiples of the step that lie
      on the axis, and the last index. */
  function TickSet(n: nat): set<int>
  {
    (set m | 0 <= m < n && m * TickStep(n) < n :: m * TickStep(n)) + (if n > 0 then {n - 1} else {})
  }

  /** A multiple of the step on the axis is in `TickSet(n)`. */
  lemma MultipleInTickSet(n: nat, m: int)
    requires 0 <= m && m * TickStep(n) < n
    ensures m * TickStep(n) in TickSet(n)
  {
    var s := TickStep(n);
    AtLeastSelf(m, s);
    assert 0 <= m < n && m * s < n;
    assert m * s in (set m' | 0 <= m' < n && m' * s < n :: m' * s);
  }

  /** A multiple by at least one is no smaller than the number itself. */
  lemma AtLeastSelf(m: int, s: int)
    requires 0 <= m && 1 <= s
    ensures m <= m * s
  {
    assert m * s == m + m * (s - 1);
  }

  /** On an axis of `n` cells the selection rule picks exactly `TickSet(n)`. */
  lemma TicksAreTickSet(n: nat, r: int)
    requires 0 <= r < n
    ensures IsTick(r, n) <==> r in TickSet(n)
  {
    var s := TickStep(n);
    if r % s == 0 {
      var m := r / s;
      assert m * s == r;
      MultipleInTickSet(n, m);
    } else if r == 0 {
      MultipleInTickSet(n, 0);
    }
    if r in TickSet(n) && r != n - 1 {
      var m :| 0 <= m < n && m * s < n && m * s == r;
      MultipleMod(m, s);
    }
  }

  lemma MultipleMod(m: int, s: int)
    requires 0 <= m && 1 <= s
    ensures (m * s) % s == 0
  {
    var q, r := (m * s) / s, (m * s) % s;
    assert (m - q) * s == r;
    SmallMultiple(m - q, s);
  }

  lemma SmallMultiple(d: int, s: int)
    requires 1 <= s && 0 <= d * s < s
    ensures d == 0
  {
  }

  /** Both ends of the axis are always ticks, and on an axis shorter than
      five cells every index is. */
  lemma EndsAndShortAxes(n: int)
    requires n >= 1
    ensures IsTick(0, n) && IsTick(n - 1, n)
    ensures n < 5 ==> forall r :: 0 <= r < n ==> IsTick(r, n)
  {
  }

  /** Ticks are never more than a step apart: every index has a tick at or
      below it within `TickStep(n) - 1` cells. */
  lemma TickWithinStep(n: int, r: int)
    requires 0 <= r < n
    ensures exists t :: r - TickStep(n) < t <= r && IsTick(t, n)
  {
    var s := TickStep(n);
    var t := r - r % s;
    assert t % s == 0 by {
      assert t == (r / s) * s;
      MultipleMod(r / s, s);
    }
    assert IsTick(t, n);
  }

  /** On an axis of at least five cells the multiples of the step reach at
      least index `4 * step`, so at least five of them are ticks, and the
      step is never larger than a fifth of the axis. */
  lemma FiveMultiples(n: int)
    requires n >= 5
    ensures forall m :: 0 <= m < 5 ==> 0 <= m * TickStep(n) < n && IsTick(m * TickStep(n), n)
  {
    var s := TickStep(n);
    forall m | 0 <= m < 5
      ensures 0 <= m * s < n && IsTick(m * s, n)
    {
      MultipleMod(m, s);
    }
  }
}
