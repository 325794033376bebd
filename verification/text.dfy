/**
 String and sequence helpers with the semantics of the Python operations
 the renderer relies on: repetition by a possibly negative count, slicing by
 a possibly negative bound, left/right justification, centring, joining and
 flattening a list of lists.
 */
module Text {

  function Max(a: int, b: int): int { if a < b then b else a }

  function Min(a: int, b: int): int { if a < b then a else b }

  /** `c * n` in Python: `n` copies of `c`, and the empty string when `n <= 0`. */
  function Repeat(c: char, n: int): (r: string)
    ensures |r| == Max(n, 0)
    ensures forall i :: 0 <= i < |r| ==> r[i] == c
    decreases n
  {
    if n <= 0 then "" else [c] + Repeat(c, n - 1)
  }

  function Spaces(n: int): string { Repeat(' ', n) }

  /** `s[:n]` in Python: a negative bound counts from the end of `s`. */
  function Prefix(s: string, n: int): (r: string)
    ensures 0 <= n ==> |r| == Min(n, |s|)
    ensures n < 0 ==> |r| == Max(|s| + n, 0)
    ensures r <= s
  {
    if 0 <= n then s[..Min(n, |s|)] else s[..Max(|s| + n, 0)]
  }

  /** `s.ljust(w)`: `s` followed by blanks up to width `w`; never shortens `s`. */
  function LJust(s: string, w: int): (r: string)
    ensures |r| == Max(w, |s|)
    ensures r[..|s|] == s
    ensures forall i :: |s| <= i < |r| ==> r[i] == ' '
  {
    if w <= |s| then s else s + Spaces(w - |s|)
  }

  /** `s.rjust(w)`: blanks up to width `w` followed by `s`; never shortens `s`. */
  function RJust(s: string, w: int): (r: string)
    ensures |r| == Max(w, |s|)
    ensures r[|r| - |s|..] == s
    ensures forall i :: 0 <= i < |r| - |s| ==> r[i] == ' '
  {
    if w <= |s| then s else Spaces(w - |s|) + s
  }

  /** The left margin CPython's `str.center` chooses: half the padding, plus one
      when both the padding and the target width are odd. */
  function CenterLeft(len: nat, w: int): int
  {
    var marg := w - len;
    marg / 2 + (if marg % 2 == 1 && w % 2 == 1 then 1 else 0)
  }

  /** `s.center(w)`: `s` padded on both sides to width `w`; never shortens `s`. */
  function Center(s: string, w: int): (r: string)
    ensures |r| == Max(w, |s|)
    ensures w <= |s| ==> r == s
    ensures |s| < w ==>
      var left := CenterLeft(|s|, w);
      && 0 <= left <= w - |s|
      && r[left..left + |s|] == s
      && (forall i :: 0 <= i < |r| && !(left <= i < left + |s|) ==> r[i] == ' ')
      && -1 <= (w - |s| - left) - left <= 1
  {
    if w <= |s| then s
    else
      var left := CenterLeft(|s|, w);
      Spaces(left) + s + Spaces(w - |s| - left)
  }

  /** `"".join(cells)`. */
  function Concat(cells: seq<string>): string
    decreases |cells|
  {
    if cells == [] then "" else Concat(cells[..|cells| - 1]) + cells[|cells| - 1]
  }

  predicate SingleChars(cells: seq<string>)
  {
    forall i :: 0 <= i < |cells| ==> |cells[i]| == 1
  }

  /** Joining one-character cells yields exactly one character per cell, in order. */
  lemma {:induction false} ConcatSingleChars(cells: seq<string>)
    requires SingleChars(cells)
    ensures |Concat(cells)| == |cells|
    ensures forall i :: 0 <= i < |cells| ==> Concat(cells)[i] == cells[i][0]
    decreases |cells|
  {
    if cells != [] {
      var init := cells[..|cells| - 1];
      assert SingleChars(init) by {
        forall i | 0 <= i < |init| ensures |init[i]| == 1 {
          assert init[i] == cells[i];
        }
      }
      ConcatSingleChars(init);
      assert Concat(cells) == Concat(init) + cells[|cells| - 1];
    }
  }

  /** Joining `n` cells of width `w` gives `n * w` characters. */
  lemma {:induction false} ConcatLength(cells: seq<string>, w: nat)
    requires forall i :: 0 <= i < |cells| ==> |cells[i]| == w
    ensures |Concat(cells)| == |cells| * w
    decreases |cells|
  {
    if cells != [] {
      var n := |cells|;
      var init := cells[..n - 1];
      assert forall i :: 0 <= i < |init| ==> init[i] == cells[i];
      ConcatLength(init, w);
      assert Concat(cells) == Concat(init) + cells[n - 1];
      assert (n - 1) * w + w == n * w;
    }
  }

  /** In the join of `n` cells of width `w`, cell `i` is the slice from
      `i * w` of length `w`. */
  lemma {:induction false} ConcatSlice(cells: seq<string>, w: nat, i: int)
    requires forall k :: 0 <= k < |cells| ==> |cells[k]| == w
    requires 0 <= i < |cells|
    ensures |Concat(cells)| == |cells| * w
    ensures i * w + w <= |Concat(cells)|
    ensures Concat(cells)[i * w .. i * w + w] == cells[i]
    decreases |cells|
  {
    var n := |cells|;
    var init := cells[..n - 1];
    assert forall k :: 0 <= k < |init| ==> init[k] == cells[k];
    ConcatLength(cells, w);
    ConcatLength(init, w);
    var front := Concat(init);
    var c := Concat(cells);
    assert c == front + cells[n - 1];
    if i == n - 1 {
      assert i * w == |front|;
      assert c[|front| .. |front| + w] == cells[n - 1];
    } else {
      ConcatSlice(init, w, i);
      assert c[i * w .. i * w + w] == front[i * w .. i * w + w];
    }
  }

  /** Where the four parts of `a + b + c + d` land. */
  lemma Parts(a: seq<string>, b: seq<string>, c: seq<string>, d: seq<string>)
    ensures |a + b + c + d| == |a| + |b| + |c| + |d|
    ensures (a + b + c + d)[..|a|] == a
    ensures (a + b + c + d)[|a| + |b|..|a| + |b| + |c|] == c
    ensures |b| == 1 ==> (a + b + c + d)[|a|] == b[0]
    ensures |c| == 1 ==> (a + b + c + d)[|a| + |b|] == c[0]
    ensures |d| == 1 ==> (a + b + c + d)[|a| + |b| + |c|] == d[0]
  {
    var s := a + b + c + d;
    assert s == a + (b + c + d);
    assert s == (a + b) + c + d;
    assert s == (a + b + c) + d;
  }

  /** The two halves of `a + b`. */
  lemma Halves(a: seq<string>, b: seq<string>)
    ensures |a + b| == |a| + |b|
    ensures (a + b)[..|a|] == a && (a + b)[|a|..] == b
  {
  }

  /** `[v for part in parts for v in part]`: the parts one after another. */
  function Flatten<T(==)>(parts: seq<seq<T>>): (all: seq<T>)
    ensures forall i, k :: 0 <= i < |parts| && 0 <= k < |parts[i]| ==> parts[i][k] in all
    ensures forall v :: v in all ==> exists i, k :: 0 <= i < |parts| && 0 <= k < |parts[i]| && parts[i][k] == v
    ensures |all| == 0 <==> forall i :: 0 <= i < |parts| ==> |parts[i]| == 0
  {
    if parts == [] then []
    else
      var rest := Flatten(parts[1..]);
      assert forall i :: 1 <= i < |parts| ==> parts[i] == parts[1..][i - 1];
      parts[0] + rest
  }

  /** Flattening one more part appends that part. */
  lemma {:induction false} FlattenSnoc<T>(parts: seq<seq<T>>, last: seq<T>)
    ensures Flatten(parts + [last]) == Flatten(parts) + last
    decreases |parts|
  {
    if parts != [] {
      assert (parts + [last])[1..] == parts[1..] + [last];
      FlattenSnoc(parts[1..], last);
    }
  }
}
