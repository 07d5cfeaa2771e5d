/** The C library calls both buffers are built on, as functions on byte
    sequences: `memchr`, `memcmp` and the length-aware comparison both files
    derive from it, with the order they induce and what a substring occurrence
    is. */
module Memory {
  import opened Bytes

  /** `memchr(s + from, c, to - from)`: the first index in [from, to) holding
      `c`, or -1. An empty or inverted window finds nothing. */
  function FindByte(s: seq<Byte>, from: int, to: int, c: Byte): (r: int)
    requires 0 <= from && to <= |s|
    decreases if from <= to then to - from else 0
    ensures r == -1 || (from <= r < to && s[r] == c)
    ensures r == -1 ==> forall k :: from <= k < to ==> s[k] != c
    ensures r != -1 ==> forall k :: from <= k < r ==> s[k] != c
  {
    if from >= to then -1
    else if s[from] == c then from
    else FindByte(s, from + 1, to, c)
  }

  /** Only the bytes inside the window matter to `memchr`: two memories that
      agree on [from, to) give the same answer. */
  lemma {:induction false} FindByteAgrees(s: seq<Byte>, t: seq<Byte>, from: int, to: int, c: Byte)
    requires 0 <= from && to <= |s| && to <= |t|
    requires forall k :: from <= k < to ==> s[k] == t[k]
    ensures FindByte(s, from, to, c) == FindByte(t, from, to, c)
    decreases if from <= to then to - from else 0
  {
    if from < to && s[from] != c {
      FindByteAgrees(s, t, from + 1, to, c);
    }
  }

  /** Searching a longer window returns the same hit whenever the shorter
      window has one; when it has none, the longer window's hit (if any) lies
      past the shorter window. */
  lemma {:induction false} FindByteWider(s: seq<Byte>, from: int, to: int, wide: int, c: Byte)
    requires 0 <= from && to <= wide <= |s|
    ensures FindByte(s, from, to, c) != -1 ==> FindByte(s, from, wide, c) == FindByte(s, from, to, c)
    ensures FindByte(s, from, to, c) == -1 ==> FindByte(s, from, wide, c) == -1 || FindByte(s, from, wide, c) >= to
    decreases if from <= to then to - from else 0
  {
    if from < to && s[from] != c {
      FindByteWider(s, from + 1, to, wide, c);
    }
  }

  /** The index of the first byte in [i, n) where `a` and `b` differ, or `n`. */
  function FirstDiff(a: seq<Byte>, b: seq<Byte>, n: nat, i: nat): (d: nat)
    requires i <= n <= |a| && n <= |b|
    decreases n - i
    ensures i <= d <= n
    ensures forall k :: i <= k < d ==> a[k] == b[k]
    ensures d < n ==> a[d] != b[d]
  {
    if i == n || a[i] != b[i] then i else FirstDiff(a, b, n, i + 1)
  }

  /** `memcmp(a, b, n)`. ISO C fixes only the sign: it is that of the first
      differing pair of bytes, read as `unsigned char`. The model returns that
      difference itself. */
  function MemCmp(a: seq<Byte>, b: seq<Byte>, n: nat): (r: int)
    requires n <= |a| && n <= |b|
    ensures r == 0 <==> a[..n] == b[..n]
  {
    var d := FirstDiff(a, b, n, 0);
    assert d < n ==> a[..n][d] != b[..n][d];
    if d == n then 0 else a[d] as int - b[d] as int
  }

  function Min(x: int, y: int): int { if x < y then x else y }

  /** `memcmp` over the common prefix, ties broken by the length difference:
      the comparison behind `stringbuilder_compare` and `mutstr_memncmp`. */
  function MemNCmp(a: seq<Byte>, b: seq<Byte>): (r: int)
    ensures r == 0 <==> a == b
  {
    var n := Min(|a|, |b|);
    var c := MemCmp(a, b, n);
    assert a == b ==> a[..n] == b[..n];
    assert |a| == |b| && a[..n] == b[..n] ==> a == a[..n] && b == b[..n];
    if c == 0 then |a| - |b| else c
  }

  /** Lexicographic order on byte strings from position `i` on: a proper
      prefix is smaller, otherwise the first differing byte decides. */
  predicate LexLessFrom(a: seq<Byte>, b: seq<Byte>, i: nat)
    requires i <= |a| && i <= |b|
    decreases |a| - i
  {
    if i == |a| then i < |b|
    else i < |b| && (a[i] < b[i] || (a[i] == b[i] && LexLessFrom(a, b, i + 1)))
  }

  predicate LexLess(a: seq<Byte>, b: seq<Byte>) { LexLessFrom(a, b, 0) }

  lemma {:induction false} FirstDiffDecidesOrder(a: seq<Byte>, b: seq<Byte>, i: nat)
    requires i <= |a| && i <= |b|
    ensures var d := FirstDiff(a, b, Min(|a|, |b|), i);
            LexLessFrom(a, b, i) <==> (if d < Min(|a|, |b|) then a[d] < b[d] else |a| < |b|)
    decreases |a| - i
  {
    var n := Min(|a|, |b|);
    if i < n && a[i] == b[i] {
      FirstDiffDecidesOrder(a, b, i + 1);
    }
  }

  /** The comparison is negative exactly when `a` sorts before `b`. */
  lemma CompareNegativeIffLess(a: seq<Byte>, b: seq<Byte>)
    ensures MemNCmp(a, b) < 0 <==> LexLess(a, b)
  {
    FirstDiffDecidesOrder(a, b, 0);
  }

  lemma {:induction false} FirstDiffSymmetric(a: seq<Byte>, b: seq<Byte>, n: nat, i: nat)
    requires i <= n <= |a| && n <= |b|
    ensures FirstDiff(a, b, n, i) == FirstDiff(b, a, n, i)
    decreases n - i
  {
    if i < n && a[i] == b[i] {
      FirstDiffSymmetric(a, b, n, i + 1);
    }
  }

  /** Swapping the operands flips the sign of the comparison. With this
      model's `memcmp`, which returns the byte difference, it negates it. */
  lemma CompareAntisymmetric(a: seq<Byte>, b: seq<Byte>)
    ensures MemNCmp(b, a) < 0 <==> MemNCmp(a, b) > 0
    ensures MemNCmp(b, a) == -MemNCmp(a, b)
  {
    FirstDiffSymmetric(a, b, Min(|a|, |b|), 0);
  }

  /** `needle` occurs in `s` starting at index `i`. */
  predicate OccursAt(s: seq<Byte>, i: int, needle: seq<Byte>) {
    0 <= i && i + |needle| <= |s| && s[i..i + |needle|] == needle
  }

  ghost predicate Occurs(s: seq<Byte>, needle: seq<Byte>) {
    exists i :: OccursAt(s, i, needle)
  }

  /** A substring search that examines every candidate position from `from`
      on: the first index at or after `from` where `needle` occurs, or -1. */
  function FirstIndexOfFrom(s: seq<Byte>, needle: seq<Byte>, from: nat): (r: int)
    decreases |s| + 1 - from
    ensures r == -1 || (from <= r && OccursAt(s, r, needle))
    ensures r == -1 ==> forall k :: from <= k ==> !OccursAt(s, k, needle)
    ensures r != -1 ==> forall k :: from <= k < r ==> !OccursAt(s, k, needle)
  {
    if from + |needle| > |s| then -1
    else if s[from..from + |needle|] == needle then from
    else FirstIndexOfFrom(s, needle, from + 1)
  }

  /** The search the buffers were evidently meant to perform: the first
      occurrence of `needle` in `s`, or -1 when there is none. */
  function FirstIndexOf(s: seq<Byte>, needle: seq<Byte>): (r: int)
    ensures r >= 0 ==> OccursAt(s, r, needle) && forall k :: 0 <= k < r ==> !OccursAt(s, k, needle)
    ensures r == -1 <==> !Occurs(s, needle)
    ensures r >= -1
  {
    FirstIndexOfFrom(s, needle, 0)
  }
}
