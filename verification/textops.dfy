/** Pure specifications of what the buffers' in-place text operations compute:
    repetition, whitespace trimming and single-byte replacement. The buffer
    methods are proved against these functions, and the properties the
    library promises are proved about the functions here. */
module TextOps {
  import opened Bytes

  // ---------------------------------------------------------------- repeat

  /** `s` written `k` times in a row. */
  function Repeat(s: seq<Byte>, k: nat): seq<Byte>
  {
    if k == 0 then [] else Repeat(s, k - 1) + s
  }

  /** The repetition is `k` times as long as `s`, and byte `j` of it is byte
      `j mod |s|` of `s`. */
  lemma {:induction false} RepeatAt(s: seq<Byte>, k: nat)
    ensures |Repeat(s, k)| == |s| * k
    ensures forall j :: 0 <= j < |s| * k ==> Repeat(s, k)[j] == s[j % |s|]
  {
    RepeatLength(s, k);
    forall j | 0 <= j < |s| * k
      ensures Repeat(s, k)[j] == s[j % |s|]
    {
      RepeatIndex(s, k, j);
    }
  }

  lemma {:induction false} RepeatLength(s: seq<Byte>, k: nat)
    ensures |Repeat(s, k)| == |s| * k
  {
    if k > 0 {
      RepeatLength(s, k - 1);
      assert |s| * k == |s| * (k - 1) + |s|;
    }
  }

  /** Byte `j` of the repetition: the copy it falls in does not matter. */
  lemma {:induction false} RepeatIndex(s: seq<Byte>, k: nat, j: int)
    requires 0 <= j < |Repeat(s, k)|
    ensures |s| > 0 && Repeat(s, k)[j] == s[j % |s|]
  {
    var prev := Repeat(s, k - 1);
    var m := |prev|;
    if j < m {
      RepeatIndex(s, k - 1, j);
    } else {
      RepeatLength(s, k - 1);
      assert m == |s| * (k - 1);
      DivModUnique(j, |s|, k - 1, j - m);
    }
  }

  lemma MulNonneg(a: int, b: int)
    requires a >= 0 && b >= 0
    ensures a * b >= 0
  {
  }

  /** One more factor adds one more `a`, and stays within `a * t`. */
  lemma MulStep(a: nat, k: nat, t: nat)
    requires k < t
    ensures a * (k + 1) == a * k + a && a * (k + 1) <= a * t
  {
    MulNonneg(a, t - (k + 1));
    assert a * t == a * (k + 1) + a * (t - (k + 1));
  }

  /** Euclidean division has one quotient and one remainder. */
  lemma DivModUnique(x: int, n: int, q: int, r: int)
    requires n > 0 && 0 <= r < n && x == q * n + r
    ensures x % n == r
  {
    var q', r' := x / n, x % n;
    assert x == q' * n + r';
    var d := q - q';
    assert d * n == r' - r;
    if d >= 1 {
      MulNonneg(d - 1, n);
      assert false;
    } else if d <= -1 {
      MulNonneg(-d - 1, n);
      assert false;
    }
  }

  /** A memory holding `k` copies followed by one more holds `k + 1`. */
  lemma RepeatStep(mem: seq<Byte>, s: seq<Byte>, k: nat, at: int)
    requires 0 <= at && at + |s| <= |mem|
    requires mem[..at] == Repeat(s, k) && mem[at..at + |s|] == s
    ensures mem[..at + |s|] == Repeat(s, k + 1)
  {
    assert mem[..at + |s|] == mem[..at] + mem[at..at + |s|];
  }

  /** Repeating once gives the text back; repeating nothing gives nothing. */
  lemma RepeatUnits(s: seq<Byte>, k: nat)
    ensures Repeat(s, 1) == s
    ensures Repeat([], k) == []
    ensures Repeat(s, 0) == []
  {
    if k > 0 { RepeatEmpty(k); }
  }

  lemma {:induction false} RepeatEmpty(k: nat)
    ensures Repeat([], k) == []
  {
    if k > 0 { RepeatEmpty(k - 1); }
  }

  /** Repeating `j` times and then `k` more times is repeating `j + k` times. */
  lemma {:induction false} RepeatAdd(s: seq<Byte>, j: nat, k: nat)
    ensures Repeat(s, j + k) == Repeat(s, j) + Repeat(s, k)
  {
    if k > 0 {
      RepeatAdd(s, j, k - 1);
      assert Repeat(s, j + k) == Repeat(s, j + k - 1) + s;
    }
  }

  // ------------------------------------------------------------------ trim

  /** How many whitespace bytes `s` starts with. */
  function LeadingSpace(s: seq<Byte>): (n: nat)
    ensures n <= |s|
  {
    if s == [] || !IsSpace(s[0]) then 0 else 1 + LeadingSpace(s[1..])
  }

  /** How many whitespace bytes `s` ends with. */
  function TrailingSpace(s: seq<Byte>): (n: nat)
    ensures n <= |s|
  {
    if s == [] || !IsSpace(s[|s| - 1]) then 0 else 1 + TrailingSpace(s[..|s| - 1])
  }

  /** The leading run is whitespace and ends at a byte that is not. */
  lemma {:induction false} LeadingSpaceSpec(s: seq<Byte>)
    ensures forall k :: 0 <= k < LeadingSpace(s) ==> IsSpace(s[k])
    ensures LeadingSpace(s) < |s| ==> !IsSpace(s[LeadingSpace(s)])
  {
    if s != [] && IsSpace(s[0]) {
      var t := s[1..];
      LeadingSpaceSpec(t);
      forall k | 1 <= k < LeadingSpace(s)
        ensures IsSpace(s[k])
      {
        assert s[k] == t[k - 1];
      }
    }
  }

  /** The trailing run is whitespace and starts after a byte that is not. */
  lemma {:induction false} TrailingSpaceSpec(s: seq<Byte>)
    ensures forall k :: |s| - TrailingSpace(s) <= k < |s| ==> IsSpace(s[k])
    ensures TrailingSpace(s) < |s| ==> !IsSpace(s[|s| - 1 - TrailingSpace(s)])
  {
    if s != [] && IsSpace(s[|s| - 1]) {
      var t := s[..|s| - 1];
      TrailingSpaceSpec(t);
      forall k | |s| - TrailingSpace(s) <= k < |s| - 1
        ensures IsSpace(s[k])
      {
        assert s[k] == t[k];
      }
    }
  }

  /** A scan from the front that stops at `c` stopped where LeadingSpace says. */
  lemma {:induction false} LeadingSpaceUnique(s: seq<Byte>, c: nat)
    requires c <= |s|
    requires forall k :: 0 <= k < c ==> IsSpace(s[k])
    requires c < |s| ==> !IsSpace(s[c])
    ensures LeadingSpace(s) == c
  {
    if c > 0 {
      var t := s[1..];
      forall k | 0 <= k < c - 1
        ensures IsSpace(t[k])
      {
        assert t[k] == s[k + 1];
      }
      LeadingSpaceUnique(t, c - 1);
    }
  }

  /** A scan from the back that stops after `e` stopped where TrailingSpace says. */
  lemma {:induction false} TrailingSpaceUnique(s: seq<Byte>, e: nat)
    requires e <= |s|
    requires forall k :: e <= k < |s| ==> IsSpace(s[k])
    requires e > 0 ==> !IsSpace(s[e - 1])
    ensures TrailingSpace(s) == |s| - e
  {
    if e < |s| {
      var t := s[..|s| - 1];
      forall k | e <= k < |t|
        ensures IsSpace(t[k])
      {
        assert t[k] == s[k];
      }
      TrailingSpaceUnique(t, e);
    }
  }

  function TrimLeft(s: seq<Byte>): seq<Byte> { s[LeadingSpace(s)..] }

  function TrimRight(s: seq<Byte>): seq<Byte> { s[..|s| - TrailingSpace(s)] }

  /** Whitespace removed from both ends. */
  function Trim(s: seq<Byte>): seq<Byte> { TrimRight(TrimLeft(s)) }

  predicate AllSpace(s: seq<Byte>) { forall k :: 0 <= k < |s| ==> IsSpace(s[k]) }

  /** The trimmed text neither starts nor ends with whitespace. */
  lemma TrimEnds(s: seq<Byte>)
    ensures Trim(s) != [] ==> !IsSpace(Trim(s)[0]) && !IsSpace(Trim(s)[|Trim(s)| - 1])
  {
    var l := TrimLeft(s);
    var t := Trim(s);
    LeadingSpaceSpec(s);
    TrailingSpaceSpec(l);
    if t != [] {
      assert t[0] == l[0] == s[LeadingSpace(s)];
      assert t[|t| - 1] == l[|l| - 1 - TrailingSpace(l)];
    }
  }

  /** Only whitespace is cut away: everything before and after the slice. */
  lemma TrimCutsOnlySpace(s: seq<Byte>)
    ensures var i := LeadingSpace(s);
            AllSpace(s[..i]) && AllSpace(s[i + |Trim(s)|..])
  {
    var i := LeadingSpace(s);
    var l := s[i..];
    var n := |l| - TrailingSpace(l);
    assert |Trim(s)| == n;
    LeadingSpaceSpec(s);
    TrailingSpaceSpec(l);
    var front := s[..i];
    forall k | 0 <= k < |front|
      ensures IsSpace(front[k])
    {
      assert front[k] == s[k];
    }
    var rest := s[i + n..];
    forall k | 0 <= k < |rest|
      ensures IsSpace(rest[k])
    {
      assert rest[k] == l[n + k];
    }
  }

  /** The trimmed text is empty exactly when `s` is all whitespace. */
  lemma TrimEmptyIffAllSpace(s: seq<Byte>)
    ensures Trim(s) == [] <==> AllSpace(s)
  {
    var i := LeadingSpace(s);
    var l := s[i..];
    if Trim(s) == [] {
      TrimCutsOnlySpace(s);
      assert s == s[..i] + s[i..];
      assert s[i..] == s[i + 0..];
    } else {
      TrimEnds(s);
    }
  }

  /** Trimming twice is trimming once. */
  lemma TrimIdempotent(s: seq<Byte>)
    ensures Trim(Trim(s)) == Trim(s)
  {
    var t := Trim(s);
    TrimEnds(s);
    if t == [] {
    } else {
      LeadingSpaceUnique(t, 0);
      assert TrimLeft(t) == t;
      TrailingSpaceUnique(t, |t|);
    }
  }

  /** `s[c..e]` is the trimmed text when `c` is the first and `e - 1` the last
      non-whitespace position, which is where the buffers' two scans stop. */
  lemma TrimBetween(s: seq<Byte>, c: nat, e: nat)
    requires c < e <= |s|
    requires forall k :: 0 <= k < c ==> IsSpace(s[k])
    requires !IsSpace(s[c]) && !IsSpace(s[e - 1])
    requires forall k :: e <= k < |s| ==> IsSpace(s[k])
    ensures Trim(s) == s[c..e]
  {
    LeadingSpaceUnique(s, c);
    var l := s[c..];
    TrailingSpaceUnique(l, e - c);
  }

  /** Trailing whitespace never reaches a first byte that is not whitespace,
      so that byte can be set aside before trimming the rest. */
  lemma {:induction false} TrimRightCons(l: seq<Byte>)
    requires |l| > 0 && !IsSpace(l[0])
    ensures TrimRight(l) == [l[0]] + TrimRight(l[1..])
    decreases |l|
  {
    if IsSpace(l[|l| - 1]) {
      var p := l[..|l| - 1];
      TrimRightCons(p);
      assert l[1..][..|l| - 2] == p[1..];
    } else {
      assert l == [l[0]] + l[1..];
    }
  }

  // ------------------------------------------------- count and replacement

  /** How many bytes of `s` equal `b`. */
  function Count(s: seq<Byte>, b: Byte): nat
  {
    if s == [] then 0 else Count(s[..|s| - 1], b) + (if s[|s| - 1] == b then 1 else 0)
  }

  /** Every byte equal to `search` replaced by `replace`, all others kept. */
  function ReplaceAll(s: seq<Byte>, search: Byte, replace: Byte): (r: seq<Byte>)
  {
    seq(|s|, i requires 0 <= i < |s| => if s[i] == search then replace else s[i])
  }

  /** A prefix extended over bytes that are not `b` keeps its count. */
  lemma {:induction false} CountSkip(s: seq<Byte>, b: Byte, p: nat, q: nat)
    requires p <= q <= |s|
    requires forall k :: p <= k < q ==> s[k] != b
    ensures Count(s[..q], b) == Count(s[..p], b)
    decreases q - p
  {
    if p < q {
      CountSkip(s, b, p, q - 1);
      assert s[..q][..q - 1] == s[..q - 1];
    }
  }

  /** A prefix extended by one byte gains one exactly when the byte is `b`. */
  lemma CountStep(s: seq<Byte>, b: Byte, p: nat)
    requires p < |s|
    ensures Count(s[..p + 1], b) == Count(s[..p], b) + (if s[p] == b then 1 else 0)
  {
    assert s[..p + 1][..p] == s[..p];
  }

  /** Replacing leaves no `search` byte behind (unless it is also the
      replacement), and the number of changed positions is the count. */
  lemma {:induction false} ReplaceAllSpec(s: seq<Byte>, search: Byte, replace: Byte)
    ensures |ReplaceAll(s, search, replace)| == |s|
    ensures search != replace ==> Count(ReplaceAll(s, search, replace), search) == 0
    ensures search != replace ==>
              Count(ReplaceAll(s, search, replace), replace) == Count(s, replace) + Count(s, search)
  {
    if s != [] {
      var s' := s[..|s| - 1];
      ReplaceAllSpec(s', search, replace);
      var r := ReplaceAll(s, search, replace);
      assert r[..|r| - 1] == ReplaceAll(s', search, replace);
    }
  }
}
