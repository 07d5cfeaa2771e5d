/** Bytes as the two buffers see them: unsigned 8-bit values, the "C" locale
    character classes that `isspace`, `toupper` and `tolower` use (ISO C11
    sections 7.4.1.10 and 7.4.2), the int32 range the lengths live in, and the
    growth rule both buffers share. */
module Bytes {

  /** One byte of a buffer, read as `unsigned char`. */
  type Byte = b: int | 0 <= b < 256

  const NUL: Byte := 0
  const INT32_MAX: int := 0x7fff_ffff
  const TWO_POW_63: int := 0x8000_0000_0000_0000
  const TWO_POW_64: int := 0x1_0000_0000_0000_0000

  /** `isspace` in the "C" locale: space, \t, \n, \v, \f and \r. */
  predicate IsSpace(b: Byte) {
    b == 32 || 9 <= b <= 13
  }

  predicate IsLower(b: Byte) { 97 <= b <= 122 }

  predicate IsUpper(b: Byte) { 65 <= b <= 90 }

  /** `toupper` in the "C" locale: only 'a'..'z' change. */
  function ToUpper(b: Byte): (r: Byte)
    ensures !IsLower(r)
    ensures !IsLower(b) ==> r == b
    ensures IsLower(b) ==> IsUpper(r)
  {
    if IsLower(b) then b - 32 else b
  }

  /** `tolower` in the "C" locale: only 'A'..'Z' change. */
  function ToLower(b: Byte): (r: Byte)
    ensures !IsUpper(r)
    ensures !IsUpper(b) ==> r == b
    ensures IsUpper(b) ==> IsLower(r)
  {
    if IsUpper(b) then b + 32 else b
  }

  /** Each conversion undoes the other on the letters it changes. */
  lemma CaseRoundTrip(b: Byte)
    ensures IsLower(b) ==> ToLower(ToUpper(b)) == b
    ensures IsUpper(b) ==> ToUpper(ToLower(b)) == b
  {
  }

  /** A prefix of a suffix is a slice. */
  lemma SliceOfSuffix(s: seq<Byte>, i: nat, n: nat)
    requires i + n <= |s|
    ensures s[i..][..n] == s[i..i + n]
  {
  }

  /** The whole sequence passed through `toupper`, byte by byte. */
  function Upper(s: seq<Byte>): (r: seq<Byte>)
  {
    seq(|s|, i requires 0 <= i < |s| => ToUpper(s[i]))
  }

  /** The whole sequence passed through `tolower`, byte by byte. */
  function Lower(s: seq<Byte>): (r: seq<Byte>)
  {
    seq(|s|, i requires 0 <= i < |s| => ToLower(s[i]))
  }

  /** Upper-casing keeps the length, leaves no lower-case letter behind, and
      touches nothing but lower-case letters (bytes >= 0x80 included). */
  lemma UpperSpec(s: seq<Byte>)
    ensures |Upper(s)| == |s|
    ensures forall i :: 0 <= i < |s| ==> !IsLower(Upper(s)[i])
    ensures forall i :: 0 <= i < |s| && !IsLower(s[i]) ==> Upper(s)[i] == s[i]
    ensures Upper(Upper(s)) == Upper(s)
  {
  }

  /** Lower-casing keeps the length, leaves no upper-case letter behind, and
      touches nothing but upper-case letters. */
  lemma LowerSpec(s: seq<Byte>)
    ensures |Lower(s)| == |s|
    ensures forall i :: 0 <= i < |s| ==> !IsUpper(Lower(s)[i])
    ensures forall i :: 0 <= i < |s| && !IsUpper(s[i]) ==> Lower(s)[i] == s[i]
    ensures Lower(Lower(s)) == Lower(s)
  {
  }

  /** Lower-casing undoes upper-casing on text that had no upper-case letter. */
  lemma LowerUndoesUpper(s: seq<Byte>)
    requires forall i :: 0 <= i < |s| ==> !IsUpper(s[i])
    ensures Lower(Upper(s)) == s
  {
  }

  /** The size a buffer of `size` bytes grows to when `needed` bytes do not fit:
      twice the old size, or exactly `needed` when doubling is not enough. */
  function GrownSize(size: int, needed: int): (r: int)
    requires needed > size
    ensures r >= needed && r >= 2 * size
    ensures r == needed || r == 2 * size
  {
    if needed > 2 * size then needed else 2 * size
  }

  /** `n` zero bytes, as `memset(p, 0, n)` leaves them. */
  function Zeros(n: nat): (r: seq<Byte>)
    ensures |r| == n && forall i :: 0 <= i < n ==> r[i] == NUL
  {
    seq(n, _ => NUL)
  }

  /** The content after a length change to `n`: a prefix of the old content
      when shrinking, the old content padded with zero bytes when growing. */
  function Resized(s: seq<Byte>, n: nat): (r: seq<Byte>)
    ensures |r| == n
    ensures forall i :: 0 <= i < n && i < |s| ==> r[i] == s[i]
    ensures forall i :: |s| <= i < n ==> r[i] == NUL
  {
    if n <= |s| then s[..n] else s + Zeros(n - |s|)
  }
}
