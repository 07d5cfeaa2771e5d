/** The MutStr buffer of mutstr.c: a heap array `val` of `size` bytes whose
    first `len` bytes are the content, always followed by a NUL byte. Every
    operation reports a state instead of storing it. Allocation may fail;
    every operation that allocates takes that outcome as `allocOk`. */
module MutStrLib {
  import opened Bytes
  import opened Memory
  import opened TextOps
  import opened Decimal

  /** MUTSTR_DEFAULT_INITIAL_SIZE */
  const DEFAULT_INITIAL_SIZE: int := 16
  /** UNSIGNED_INT_MAX_STRLEN: the longest 64-bit text. */
  const UNSIGNED_INT_MAX_STRLEN: int := 20

  /** The states mutstr.c returns. */
  datatype State = Ok | Error | NoMemory | OutOfRange

  /** The bits of MutStrTrimOptions: MUTSTR_TRIM_LEFT and MUTSTR_TRIM_RIGHT. */
  datatype TrimOptions = TrimOptions(left: bool, right: bool)

  const TRIM_LEFT := TrimOptions(true, false)
  const TRIM_RIGHT := TrimOptions(false, true)
  const TRIM_BOTH := TrimOptions(true, true)

  /** Whether `mutstr_ensure_capacity` has to grow a buffer of `size` bytes to
      hold `capacity` bytes. */
  predicate Needs(size: int, capacity: int) { capacity > size }

  /** The size `mutstr_ensure_capacity` leaves when it succeeds. */
  function CapacityAfter(size: int, capacity: int): (r: int)
    ensures r >= capacity && r >= size
    ensures !Needs(size, capacity) ==> r == size
  {
    if Needs(size, capacity) then GrownSize(size, capacity) else size
  }

  /** `mutstr_strnlen` on a NUL-terminated string: the bytes before the first
      NUL. */
  function CString(lit: seq<Byte>): (r: seq<Byte>)
    requires NUL in lit
    ensures NUL !in r && |r| < |lit| && lit[..|r| + 1] == r + [NUL]
  {
    var n := FindByte(lit, 0, |lit|, NUL);
    assert lit[..n + 1] == lit[..n] + [NUL];
    lit[..n]
  }

  class MutStr {
    var val: array<Byte>
    var len: int
    var size: int

    /** An allocated buffer: `size` bytes, the content and its terminator. */
    ghost predicate Valid()
      reads this, val
    {
      val.Length == size && 0 <= len < size && val[len] == NUL
    }

    function Content(): seq<Byte>
      reads this, val
      requires Valid()
    {
      val[..len]
    }

    /** The cleared struct (MUTSTR_CLEAR): no storage, length and size 0. */
    constructor ()
      ensures val.Length == 0 && len == 0 && size == 0
    {
      val := new Byte[0];
      len, size := 0, 0;
    }

    /** `mutstr_allocate`: clear, then allocate `initialSize` bytes holding the
        empty string. Sizes below 1 and a failed allocation leave the struct
        cleared and report NoMemory. */
    method Allocate(initialSize: int, allocOk: bool) returns (state: State)
      modifies this
      ensures state == (if initialSize > 0 && allocOk then Ok else NoMemory)
      ensures state == Ok ==> Valid() && fresh(val) && len == 0 && size == initialSize
      ensures state != Ok ==> val.Length == 0 && len == 0 && size == 0
    {
      val := new Byte[0];
      len, size := 0, 0;
      if initialSize > 0 && allocOk {
        var mem := new Byte[initialSize];
        mem[0] := NUL;
        val := mem;
        len := 0;
        size := initialSize;
        return Ok;
      }
      return NoMemory;
    }

    /** `mutstr_init`: `mutstr_allocate` with the default size. */
    method Init(allocOk: bool) returns (state: State)
      modifies this
      ensures state == (if allocOk then Ok else NoMemory)
      ensures state == Ok ==> Valid() && fresh(val) && Content() == [] && size == DEFAULT_INITIAL_SIZE
      ensures state != Ok ==> val.Length == 0 && len == 0 && size == 0
    {
      state := Allocate(DEFAULT_INITIAL_SIZE, allocOk);
    }

    /** `mutstr_finalize`: release the storage and clear the struct. */
    method Finalize()
      modifies this
      ensures old(val.Length) > 0 ==> val.Length == 0 && len == 0 && size == 0
      ensures old(val.Length) == 0 ==> val == old(val) && len == old(len) && size == old(size)
    {
      if val.Length > 0 {
        val := new Byte[0];
        len, size := 0, 0;
      }
    }

    /** `mutstr_set_size`: reallocate to exactly `newSize` bytes. A content
        that no longer fits is cut to `newSize - 1` bytes. Sizes below 1 and a
        failed reallocation change nothing and report NoMemory. */
    method SetSize(newSize: int, allocOk: bool) returns (state: State)
      requires Valid()
      modifies this
      ensures Valid()
      ensures state == (if newSize > 0 && allocOk then Ok else NoMemory)
      ensures state != Ok ==> val == old(val) && len == old(len) && size == old(size)
      ensures state == Ok ==> fresh(val) && size == newSize
                              && len == (if newSize <= old(len) then newSize - 1 else old(len))
                              && Content() == old(Content())[..len]
    {
      if newSize > 0 && allocOk {
        var mem := new Byte[newSize];
        var keep := Min(size, newSize);
        forall i | 0 <= i < keep {
          mem[i] := val[i];
        }
        val := mem;
        size := newSize;
        if size <= len {
          len := size - 1;
          val[len] := NUL;
        }
        return Ok;
      }
      return NoMemory;
    }

    /** `mutstr_ensure_capacity`: make room for `capacity` bytes (terminator
        included), growing to twice the size or to `capacity`, whichever is
        larger. The content never changes. */
    method EnsureCapacity(capacity: int, allocOk: bool) returns (state: State)
      requires Valid()
      modifies this
      ensures Valid() && len == old(len) && Content() == old(Content())
      ensures state == (if Needs(old(size), capacity) && !allocOk then NoMemory else Ok)
      ensures state == Ok ==> size == CapacityAfter(old(size), capacity)
      ensures state == Ok && Needs(old(size), capacity) ==> fresh(val)
      ensures !Needs(old(size), capacity) || state != Ok ==> val == old(val) && size == old(size)
    {
      if capacity > size {
        var newSize := size * 2;
        if capacity > newSize {
          newSize := capacity;
        }
        state := SetSize(newSize, allocOk);
        return;
      }
      return Ok;
    }

    /** `mutstr_set_length`: a negative length is refused with OutOfRange;
        otherwise the content becomes `length` bytes long, cut or padded with
        zero bytes. */
    method SetLength(length: int, allocOk: bool) returns (state: State)
      requires Valid() && length < INT32_MAX
      modifies this, val
      ensures Valid()
      ensures state == (if length < 0 then OutOfRange
                        else if Needs(old(size), length + 1) && !allocOk then NoMemory
                        else Ok)
      ensures state != Ok ==> val == old(val) && len == old(len) && size == old(size)
                              && val[..] == old(val[..])
      ensures state == Ok ==> Content() == Resized(old(Content()), length)
                              && size == CapacityAfter(old(size), length + 1)
    {
      if length < 0 {
        return OutOfRange;
      }
      ghost var was := Content();
      state := EnsureCapacity(length + 1, allocOk);
      if state == Ok {
        assert val[..len] == was;
        if length > len {
          forall i | len <= i < length {
            val[i] := NUL;
          }
        }
        len := length;
        val[length] := NUL;
        assert Content() == Resized(was, length) by {
          if length > |was| {
            assert Content()[..|was|] == was;
            assert Content()[|was|..] == Zeros(length - |was|);
          }
        }
      }
    }

    /** `mutstr_copy`: `dest` is allocated with room for this content and
        receives it. Copying a MutStr onto itself clears it first, so it ends
        up empty. */
    method Copy(dest: MutStr, allocOk: bool) returns (state: State)
      requires Valid()
      modifies dest
      ensures state == (if allocOk then Ok else NoMemory)
      ensures state == Ok ==> dest.Valid() && fresh(dest.val) && dest.size == old(len) + 1
                              && dest.Content() == (if dest == this then [] else old(Content()))
      ensures state != Ok ==> dest.val.Length == 0 && dest.len == 0 && dest.size == 0
    {
      state := dest.Allocate(len + 1, allocOk);
      if state == Ok {
        var n := len;
        forall i | 0 <= i < n {
          dest.val[i] := val[i];
        }
        dest.len := n;
        dest.val[n] := NUL;
      }
    }

    /** `mutstr_compare`: zero for equal contents, negative exactly when this
        content sorts first, positive exactly when it sorts last. */
    function Compare(b: MutStr): (r: int)
      reads this, val, b, b.val
      requires Valid() && b.Valid()
      ensures r == 0 <==> Content() == b.Content()
      ensures r < 0 <==> LexLess(Content(), b.Content())
      ensures r > 0 <==> LexLess(b.Content(), Content())
    {
      CompareNegativeIffLess(Content(), b.Content());
      CompareNegativeIffLess(b.Content(), Content());
      CompareAntisymmetric(Content(), b.Content());
      CompareNegativeIffLess(Content(), Content());
      if this == b then 0 else MemNCmp(Content(), b.Content())
    }

    /** `mutstr_compare_string`: the content against the bytes `s`. */
    function CompareString(s: seq<Byte>): (r: int)
      reads this, val
      requires Valid()
      ensures r == 0 <==> Content() == s
      ensures r < 0 <==> LexLess(Content(), s)
      ensures r > 0 <==> LexLess(s, Content())
    {
      CompareNegativeIffLess(Content(), s);
      CompareNegativeIffLess(s, Content());
      CompareAntisymmetric(Content(), s);
      MemNCmp(Content(), s)
    }

    /** `mutstr_compare_literal`: the content against a NUL-terminated string. */
    function CompareLiteral(lit: seq<Byte>): (r: int)
      reads this, val
      requires Valid() && NUL in lit
      ensures r == 0 <==> Content() == CString(lit)
      ensures r < 0 <==> LexLess(Content(), CString(lit))
      ensures r > 0 <==> LexLess(CString(lit), Content())
    {
      CompareString(CString(lit))
    }

    /** `mutstr_equals`: same object, or same length and same bytes. */
    function Equals(b: MutStr): (r: bool)
      reads this, val, b, b.val
      requires Valid() && b.Valid()
      ensures r <==> Content() == b.Content()
      ensures r <==> Compare(b) == 0
    {
      this == b || (len == b.len && MemCmp(Content(), b.Content(), len) == 0)
    }

    /** `mutstr_equals_string` */
    function EqualsString(s: seq<Byte>): (r: bool)
      reads this, val
      requires Valid()
      ensures r <==> Content() == s
      ensures r <==> CompareString(s) == 0
    {
      len == |s| && MemCmp(Content(), s, |s|) == 0
    }

    /** `mutstr_equals_literal` */
    function EqualsLiteral(lit: seq<Byte>): (r: bool)
      reads this, val
      requires Valid() && NUL in lit
      ensures r <==> Content() == CString(lit)
    {
      EqualsString(CString(lit))
    }

    /** `mutstr_indexof_string`: where `mutstr_memnstr` finds the needle, or -1. */
    method IndexOfString(needle: seq<Byte>) returns (r: int)
      requires Valid()
      ensures r == MemNStrSpec(Content(), needle)
      ensures r == -1 || OccursAt(Content(), r, needle)
      ensures |needle| == 0 ==> r == 0
      ensures |needle| == 1 ==> r == FirstIndexOf(Content(), needle)
    {
      r := MemNStr(Content(), needle);
    }

    /** `mutstr_indexof_literal` */
    method IndexOfLiteral(lit: seq<Byte>) returns (r: int)
      requires Valid() && NUL in lit
      ensures r == MemNStrSpec(Content(), CString(lit))
      ensures r == -1 || OccursAt(Content(), r, CString(lit))
    {
      r := IndexOfString(CString(lit));
    }

    /** `mutstr_contains_string`: whether `mutstr_memnstr` finds the needle. */
    method ContainsString(needle: seq<Byte>) returns (found: bool)
      requires Valid()
      ensures found <==> MemNStrSpec(Content(), needle) != -1
      ensures found ==> Occurs(Content(), needle)
      ensures |needle| <= 1 ==> (found <==> Occurs(Content(), needle))
    {
      var r := MemNStr(Content(), needle);
      found := r != -1;
      if |needle| == 0 {
        assert OccursAt(Content(), 0, needle);
      }
    }

    /** `mutstr_contains`: the needle is another MutStr's content. */
    method Contains(substr: MutStr) returns (found: bool)
      requires Valid() && substr.Valid()
      ensures found <==> MemNStrSpec(Content(), substr.Content()) != -1
      ensures found ==> Occurs(Content(), substr.Content())
    {
      found := ContainsString(substr.Content());
    }

    /** `mutstr_contains_literal` */
    method ContainsLiteral(lit: seq<Byte>) returns (found: bool)
      requires Valid() && NUL in lit
      ensures found <==> MemNStrSpec(Content(), CString(lit)) != -1
      ensures found ==> Occurs(Content(), CString(lit))
    {
      found := ContainsString(CString(lit));
    }

    /** `mutstr_starts_with_string`, AS WRITTEN: the first `|prefix|` bytes of
        the allocation are compared, with no check against the length. For a
        prefix no longer than the content that is the prefix test; a longer
        prefix can only match if it has a NUL byte where the content ends. */
    function StartsWithString(prefix: seq<Byte>): (r: bool)
      reads this, val
      requires Valid() && |prefix| <= size
      ensures r <==> PrefixOfMemory(val[..], prefix)
      ensures |prefix| <= len ==> (r <==> HasPrefix(Content(), prefix))
      ensures r && |prefix| > len ==> prefix[len] == NUL
    {
      assert |prefix| <= len ==> Content()[..|prefix|] == val[..][..|prefix|];
      PrefixOfMemory(val[..], prefix)
    }

    /** `mutstr_starts_with`: the prefix is another MutStr's content. */
    function StartsWith(prefix: MutStr): (r: bool)
      reads this, val, prefix, prefix.val
      requires Valid() && prefix.Valid() && prefix.len <= size
      ensures r <==> PrefixOfMemory(val[..], prefix.Content())
      ensures prefix.len <= len ==> (r <==> HasPrefix(Content(), prefix.Content()))
    {
      StartsWithString(prefix.Content())
    }

    /** `mutstr_starts_with_literal` */
    function StartsWithLiteral(lit: seq<Byte>): (r: bool)
      reads this, val
      requires Valid() && NUL in lit && |CString(lit)| <= size
      ensures r <==> HasPrefix(Content(), CString(lit))
    {
      var p := CString(lit);
      assert |p| > len ==> val[..][len] != p[len];
      StartsWithString(p)
    }

    /** `mutstr_ends_with_string`: the last `|suffix|` bytes of the content
        equal `suffix`. The suffix may not be longer than the content: the
        source would read before the buffer. */
    function EndsWithString(suffix: seq<Byte>): (r: bool)
      reads this, val
      requires Valid() && |suffix| <= len
      ensures r <==> Content()[len - |suffix|..] == suffix
      ensures r <==> exists t :: Content() == t + suffix
    {
      var tail := Content()[len - |suffix|..];
      assert tail == tail[..|suffix|];
      assert Content() == Content()[..len - |suffix|] + tail;
      MemCmp(tail, suffix, |suffix|) == 0
    }

    /** `mutstr_ends_with` */
    function EndsWith(suffix: MutStr): (r: bool)
      reads this, val, suffix, suffix.val
      requires Valid() && suffix.Valid() && suffix.len <= len
      ensures r <==> exists t :: Content() == t + suffix.Content()
    {
      EndsWithString(suffix.Content())
    }

    /** `mutstr_ends_with_literal` */
    function EndsWithLiteral(lit: seq<Byte>): (r: bool)
      reads this, val
      requires Valid() && NUL in lit && |CString(lit)| <= len
      ensures r <==> exists t :: Content() == t + CString(lit)
    {
      EndsWithString(CString(lit))
    }

    /** `mutstr_append_char`: room for the content, `c` and a terminator, then
        `c` added. A failed growth changes nothing. */
    method AppendChar(c: Byte, allocOk: bool) returns (state: State)
      requires Valid() && len + 2 <= INT32_MAX
      modifies this, val
      ensures Valid()
      ensures state == (if Needs(old(size), old(len) + 2) && !allocOk then NoMemory else Ok)
      ensures state != Ok ==> val == old(val) && len == old(len) && size == old(size)
                              && val[..] == old(val[..])
      ensures state == Ok ==> Content() == old(Content()) + [c]
                              && size == CapacityAfter(old(size), old(len) + 2)
    {
      state := EnsureCapacity(len + 2, allocOk);
      if state == Ok {
        Put([c]);
      }
    }

    /** `mutstr_append_string`: the bytes `s` follow the content. A failed
        growth changes nothing. */
    method AppendString(s: seq<Byte>, allocOk: bool) returns (state: State)
      requires Valid() && len + |s| < INT32_MAX
      modifies this, val
      ensures Valid()
      ensures state == (if Needs(old(size), old(len) + |s| + 1) && !allocOk then NoMemory else Ok)
      ensures state != Ok ==> val == old(val) && len == old(len) && size == old(size)
                              && val[..] == old(val[..])
      ensures state == Ok ==> Content() == old(Content()) + s
                              && size == CapacityAfter(old(size), old(len) + |s| + 1)
    {
      var newLength := len + |s|;
      state := EnsureCapacity(newLength + 1, allocOk);
      if state == Ok {
        Put(s);
      }
    }

    /** Copy `s` behind the content, which has room for it and a terminator,
        and terminate: the tail of every append. */
    method Put(s: seq<Byte>)
      requires Valid() && len + |s| < size
      modifies this`len, val
      ensures Valid() && Content() == old(Content()) + s
    {
      ghost var was := Content();
      forall i | 0 <= i < |s| {
        val[len + i] := s[i];
      }
      assert val[..len] == was;
      len := len + |s|;
      val[len] := NUL;
      assert Content() == was + s by {
        assert Content()[..|was|] == was;
        assert Content()[|was|..] == s;
      }
    }

    /** `mutstr_append`: another MutStr's content. Appending a MutStr to itself
        is defined only when no reallocation happens. */
    method Append(other: MutStr, allocOk: bool) returns (state: State)
      requires Valid() && other.Valid() && len + other.len < INT32_MAX
      requires other != this || !Needs(size, 2 * len + 1)
      modifies this, val
      ensures Valid()
      ensures state == (if Needs(old(size), old(len) + old(other.len) + 1) && !allocOk then NoMemory else Ok)
      ensures state != Ok ==> val == old(val) && len == old(len) && size == old(size)
                              && val[..] == old(val[..])
      ensures state == Ok ==> Content() == old(Content()) + old(other.Content())
                              && size == CapacityAfter(old(size), old(len) + old(other.len) + 1)
    {
      state := AppendString(other.Content(), allocOk);
    }

    /** `mutstr_append_literal` */
    method AppendLiteral(lit: seq<Byte>, allocOk: bool) returns (state: State)
      requires Valid() && NUL in lit && len + |CString(lit)| < INT32_MAX
      modifies this, val
      ensures Valid()
      ensures state == (if Needs(old(size), old(len) + |CString(lit)| + 1) && !allocOk then NoMemory else Ok)
      ensures state != Ok ==> val == old(val) && len == old(len) && size == old(size)
                              && val[..] == old(val[..])
      ensures state == Ok ==> Content() == old(Content()) + CString(lit)
                              && size == CapacityAfter(old(size), old(len) + |CString(lit)| + 1)
    {
      state := AppendString(CString(lit), allocOk);
    }

    /** `mutstr_append_int`: the signed base-10 text of `value`. Values 0..9
        go through `mutstr_append_char`; the others are rendered into a
        21-byte buffer first. */
    method AppendInt(value: int, allocOk: bool) returns (state: State)
      requires Valid() && -TWO_POW_63 <= value < TWO_POW_63 && len + UNSIGNED_INT_MAX_STRLEN < INT32_MAX
      modifies this, val
      ensures Valid()
      ensures state == Ok || state == NoMemory
      ensures state == Ok <==> allocOk || !Needs(old(size), old(len) + |SignedText(value)| + 1)
      ensures state == Ok ==> Content() == old(Content()) + SignedText(value)
                              && size == CapacityAfter(old(size), old(len) + |SignedText(value)| + 1)
      ensures state != Ok ==> val == old(val) && len == old(len) && size == old(size)
                              && val[..] == old(val[..])
    {
      if 0 <= value <= 9 {
        state := AppendChar(ZERO + value, allocOk);
      } else {
        var buffer := new Byte[UNSIGNED_INT_MAX_STRLEN + 1];
        var start := IntToStr(buffer, UNSIGNED_INT_MAX_STRLEN, value);
        state := AppendString(buffer[start..UNSIGNED_INT_MAX_STRLEN], allocOk);
      }
    }

    /** `mutstr_append_uint`: the unsigned base-10 text of `value`. */
    method AppendUint(value: int, allocOk: bool) returns (state: State)
      requires Valid() && 0 <= value < TWO_POW_64 && len + UNSIGNED_INT_MAX_STRLEN < INT32_MAX
      modifies this, val
      ensures Valid()
      ensures state == Ok || state == NoMemory
      ensures state == Ok <==> allocOk || !Needs(old(size), old(len) + |DecimalText(value)| + 1)
      ensures state == Ok ==> Content() == old(Content()) + DecimalText(value)
                              && size == CapacityAfter(old(size), old(len) + |DecimalText(value)| + 1)
      ensures state != Ok ==> val == old(val) && len == old(len) && size == old(size)
                              && val[..] == old(val[..])
    {
      if value <= 9 {
        state := AppendChar(ZERO + value, allocOk);
      } else {
        var buffer := new Byte[UNSIGNED_INT_MAX_STRLEN + 1];
        var start := UintToStr(buffer, UNSIGNED_INT_MAX_STRLEN, value);
        state := AppendString(buffer[start..UNSIGNED_INT_MAX_STRLEN], allocOk);
      }
    }

    /** `case_convert` with `toupper` (`upper`) or `tolower`: every content
        byte converted in place. */
    method CaseConvert(upper: bool)
      requires Valid()
      modifies val
      ensures Valid()
      ensures Content() == if upper then Upper(old(Content())) else Lower(old(Content()))
      ensures val[len..] == old(val[len..])
    {
      var i := 0;
      while i < len
        invariant 0 <= i <= len
        invariant forall k :: 0 <= k < i ==> val[k] == (if upper then ToUpper(old(val[k])) else ToLower(old(val[k])))
        invariant forall k :: i <= k < val.Length ==> val[k] == old(val[k])
      {
        val[i] := if upper then ToUpper(val[i]) else ToLower(val[i]);
        i := i + 1;
      }
    }

    /** `mutstr_to_uppercase` */
    method ToUppercase()
      requires Valid()
      modifies val
      ensures Valid() && Content() == Upper(old(Content()))
    {
      CaseConvert(true);
    }

    /** `mutstr_to_lowercase` */
    method ToLowercase()
      requires Valid()
      modifies val
      ensures Valid() && Content() == Lower(old(Content()))
    {
      CaseConvert(false);
    }

    /** `mutstr_trim`, AS WRITTEN: leading whitespace is skipped when `left`
        is set; trailing whitespace is cut when `right` is set, but never the
        first remaining byte. Always Ok. */
    method Trim(options: TrimOptions) returns (state: State)
      requires Valid()
      modifies this`len, val
      ensures Valid() && state == Ok
      ensures Content() == TrimAsWritten(old(Content()), options)
    {
      ghost var orig := Content();
      var s := 0;
      var e := len;
      if options.left {
        s := SkipLeading();
      }
      if s == e {
        val[0] := NUL;
        len := 0;
      } else {
        e := e - 1;
        if options.right {
          e := SkipTrailing(s);
        }
        TrimAsWrittenBetween(orig, options, s, e);
        MoveDown(s, e - s + 1);
      }
      return Ok;
    }

    /** The left-trim loop of `mutstr_trim` (lines 405-407): the number of
        whitespace bytes the content starts with. */
    method SkipLeading() returns (s: int)
      requires Valid()
      ensures s == LeadingSpace(Content())
    {
      s := 0;
      while s < len && IsSpace(val[s])
        invariant 0 <= s <= len
        invariant forall k :: 0 <= k < s ==> IsSpace(Content()[k])
      {
        s := s + 1;
      }
      LeadingSpaceUnique(Content(), s);
    }

    /** The right-trim loop of `mutstr_trim` (lines 418-420): from the last
        byte down past the whitespace, but never below `s`, so only the bytes
        after `s` can be cut. */
    method SkipTrailing(s: int) returns (e: int)
      requires Valid() && 0 <= s < len
      ensures e == len - 1 - TrailingSpace(Content()[s + 1..])
    {
      e := len - 1;
      while e > s && IsSpace(val[e])
        invariant s <= e < len
        invariant forall k :: e < k < len ==> IsSpace(Content()[k])
      {
        e := e - 1;
      }
      TrailingSpaceUnique(Content()[s + 1..], e - s);
    }

    /** The `memmove` of `mutstr_trim` (lines 424-429): the `length` bytes at
        `s` become the content. */
    method MoveDown(s: int, length: int)
      requires Valid() && 0 <= s && 1 <= length && s + length <= len
      modifies this`len, val
      ensures Valid() && Content() == old(Content()[s..s + length])
    {
      if s > 0 {
        forall i | 0 <= i < length {
          val[i] := val[s + i];
        }
      }
      len := length;
      val[length] := NUL;
    }

    /** `mutstr_substr`: `length` bytes from `index` on, cut at the end of the
        content, into `result`. A negative length or an index outside the
        content is refused with OutOfRange and changes nothing. The bytes are
        taken before `result` is allocated, so `result` may be this MutStr. */
    method Substr(index: int, length: int, result: MutStr, allocOk: bool) returns (state: State)
      requires Valid()
      modifies result
      ensures state == (if length < 0 || index < 0 || index >= old(len) then OutOfRange
                        else if allocOk then Ok else NoMemory)
      ensures state == OutOfRange ==> unchanged(result)
      ensures state == NoMemory ==> result.val.Length == 0 && result.len == 0 && result.size == 0
      ensures state == Ok ==> result.Valid() && fresh(result.val)
                              && result.size == Min(index + length, old(len)) - index + 1
                              && result.Content() == old(Content())[index..Min(index + length, old(len))]
    {
      if length < 0 || index < 0 || index >= len {
        return OutOfRange;
      }
      var n := length;
      if index + n >= len {
        n := len - index;
      }
      var piece := val[index..index + n];
      assert index + n == Min(index + length, len);
      assert piece == Content()[index..index + n];
      state := result.Allocate(n + 1, allocOk);
      if state == Ok {
        forall i | 0 <= i < n {
          result.val[i] := piece[i];
        }
        result.len := n;
        result.val[n] := NUL;
        assert result.Content() == piece;
      }
    }

    /** `mutstr_repeat`: the content becomes `multiply` copies of itself; a
        zero count or an empty content leaves it empty. A failed growth
        changes nothing. A negative count on a non-empty content is not
        defined in the source. */
    method Repeat(multiply: int, allocOk: bool) returns (state: State)
      requires Valid()
      requires len == 0 || (multiply >= 0 && len * multiply < INT32_MAX)
      modifies this, val
      ensures Valid()
      ensures state == (if multiply != 0 && old(len) != 0 && Needs(old(size), old(len) * multiply + 1) && !allocOk
                        then NoMemory else Ok)
      ensures state != Ok ==> val == old(val) && len == old(len) && size == old(size)
                              && val[..] == old(val[..])
      ensures state == Ok ==> Content() == TextOps.Repeat(old(Content()), if old(len) == 0 then 0 else multiply)
                              && size == (if multiply == 0 || old(len) == 0 then old(size)
                                          else CapacityAfter(old(size), old(len) * multiply + 1))
    {
      if multiply == 0 || len == 0 {
        val[0] := NUL;
        len := 0;
        RepeatUnits(old(Content()), 0);
        return Ok;
      }
      var length := len * multiply;
      state := EnsureCapacity(length + 1, allocOk);
      if state == Ok {
        if len == 1 {
          Fill(length);
        } else {
          Replicate(multiply);
        }
      }
    }

    /** The `memset` branch of `mutstr_repeat`: a one-byte content spread over
        `length` bytes. */
    method Fill(length: int)
      requires Valid() && len == 1 && 1 <= length < size
      modifies this`len, val
      ensures Valid() && Content() == TextOps.Repeat(old(Content()), length)
    {
      ghost var orig := Content();
      var c := val[0];
      forall i | 0 <= i < length {
        val[i] := c;
      }
      val[length] := NUL;
      len := length;
      RepeatAt(orig, length);
    }

    /** The `memmove` loop of `mutstr_repeat`, with the room already made: the
        content is copied behind itself until it stands there `multiply`
        times. */
    method Replicate(multiply: int)
      requires Valid() && len > 0 && multiply >= 1 && len * multiply < size
      modifies this`len, val
      ensures Valid() && Content() == TextOps.Repeat(old(Content()), multiply)
    {
      ghost var orig := Content();
      var length := len * multiply;
      var s := len;
      ghost var k := 1;
      while s < length
        invariant 1 <= k <= multiply
        invariant len == |orig| && s == len * k && length < size == val.Length
        invariant val[..len] == orig
        invariant val[..s] == TextOps.Repeat(orig, k)
        decreases length - s
      {
        MulLess(len, k, multiply);
        MulStep(len, k, multiply);
        CopyBlock(s);
        RepeatStep(val[..], orig, k, s);
        s := s + len;
        k := k + 1;
      }
      MulLess(len, k, multiply);
      val[length] := NUL;
      len := length;
    }

    /** One `memmove` of the repeat loop: the content's bytes copied to `dst`,
        past the content. */
    method CopyBlock(dst: int)
      requires 0 <= len <= dst && dst + len <= val.Length
      modifies val
      ensures val[..dst] == old(val[..dst]) && val[..len] == old(val[..len])
      ensures val[dst..dst + len] == old(val[..len])
    {
      forall i | 0 <= i < len {
        val[dst + i] := val[i];
      }
    }
  }

  /** Multiplying by a positive factor keeps the strict order. */
  lemma MulLess(a: nat, k: nat, t: nat)
    requires a > 0
    ensures a * k < a * t <==> k < t
  {
    if k < t {
      MulNonneg(a, t - k - 1);
      assert a * t == a * k + a * (t - k - 1) + a;
    } else {
      MulNonneg(a, k - t);
      assert a * k == a * t + a * (k - t);
    }
  }

  // ------------------------------------------------ integer text

  /** `uint_to_str`: write the terminator at `end` and the digits of `n`
      backwards in front of it; the result is where the text starts. */
  method UintToStr(buffer: array<Byte>, end: int, n: int) returns (start: int)
    requires 0 <= n < TWO_POW_64 && UNSIGNED_INT_MAX_STRLEN <= end < buffer.Length
    modifies buffer
    ensures 0 <= start < end && end - start <= UNSIGNED_INT_MAX_STRLEN
    ensures buffer[start..end] == DecimalText(n) && buffer[end] == NUL
    ensures forall k :: 0 <= k < start ==> buffer[k] == old(buffer[k])
  {
    DecimalLength64(n);
    buffer[end] := NUL;
    start := end;
    var m := n;
    while true
      invariant 0 <= m <= n && |DecimalText(n)| <= end && start <= end
      invariant DecimalText(m) + buffer[start..end] == DecimalText(n) && buffer[end] == NUL
      invariant forall k :: 0 <= k < start ==> buffer[k] == old(buffer[k])
      decreases m
    {
      ghost var tail := buffer[start..end];
      start := start - 1;
      buffer[start] := ZERO + m % 10;
      assert buffer[start..end] == [ZERO + m % 10] + tail;
      if m < 10 {
        break;
      }
      assert DecimalText(m) == DecimalText(m / 10) + [ZERO + m % 10];
      m := m / 10;
    }
  }

  /** `int_to_str`: the magnitude is computed in 64-bit unsigned arithmetic,
      `~(uint64_t) n + 1`, then written by `uint_to_str` and preceded by '-'
      for a negative value. */
  method IntToStr(buffer: array<Byte>, end: int, n: int) returns (start: int)
    requires -TWO_POW_63 <= n < TWO_POW_63 && UNSIGNED_INT_MAX_STRLEN <= end < buffer.Length
    modifies buffer
    ensures 0 <= start < end && buffer[start..end] == SignedText(n) && buffer[end] == NUL
  {
    if n < 0 {
      var bits := n + TWO_POW_64;
      var magnitude := ((TWO_POW_64 - 1 - bits) + 1) % TWO_POW_64;
      assert magnitude == -n;
      DecimalLength64(magnitude);
      start := UintToStr(buffer, end, magnitude);
      start := start - 1;
      buffer[start] := MINUS;
      assert buffer[start..end] == [MINUS] + buffer[start + 1..end];
    } else {
      start := UintToStr(buffer, end, n);
    }
  }

  // ------------------------------------------------ prefixes

  /** `memcmp(mem, prefix, |prefix|) == 0` over the whole allocation. */
  function PrefixOfMemory(mem: seq<Byte>, prefix: seq<Byte>): (r: bool)
    requires |prefix| <= |mem|
    ensures r <==> mem[..|prefix|] == prefix
  {
    MemCmp(mem, prefix, |prefix|) == 0
  }

  /** `prefix` is a prefix of `s`: the intended meaning of starts-with. */
  function HasPrefix(s: seq<Byte>, prefix: seq<Byte>): (r: bool)
    ensures r <==> exists t :: s == prefix + t
  {
    if |prefix| <= |s| && s[..|prefix|] == prefix then
      assert s == prefix + s[|prefix|..];
      true
    else
      false
  }

  /** Finding: `mutstr_starts_with_string` compares past the content, so a
      prefix "ab\0" is reported for the content "ab", which is shorter. */
  lemma StartsWithPastContent()
    ensures var mem := [97, 98, 0];
            PrefixOfMemory(mem, [97, 98, 0]) && !HasPrefix(mem[..2], [97, 98, 0])
  {
    var mem: seq<Byte> := [97, 98, 0];
    assert mem[..3] == [97, 98, 0];
  }

  // ------------------------------------------------ the search, as written

  /** The loop of `mutstr_memnstr` (lines 206-212) from the candidate `p` on:
      a candidate that fits is compared in full; after a mismatch the next
      candidate is searched for `|needle|` bytes further on. */
  function SkipSearch(h: seq<Byte>, needle: seq<Byte>, p: int): (r: int)
    requires |needle| >= 1 && -1 <= p <= |h|
    decreases if p == -1 then 0 else |h| + 1 - p
    ensures r == -1 || (p <= r && OccursAt(h, r, needle))
  {
    if p == -1 || p + |needle| > |h| then -1
    else if h[p..p + |needle|] == needle then p
    else SkipSearch(h, needle, FindByte(h, p + |needle|, |h|, needle[0]))
  }

  /** `mutstr_memnstr` on a haystack of `|h|` bytes: the index it returns,
      -1 for NULL. */
  function MemNStrSpec(h: seq<Byte>, needle: seq<Byte>): (r: int)
    ensures r == -1 || (0 <= r && r + |needle| <= |h|)
  {
    if |needle| == 0 then 0
    else if |h| >= |needle| then
      if |needle| == 1 then FindByte(h, 0, |h|, needle[0])
      else SkipSearch(h, needle, FindByte(h, 0, |h|, needle[0]))
    else -1
  }

  /** What the search promises: an empty needle is found at 0, a one-byte
      needle at its first occurrence, a needle longer than the haystack
      nowhere, and every index it reports is an occurrence. */
  lemma MemNStrSound(h: seq<Byte>, needle: seq<Byte>)
    ensures var r := MemNStrSpec(h, needle);
            (r == -1 || OccursAt(h, r, needle))
            && (|needle| == 0 ==> r == 0)
            && (|needle| > |h| ==> r == -1)
            && (|needle| == 1 ==> r == FirstIndexOf(h, needle))
  {
    var r := MemNStrSpec(h, needle);
    if |needle| == 0 {
      assert OccursAt(h, 0, needle);
    } else if |needle| == 1 && |h| >= 1 {
      if r != -1 {
        assert h[r..r + 1] == [h[r]];
      }
      forall k | 0 <= k < (if r == -1 then |h| else r)
        ensures !OccursAt(h, k, needle)
      {
        assert h[k..k + 1][0] == h[k];
      }
      var f := FirstIndexOf(h, needle);
      if f >= 0 {
        assert h[f..f + 1][0] == h[f];
      }
    } else if |needle| == 1 {
      assert !Occurs(h, needle);
    }
  }

  /** `mutstr_memnstr`: the scan of lines 193-217 over the content `h`. */
  method MemNStr(h: seq<Byte>, needle: seq<Byte>) returns (r: int)
    ensures r == MemNStrSpec(h, needle)
    ensures r == -1 || OccursAt(h, r, needle)
    ensures |needle| == 0 ==> r == 0
    ensures |needle| == 1 ==> r == FirstIndexOf(h, needle)
  {
    MemNStrSound(h, needle);
    if |needle| == 0 {
      return 0;
    }
    if |h| >= |needle| {
      if |needle| == 1 {
        return FindByte(h, 0, |h|, needle[0]);
      }
      var p := FindByte(h, 0, |h|, needle[0]);
      while p != -1 && p + |needle| <= |h|
        invariant -1 <= p <= |h|
        invariant SkipSearch(h, needle, p) == MemNStrSpec(h, needle)
        decreases if p == -1 then 0 else |h| + 1 - p
      {
        if MemCmp(h[p..], needle, |needle|) == 0 {
          assert h[p..][..|needle|] == h[p..p + |needle|];
          return p;
        }
        assert h[p..][..|needle|] == h[p..p + |needle|];
        p := FindByte(h, p + |needle|, |h|, needle[0]);
      }
    }
    return -1;
  }

  /** The memchr of line 211 as written: its window runs from `p + |needle|`
      to `|needle|` bytes PAST the end of the `|h|`-byte haystack; `mem` holds
      the haystack and whatever memory follows it. Whatever those bytes are,
      it finds the candidate the window clamped at the end finds, or one where
      the needle no longer fits, which ends the loop (line 206) just as
      finding none does. */
  lemma WideCandidate(mem: seq<Byte>, h: seq<Byte>, needle: seq<Byte>, p: int)
    requires |needle| >= 1 && 0 <= p && p + |needle| <= |h| && |h| + 2 * |needle| <= |mem|
    requires forall k :: 0 <= k < |h| ==> h[k] == mem[k]
    ensures var narrow := FindByte(h, p + |needle|, |h|, needle[0]);
            var wide := FindByte(mem, p + |needle|, |h| + 2 * |needle|, needle[0]);
            (narrow != -1 ==> wide == narrow)
            && (narrow == -1 ==> wide == -1 || wide + |needle| > |h|)
  {
    var n := |needle|;
    FindByteAgrees(mem, h, p + n, |h|, needle[0]);
    FindByteWider(mem, p + n, |h|, |h| + 2 * n, needle[0]);
  }

  /** Finding: after a mismatch the next candidate is searched `|needle|`
      bytes further on (line 211), so "ab" is not found in "aab". */
  lemma SkipMissesOccurrence()
    ensures MemNStrSpec([97, 97, 98], [97, 98]) == -1
    ensures FirstIndexOf([97, 97, 98], [97, 98]) == 1
  {
    var h: seq<Byte> := [97, 97, 98];
    var needle: seq<Byte> := [97, 98];
    assert FindByte(h, 0, 3, 97) == 0;
    assert h[0..2][1] != needle[1];
    assert FindByte(h, 2, 3, 97) == -1;
    assert h[1..3] == needle;
    assert FirstIndexOfFrom(h, needle, 1) == 1;
  }

  // ------------------------------------------------ trimming

  /** `mutstr_trim` as written: after the optional left trim, a right trim
      never removes the first remaining byte. */
  function TrimAsWritten(s: seq<Byte>, options: TrimOptions): (r: seq<Byte>)
    ensures |r| <= |s|
    ensures !options.left ==> (r == [] <==> s == [])
  {
    var l := if options.left then TrimLeft(s) else s;
    if l == [] then []
    else if options.right then [l[0]] + TrimRight(l[1..])
    else l
  }

  /** The trim the options evidently ask for: leading whitespace removed when
      `left` is set, trailing whitespace when `right` is set. */
  function IntendedTrim(s: seq<Byte>, options: TrimOptions): (r: seq<Byte>)
    ensures options == TRIM_BOTH ==> r == TextOps.Trim(s)
    ensures options.right ==> r == [] || !IsSpace(r[|r| - 1])
  {
    var l := if options.left then TrimLeft(s) else s;
    TrailingSpaceSpec(l);
    if options.right then TrimRight(l) else l
  }

  /** Where the two scans stop, the as-written trim is the slice between:
      `c` past the leading whitespace (when `left` is set) and `e` before the
      trailing whitespace after `c` (when `right` is set). */
  lemma TrimAsWrittenBetween(s: seq<Byte>, options: TrimOptions, c: nat, e: int)
    requires c == (if options.left then LeadingSpace(s) else 0) && c < |s|
    requires e == (if options.right then |s| - 1 - TrailingSpace(s[c + 1..]) else |s| - 1)
    ensures c <= e < |s|
    ensures TrimAsWritten(s, options) == s[c..e + 1]
  {
    var l := s[c..];
    assert l == (if options.left then TrimLeft(s) else s);
    if options.right {
      KeepFirstTrimRest(s, c, e);
    } else {
      assert l == s[c..e + 1];
    }
  }

  /** The right-trim loop keeps the byte at `c` and cuts the whitespace that
      ends the bytes after it. */
  lemma KeepFirstTrimRest(s: seq<Byte>, c: nat, e: int)
    requires c < |s| && e == |s| - 1 - TrailingSpace(s[c + 1..])
    ensures c <= e && [s[c..][0]] + TrimRight(s[c..][1..]) == s[c..e + 1]
  {
    var rest := s[c + 1..];
    assert s[c..][1..] == rest;
    SliceOfSuffix(s, c + 1, e - c);
    assert TrimRight(rest) == s[c + 1..e + 1];
    assert s[c..e + 1] == [s[c]] + s[c + 1..e + 1];
  }

  /** The as-written trim agrees with the intended one whenever the first
      remaining byte is not whitespace, in particular whenever `left` is set. */
  lemma TrimAsWrittenAgrees(s: seq<Byte>, options: TrimOptions)
    requires options.left || s == [] || !IsSpace(s[0])
    ensures TrimAsWritten(s, options) == IntendedTrim(s, options)
  {
    var l := if options.left then TrimLeft(s) else s;
    if l != [] && options.right {
      LeadingSpaceSpec(s);
      TrimRightCons(l);
    }
  }

  /** What the options promise of the as-written trim: no option leaves the
      content as it is; both options remove whitespace from both ends, leave
      an all-whitespace content empty, and trimming again changes nothing. */
  lemma TrimAsWrittenOptions(s: seq<Byte>)
    ensures TrimAsWritten(s, TrimOptions(false, false)) == s
    ensures TrimAsWritten(s, TRIM_BOTH) == TextOps.Trim(s)
    ensures TrimAsWritten(s, TRIM_BOTH) == [] <==> AllSpace(s)
    ensures TrimAsWritten(TrimAsWritten(s, TRIM_BOTH), TRIM_BOTH) == TrimAsWritten(s, TRIM_BOTH)
  {
    TrimAsWrittenAgrees(s, TRIM_BOTH);
    TrimAsWrittenAgrees(TextOps.Trim(s), TRIM_BOTH);
    TrimEmptyIffAllSpace(s);
    TrimIdempotent(s);
  }

  /** Finding: with only `right` set, every non-empty all-whitespace
      content keeps its first byte ("   " trims to " "), where the intended
      trim leaves it empty. */
  lemma RightTrimKeepsOneByte(s: seq<Byte>)
    requires |s| > 0 && AllSpace(s)
    ensures TrimAsWritten(s, TRIM_RIGHT) == [s[0]]
    ensures IntendedTrim(s, TRIM_RIGHT) == []
  {
    TrailingSpaceUnique(s[1..], 0);
    TrailingSpaceUnique(s, 0);
  }
}
