/** The StringBuilder buffer of stringbuilder.c: a heap array `str` of `size`
    bytes whose first `len` bytes are the content, and an `error` field that
    some operations store their outcome in. Allocation may fail; every
    operation that allocates takes that outcome as the parameter `allocOk`. */
module StringBuilderLib {
  import opened Bytes
  import opened Memory
  import opened TextOps
  import opened Decimal

  /** STRING_BUILDER_MIN_SIZE */
  const MIN_SIZE: int := 16
  /** The room `internal_append_int` reserves: the longest 64-bit text. */
  const UINT64_MAX_STRLEN: int := 20

  datatype Error = None | MemAllocFailure | OutOfRange

  /** Whether ENSURE_MEMORY_SIZE has to grow a buffer of `size` bytes so that
      `required` bytes and a terminator fit. */
  predicate Grows(size: int, required: int) { required + 1 > size }

  /** The size ENSURE_MEMORY_SIZE leaves (lines 22-32). */
  function SizeAfter(size: int, required: int): (r: int)
    ensures r >= required + 1 && r >= size
    ensures !Grows(size, required) ==> r == size
  {
    if Grows(size, required) then GrownSize(size, required + 1) else size
  }

  class StringBuilder {
    var str: array<Byte>
    var len: int
    var size: int
    var error: Error

    /** The layout every initialised builder keeps: `size` bytes allocated and
        room for the content plus one byte. */
    ghost predicate Valid()
      reads this
    {
      str.Length == size && 0 <= len < size
    }

    /** The content is followed by a NUL byte. `stringbuilder_init_size` does
        not write one; every operation that sets the length does. */
    ghost predicate Terminated()
      reads this, str
      requires Valid()
    {
      str[len] == NUL
    }

    function Content(): seq<Byte>
      reads this, str
      requires Valid()
    {
      str[..len]
    }

    /** A struct with no storage: the state `stringbuilder_finalize` leaves. */
    constructor ()
      ensures str.Length == 0 && len == 0 && size == 0 && error == None
    {
      str := new Byte[0];
      len, size, error := 0, 0, None;
    }

    /** `stringbuilder_init_size`: a fresh empty buffer of `initialSize` bytes.
        The result is also stored in `error`. */
    method InitSize(initialSize: int, allocOk: bool) returns (e: Error)
      modifies this
      ensures e == error
      ensures e == None <==> initialSize > 0 && allocOk
      ensures e == None ==> Valid() && fresh(str) && len == 0 && size == initialSize
      ensures e != None ==> e == MemAllocFailure && len == old(len) && size == old(size)
      ensures e != None ==> if initialSize > 0 then str.Length == 0 else str == old(str)
    {
      error := MemAllocFailure;
      if initialSize > 0 {
        if allocOk {
          str := new Byte[initialSize];
          len := 0;
          size := initialSize;
          error := None;
        } else {
          str := new Byte[0];
        }
      }
      e := error;
    }

    /** `stringbuilder_init`: `stringbuilder_init_size` with the default size. */
    method Init(allocOk: bool) returns (e: Error)
      modifies this
      ensures e == error && (e == None <==> allocOk)
      ensures e == None ==> Valid() && fresh(str) && len == 0 && size == MIN_SIZE
      ensures e != None ==>
                e == MemAllocFailure && str.Length == 0 && len == old(len) && size == old(size)
    {
      e := InitSize(MIN_SIZE, allocOk);
    }

    /** `stringbuilder_finalize`: the storage is released and every field reset. */
    method Finalize()
      modifies this
      ensures str.Length == 0 && len == 0 && size == 0 && error == None
    {
      str := new Byte[0];
      len, size, error := 0, 0, None;
    }

    /** `stringbuilder_copy`: `dest` gets storage of its own holding the same
        bytes. The outcome is stored in the SOURCE's `error`. Copying a
        builder onto itself re-initialises it first, so it ends up empty. */
    method Copy(dest: StringBuilder, allocOk: bool) returns (e: Error)
      requires Valid()
      modifies this`error, dest
      ensures e == error && e == (if allocOk then None else MemAllocFailure)
      ensures allocOk ==> dest.Valid() && fresh(dest.str) && dest.error == None
                          && dest.Terminated()
                          && dest.size == (if old(len) + 1 > MIN_SIZE then old(len) + 1 else MIN_SIZE)
                          && dest.Content() == (if dest == this then [] else old(Content()))
      ensures !allocOk ==>
                dest.error == MemAllocFailure && dest.str.Length == 0
                && dest.len == old(dest.len) && dest.size == old(dest.size)
      ensures dest != this ==> str == old(str) && len == old(len) && size == old(size)
    {
      ghost var src := Content();
      var requested := if len + 1 > MIN_SIZE then len + 1 else MIN_SIZE;
      var r := dest.InitSize(requested, allocOk);
      error := r;
      if error == None {
        var n := len;
        assert str[..n] == (if dest == this then [] else src);
        forall i | 0 <= i < n {
          dest.str[i] := str[i];
        }
        dest.len := n;
        dest.str[dest.len] := NUL;
        assert dest.Content() == (if dest == this then [] else src);
      }
      e := error;
    }

    /** `stringbuilder_set_size`: reallocate to exactly `newSize` bytes. The
        first min(size, newSize) bytes survive; a content that no longer fits
        is cut to `newSize - 1` bytes and terminated. A negative size becomes
        a huge `size_t` request, which fails like any failed reallocation. */
    method SetSize(newSize: int, allocOk: bool) returns (e: Error)
      requires Valid() && newSize != 0
      modifies this
      ensures e == error && e == (if allocOk && newSize > 0 then None else MemAllocFailure)
      ensures e != None ==> str == old(str) && len == old(len) && size == old(size)
      ensures e == None ==>
                Valid() && fresh(str) && size == newSize
                && len == (if old(len) >= newSize then newSize - 1 else old(len))
                && Content() == old(Content())[..len]
                && (old(len) >= newSize || old(Terminated()) ==> Terminated())
    {
      error := MemAllocFailure;
      if allocOk && newSize > 0 {
        var a := new Byte[newSize];
        var keep := Min(size, newSize);
        forall i | 0 <= i < keep {
          a[i] := str[i];
        }
        str := a;
        size := newSize;
        error := None;
        if len >= size {
          len := size - 1;
          str[len] := NUL;
        }
      }
      e := error;
    }

    /** The ENSURE_MEMORY_SIZE macro (lines 22-32): grow when `required` bytes
        and a terminator do not fit. `proceed` is false when the macro would
        return from its caller (the reallocation failed). */
    method EnsureMemorySize(required: int, allocOk: bool) returns (proceed: bool)
      requires Valid() && required >= 0
      modifies this
      ensures Valid() && len == old(len) && Content() == old(Content())
      ensures proceed == (!Grows(old(size), required) || allocOk)
      ensures !proceed ==> error == MemAllocFailure && str == old(str) && size == old(size)
      ensures proceed ==> size == SizeAfter(old(size), required)
      ensures proceed && !Grows(old(size), required) ==> str == old(str) && error == old(error)
      ensures proceed && Grows(old(size), required) ==> fresh(str) && error == None
      ensures old(Terminated()) ==> Terminated()
    {
      proceed := true;
      if required + 1 > size {
        var newSize := size * 2;
        if required + 1 > newSize {
          newSize := required + 1;
        }
        var e := SetSize(newSize, allocOk);
        proceed := e == None;
      }
    }

    /** `stringbuilder_set_length`: the content becomes `length` bytes long,
        cut or padded with zero bytes, and is terminated. The result is the
        stored `error`, which only a growth changes. */
    method SetLength(length: int, allocOk: bool) returns (e: Error)
      requires Valid() && 0 <= length < INT32_MAX
      modifies this, str
      ensures e == error
      ensures Grows(old(size), length) && !allocOk ==>
                e == MemAllocFailure && Valid() && str == old(str) && len == old(len)
                && size == old(size) && str[..] == old(str[..])
      ensures !Grows(old(size), length) || allocOk ==>
                Valid() && Terminated() && len == length
                && Content() == Resized(old(Content()), length)
                && size == SizeAfter(old(size), length)
                && e == (if Grows(old(size), length) then None else old(error))
    {
      ghost var was := Content();
      var ok := EnsureMemorySize(length, allocOk);
      if !ok {
        e := error;
        return;
      }
      assert str[..len] == was;
      if length > len {
        forall i | len <= i < length {
          str[i] := NUL;
        }
      }
      len := length;
      str[length] := NUL;
      e := error;
      assert Content() == Resized(was, length) by {
        if length > |was| {
          assert Content()[..|was|] == was;
          assert Content()[|was|..] == Zeros(length - |was|);
        }
      }
    }

    /** `stringbuilder_compare`: zero for equal contents, negative exactly when
        this content sorts first, positive exactly when it sorts last. The
        same object compares equal to itself. */
    function Compare(b: StringBuilder): (r: int)
      reads this, str, b, b.str
      requires Valid() && b.Valid()
      ensures r == 0 <==> Content() == b.Content()
      ensures r < 0 <==> LexLess(Content(), b.Content())
      ensures r > 0 <==> LexLess(b.Content(), Content())
    {
      CompareNegativeIffLess(Content(), b.Content());
      CompareNegativeIffLess(b.Content(), Content());
      CompareAntisymmetric(Content(), b.Content());
      CompareNegativeIffLess(Content(), Content());
      if this == b then 0 else MemNCmp(Content(), b.Content())
    }

    /** `stringbuilder_equals`: same object, or same length and same bytes. */
    function Equals(b: StringBuilder): (r: bool)
      reads this, str, b, b.str
      requires Valid() && b.Valid()
      ensures r <==> Content() == b.Content()
      ensures r <==> Compare(b) == 0
    {
      this == b || (len == b.len && MemCmp(Content(), b.Content(), len) == 0)
    }

    /** `stringbuilder_contains`, AS WRITTEN: an empty needle is always found,
        a one-byte needle is found exactly when it occurs in the content, a
        needle longer than the content never is. A longer needle is reported
        only where it occurs in the allocation starting inside the content:
        the candidate test (line 203) may compare bytes past the content. */
    method Contains(needle: seq<Byte>) returns (found: bool)
      requires Valid()
      ensures found == ContainsAsWritten(str[..], len, needle)
      ensures |needle| == 0 ==> found
      ensures |needle| == 1 ==> (found <==> needle[0] in Content())
      ensures |needle| > len ==> !found
      ensures found && |needle| >= 2 ==> exists c :: 0 <= c < len && OccursAt(str[..], c, needle)
    {
      ContainsAsWrittenSound(str[..], len, needle);
      if |needle| == 0 {
        return true;
      }
      if |needle| == 1 {
        var at := FindByte(str[..], 0, len, needle[0]);
        found := len > 0 && at != -1;
        assert found ==> Content()[at] == needle[0];
        return;
      }
      if |needle| <= len {
        found := Scan(str[..], len, needle);
        return;
      }
      return false;
    }

    /** `stringbuilder_starts_with`: false when the prefix is longer than the
        content, otherwise whether the first bytes match. */
    function StartsWith(prefix: seq<Byte>): (r: bool)
      reads this, str
      requires Valid()
      ensures r <==> |prefix| <= len && Content()[..|prefix|] == prefix
    {
      if len < |prefix| then false
      else
        assert Content()[..|prefix|] == Content()[..|prefix|][..|prefix|];
        MemCmp(Content()[..|prefix|], prefix, |prefix|) == 0
    }

    /** `stringbuilder_ends_with`: false when the suffix is longer than the
        content, otherwise whether the last bytes match. */
    function EndsWith(suffix: seq<Byte>): (r: bool)
      reads this, str
      requires Valid()
      ensures r <==> |suffix| <= len && Content()[len - |suffix|..] == suffix
    {
      if len < |suffix| then false
      else
        var tail := Content()[len - |suffix|..];
        assert tail == tail[..|suffix|];
        MemCmp(tail, suffix, |suffix|) == 0
    }

    /** `stringbuilder_append_char`. On a failed growth nothing but `error`
        changes; otherwise the byte is added and the content terminated. */
    method AppendChar(c: Byte, allocOk: bool) returns (e: Error)
      requires Valid() && len + 1 < INT32_MAX
      modifies this, str
      ensures e == error
      ensures Grows(old(size), old(len) + 1) && !allocOk ==>
                e == MemAllocFailure && Valid() && str == old(str) && len == old(len)
                && size == old(size) && str[..] == old(str[..])
      ensures !Grows(old(size), old(len) + 1) || allocOk ==>
                Valid() && Terminated() && Content() == old(Content()) + [c]
                && size == SizeAfter(old(size), old(len) + 1)
                && e == (if Grows(old(size), old(len) + 1) then None else old(error))
    {
      var ok := EnsureMemorySize(len + 1, allocOk);
      if !ok {
        e := error;
        return;
      }
      str[len] := c;
      len := len + 1;
      str[len] := NUL;
      e := error;
    }

    /** `stringbuilder_append_string`: the bytes `s` follow the content. On a
        failed growth nothing but `error` changes. */
    method AppendString(s: seq<Byte>, allocOk: bool) returns (e: Error)
      requires Valid() && len + |s| < INT32_MAX
      modifies this, str
      ensures e == error
      ensures Grows(old(size), old(len) + |s|) && !allocOk ==>
                e == MemAllocFailure && Valid() && str == old(str) && len == old(len)
                && size == old(size) && str[..] == old(str[..])
      ensures !Grows(old(size), old(len) + |s|) || allocOk ==>
                Valid() && Terminated() && Content() == old(Content()) + s
                && size == SizeAfter(old(size), old(len) + |s|)
                && e == (if Grows(old(size), old(len) + |s|) then None else old(error))
    {
      var newLen := len + |s|;
      var ok := EnsureMemorySize(newLen, allocOk);
      if !ok {
        e := error;
        return;
      }
      Put(s);
      e := error;
    }

    /** Copy `s` behind the content, which has room for it and a terminator,
        and terminate: the tail of every append. */
    method Put(s: seq<Byte>)
      requires Valid() && len + |s| < size
      modifies this`len, str
      ensures Valid() && Terminated() && Content() == old(Content()) + s
    {
      ghost var was := Content();
      forall i | 0 <= i < |s| {
        str[len + i] := s[i];
      }
      assert str[..len] == was;
      len := len + |s|;
      str[len] := NUL;
      assert Content() == was + s by {
        assert Content()[..|was|] == was;
        assert Content()[|was|..] == s;
      }
    }

    /** `stringbuilder_concat`: append another builder's content. Appending a
        builder to itself is defined only when no reallocation happens. */
    method Concat(other: StringBuilder, allocOk: bool) returns (e: Error)
      requires Valid() && other.Valid() && len + other.len < INT32_MAX
      requires other != this || !Grows(size, 2 * len)
      modifies this, str
      ensures e == error
      ensures Grows(old(size), old(len) + old(other.len)) && !allocOk ==>
                e == MemAllocFailure && Valid() && str == old(str) && len == old(len)
                && size == old(size) && str[..] == old(str[..])
      ensures !Grows(old(size), old(len) + old(other.len)) || allocOk ==>
                Valid() && Terminated() && Content() == old(Content()) + old(other.Content())
                && size == SizeAfter(old(size), old(len) + old(other.len))
                && e == (if Grows(old(size), old(len) + old(other.len)) then None else old(error))
    {
      e := AppendString(other.Content(), allocOk);
    }

    /** `internal_append_int`: `bits` is the 64-bit pattern of the value and
        `signed` says whether the format reads it as `int64_t` (`%PRId64`) or
        as `uint64_t` (`%PRIu64`). Values 0..9 go through `append_char`;
        everything else reserves 20 bytes first. */
    method AppendInt64Bits(bits: int, signed: bool, allocOk: bool) returns (e: Error)
      requires Valid() && 0 <= bits < TWO_POW_64 && len + UINT64_MAX_STRLEN < INT32_MAX
      modifies this, str
      ensures var required := if bits <= 9 then old(len) + 1 else old(len) + UINT64_MAX_STRLEN;
              (Grows(old(size), required) && !allocOk ==>
                e == MemAllocFailure && Valid() && str == old(str) && len == old(len)
                && size == old(size) && str[..] == old(str[..]))
              && (!Grows(old(size), required) || allocOk ==>
                Valid() && Terminated() && size == SizeAfter(old(size), required)
                && Content() == old(Content()) + SignedText(if signed && bits >= TWO_POW_63 then bits - TWO_POW_64 else bits)
                && e == (if Grows(old(size), required) then None else old(error)))
      ensures e == error
    {
      if bits <= 9 {
        e := AppendChar(ZERO + bits, allocOk);
        return;
      }
      var ok := EnsureMemorySize(len + UINT64_MAX_STRLEN, allocOk);
      if !ok {
        e := error;
        return;
      }
      var value := if signed && bits >= TWO_POW_63 then bits - TWO_POW_64 else bits;
      var text := SignedText(value);
      DecimalLength64(if value < 0 then -value else value);
      Put(text);
      e := error;
    }

    /** `stringbuilder_append_int`: the signed base-10 text of `value`. */
    method AppendInt(value: int, allocOk: bool) returns (e: Error)
      requires Valid() && -TWO_POW_63 <= value < TWO_POW_63 && len + UINT64_MAX_STRLEN < INT32_MAX
      modifies this, str
      ensures e == error
      ensures var required := if 0 <= value <= 9 then old(len) + 1 else old(len) + UINT64_MAX_STRLEN;
              !Grows(old(size), required) || allocOk ==>
                Valid() && Terminated() && Content() == old(Content()) + SignedText(value)
                && size == SizeAfter(old(size), required)
                && e == (if Grows(old(size), required) then None else old(error))
      ensures var required := if 0 <= value <= 9 then old(len) + 1 else old(len) + UINT64_MAX_STRLEN;
              Grows(old(size), required) && !allocOk ==>
                e == MemAllocFailure && Valid() && str == old(str) && len == old(len)
                && size == old(size) && str[..] == old(str[..])
    {
      var bits := if value < 0 then value + TWO_POW_64 else value;
      e := AppendInt64Bits(bits, true, allocOk);
    }

    /** `stringbuilder_append_uint`: the unsigned base-10 text of `value`. */
    method AppendUint(value: int, allocOk: bool) returns (e: Error)
      requires Valid() && 0 <= value < TWO_POW_64 && len + UINT64_MAX_STRLEN < INT32_MAX
      modifies this, str
      ensures e == error
      ensures var required := if value <= 9 then old(len) + 1 else old(len) + UINT64_MAX_STRLEN;
              !Grows(old(size), required) || allocOk ==>
                Valid() && Terminated() && Content() == old(Content()) + DecimalText(value)
                && size == SizeAfter(old(size), required)
                && e == (if Grows(old(size), required) then None else old(error))
      ensures var required := if value <= 9 then old(len) + 1 else old(len) + UINT64_MAX_STRLEN;
              Grows(old(size), required) && !allocOk ==>
                e == MemAllocFailure && Valid() && str == old(str) && len == old(len)
                && size == old(size) && str[..] == old(str[..])
    {
      e := AppendInt64Bits(value, false, allocOk);
    }

    /** `internal_case_convert` with `toupper` (`upper`) or `tolower`: every
        content byte converted in place; length and terminator untouched. */
    method CaseConvert(upper: bool)
      requires Valid()
      modifies str
      ensures Valid()
      ensures Content() == if upper then Upper(old(Content())) else Lower(old(Content()))
      ensures str[len..] == old(str[len..])
    {
      if len > 0 {
        var i := 0;
        while i < len
          invariant 0 <= i <= len
          invariant forall k :: 0 <= k < i ==> str[k] == (if upper then ToUpper(old(str[k])) else ToLower(old(str[k])))
          invariant forall k :: i <= k < str.Length ==> str[k] == old(str[k])
        {
          str[i] := if upper then ToUpper(str[i]) else ToLower(str[i]);
          i := i + 1;
        }
      }
    }

    /** `stringbuilder_to_uppercase` */
    method ToUppercase()
      requires Valid()
      modifies str
      ensures Valid() && Content() == Upper(old(Content()))
      ensures str[len..] == old(str[len..])
    {
      CaseConvert(true);
    }

    /** `stringbuilder_to_lowercase` */
    method ToLowercase()
      requires Valid()
      modifies str
      ensures Valid() && Content() == Lower(old(Content()))
      ensures str[len..] == old(str[len..])
    {
      CaseConvert(false);
    }

    /** `stringbuilder_replace_char`: every content byte equal to `search`
        becomes `replace`; the result is how many there were. */
    method ReplaceChar(search: Byte, replace: Byte) returns (n: int)
      requires Valid()
      modifies str
      ensures Valid()
      ensures n == Count(old(Content()), search)
      ensures Content() == ReplaceAll(old(Content()), search, replace)
      ensures str[len..] == old(str[len..])
    {
      ghost var orig := str[..len];
      n := 0;
      if len > 0 {
        var c := 0;
        while true
          invariant 0 <= c <= len
          invariant n == Count(orig[..c], search)
          invariant forall k :: 0 <= k < c ==> str[k] == (if orig[k] == search then replace else orig[k])
          invariant forall k :: c <= k < str.Length ==> str[k] == old(str[k])
          decreases len - c
        {
          var p := FindByte(str[..], c, len, search);
          if p == -1 {
            CountSkip(orig, search, c, len);
            assert orig[..len] == orig;
            break;
          }
          CountSkip(orig, search, c, p);
          CountStep(orig, search, p);
          str[p] := replace;
          c := p + 1;
          n := n + 1;
        }
      }
    }

    /** `stringbuilder_repeat`: a negative count is refused with OUT_OF_RANGE
        and changes nothing else; otherwise the content becomes `times` copies
        of itself (an empty content stays empty). */
    method Repeat(times: int, allocOk: bool) returns (e: Error)
      requires Valid()
      requires times < 0 || len * times < INT32_MAX
      modifies this, str
      ensures e == error
      ensures times < 0 ==>
                e == OutOfRange && str == old(str) && len == old(len) && size == old(size)
                && str[..] == old(str[..])
      ensures times >= 1 && old(len) > 0 && Grows(old(size), old(len) * times) && !allocOk ==>
                e == MemAllocFailure && Valid() && str == old(str) && len == old(len)
                && size == old(size) && str[..] == old(str[..])
      ensures times >= 0 && !(times >= 1 && old(len) > 0 && Grows(old(size), old(len) * times) && !allocOk) ==>
                e == None && Valid() && Content() == TextOps.Repeat(old(Content()), times)
                && (old(len) > 0 ==> Terminated())
                && size == (if times >= 1 && old(len) > 0 then SizeAfter(old(size), old(len) * times) else old(size))
    {
      if times < 0 {
        error := OutOfRange;
        e := error;
        return;
      }
      error := None;
      if len > 0 {
        if times == 0 {
          len := 0;
          str[0] := NUL;
        } else {
          var newLen := len + len * (times - 1);
          MulStep(len, times - 1, times);
          var ok := EnsureMemorySize(newLen, allocOk);
          if !ok {
            e := error;
            return;
          }
          Replicate(str, len, times);
          len := newLen;
          str[newLen] := NUL;
        }
      } else {
        RepeatUnits(Content(), times);
      }
      e := error;
    }

    /** `stringbuilder_trim`: the content becomes its slice from the first to
        the last non-whitespace byte; all whitespace leaves it empty. */
    method Trim()
      requires Valid()
      modifies this`len, str
      ensures Valid() && size == old(size) && str == old(str) && error == old(error)
      ensures Content() == TextOps.Trim(old(Content()))
      ensures old(len) > 0 || old(Terminated()) ==> Terminated()
    {
      if len > 0 {
        ghost var orig := Content();
        var c := SkipLeading();
        if c == len {
          len := 0;
          str[0] := NUL;
          return;
        }
        var e := SkipTrailing(c);
        assert orig[c..][..e + 1 - c] == orig[c..e + 1];
        MoveDown(c, e - c + 1);
      }
    }

    /** The first loop of `stringbuilder_trim` (lines 385-387): the number of
        whitespace bytes the content starts with. */
    method SkipLeading() returns (c: int)
      requires Valid()
      ensures c == LeadingSpace(Content())
      ensures c < len ==> !IsSpace(Content()[c])
    {
      c := 0;
      while c < len && IsSpace(str[c])
        invariant 0 <= c <= len
        invariant forall k :: 0 <= k < c ==> IsSpace(Content()[k])
      {
        c := c + 1;
      }
      LeadingSpaceUnique(Content(), c);
    }

    /** The second loop of `stringbuilder_trim` (lines 397-399): back from
        the last byte to the last non-whitespace byte, which exists at or
        after `c`. */
    method SkipTrailing(c: int) returns (e: int)
      requires Valid() && 0 <= c < len && !IsSpace(Content()[c])
      ensures c <= e < len
      ensures e == len - 1 - TrailingSpace(Content()[c..])
    {
      e := len - 1;
      while e >= c && IsSpace(str[e])
        invariant c <= e < len
        invariant forall k :: e < k < len ==> IsSpace(Content()[k])
      {
        e := e - 1;
      }
      TrailingSpaceUnique(Content()[c..], e - c + 1);
    }

    /** The `memmove` and terminator of `stringbuilder_trim` (lines 403-409):
        the `newLen` bytes at `c` become the content. */
    method MoveDown(c: int, newLen: int)
      requires Valid() && 0 <= c && 1 <= newLen && c + newLen <= len
      modifies this`len, str
      ensures Valid() && Terminated() && Content() == old(Content()[c..c + newLen])
    {
      if c > 0 {
        forall i | 0 <= i < newLen {
          str[i] := str[c + i];
        }
      }
      len := newLen;
      str[newLen] := NUL;
    }
  }

  /** The copy loop of `stringbuilder_repeat` (lines 364-368), with the
      room already reserved: the `len` content bytes at the start of `a` are
      copied behind themselves until they stand there `times` times. */
  method Replicate(a: array<Byte>, len: int, times: int)
    requires 0 < len && times >= 1 && len * times < a.Length
    modifies a
    ensures a[..len * times] == TextOps.Repeat(old(a[..len]), times)
  {
    ghost var orig := a[..len];
    var dst := len;
    var t := times;
    ghost var k := 1;
    while t - 1 > 0
      invariant 1 <= t <= times && k == times - t + 1 && dst == len * k
      invariant a[..len] == orig && a[..dst] == TextOps.Repeat(orig, k)
      decreases t
    {
      t := t - 1;
      MulStep(len, k, times);
      CopyBlock(a, len, dst);
      RepeatStep(a[..], orig, k, dst);
      dst := dst + len;
      k := k + 1;
    }
  }

  /** One `memmove` of the repeat loop: the first `len` bytes copied to
      `dst`, past them. */
  method CopyBlock(a: array<Byte>, len: int, dst: int)
    requires 0 <= len <= dst && dst + len <= a.Length
    modifies a
    ensures a[..dst] == old(a[..dst]) && a[..len] == old(a[..len])
    ensures a[dst..dst + len] == old(a[..len])
  {
    forall i | 0 <= i < len {
      a[dst + i] := a[i];
    }
  }

  // ------------------------------------------- the search, as written

  /** The candidate test at line 203: the byte at `c` already equals the
      needle's first byte; the remaining `|needle| - 1` bytes of memory after
      it are compared with the rest of the needle, whether or not they lie
      inside the content. Bytes past the allocation count as a mismatch. */
  function TailMatches(mem: seq<Byte>, c: int, needle: seq<Byte>): (r: bool)
    requires 0 <= c && |needle| >= 1
    ensures r ==> c < |mem| && (mem[c] == needle[0] ==> OccursAt(mem, c, needle))
  {
    if c + |needle| <= |mem| && mem[c + 1..c + |needle|] == needle[1..] then
      assert mem[c..c + |needle|] == [mem[c]] + mem[c + 1..c + |needle|];
      true
    else
      false
  }

  /** The do-while loop of lines 197-208 from the candidate `c` that
      `memchr` returned (-1 for NULL): test the candidate, skip `|needle|`
      bytes past it, and while `curr + |needle| < len` search again from
      there. */
  function ScanAt(mem: seq<Byte>, len: int, needle: seq<Byte>, c: int): (r: bool)
    requires 2 <= |needle| <= len <= |mem| && -1 <= c < len
    decreases if c == -1 then 0 else len - c
    ensures r ==> c != -1 && exists k :: c <= k < len && TailMatches(mem, k, needle)
  {
    if c == -1 then false
    else if TailMatches(mem, c, needle) then true
    else if c + |needle| + |needle| < len then
      ScanAt(mem, len, needle, FindByte(mem, c + |needle|, len, needle[0]))
    else false
  }

  /** The do-while loop of `stringbuilder_contains` (lines 194-208) over the
      allocation `mem` holding `len` content bytes, with the `memchr` call
      that opens each round hoisted to the end of the previous one. */
  method Scan(mem: seq<Byte>, len: int, needle: seq<Byte>) returns (found: bool)
    requires 2 <= |needle| <= len <= |mem|
    ensures found == ScanAt(mem, len, needle, FindByte(mem, 0, len, needle[0]))
  {
    var c := FindByte(mem, 0, len, needle[0]);
    ghost var first := c;
    while c != -1
      invariant -1 <= c < len
      invariant ScanAt(mem, len, needle, c) == ScanAt(mem, len, needle, first)
      decreases if c == -1 then 0 else len - c
    {
      if TailMatches(mem, c, needle) {
        return true;
      }
      if !(c + |needle| + |needle| < len) {
        return false;
      }
      c := FindByte(mem, c + |needle|, len, needle[0]);
    }
    return false;
  }

  /** A hit of the scan is a real occurrence, starting inside the content
      (though it may run past the content's end). */
  lemma {:induction false} ScanAtSound(mem: seq<Byte>, len: int, needle: seq<Byte>, c: int)
    requires 2 <= |needle| <= len <= |mem| && -1 <= c < len
    requires c == -1 || mem[c] == needle[0]
    ensures ScanAt(mem, len, needle, c) ==> exists k :: 0 <= k < len && OccursAt(mem, k, needle)
    decreases if c == -1 then 0 else len - c
  {
    if c != -1 {
      if TailMatches(mem, c, needle) {
        assert mem[c..c + |needle|] == [mem[c]] + mem[c + 1..c + |needle|];
        assert OccursAt(mem, c, needle);
      } else if c + |needle| + |needle| < len {
        ScanAtSound(mem, len, needle, FindByte(mem, c + |needle|, len, needle[0]));
      }
    }
  }

  /** `stringbuilder_contains` on the allocation `mem` holding `len` content
      bytes. */
  function ContainsAsWritten(mem: seq<Byte>, len: int, needle: seq<Byte>): (r: bool)
    requires 0 <= len <= |mem|
    ensures |needle| >= 2 && r ==> exists k :: 0 <= k < len && TailMatches(mem, k, needle)
  {
    if |needle| == 0 then true
    else if |needle| == 1 then len > 0 && FindByte(mem, 0, len, needle[0]) != -1
    else if |needle| <= len then ScanAt(mem, len, needle, FindByte(mem, 0, len, needle[0]))
    else false
  }

  /** What the search promises: the edge cases, and for longer needles an
      occurrence in the allocation that starts inside the content. */
  lemma ContainsAsWrittenSound(mem: seq<Byte>, len: int, needle: seq<Byte>)
    requires 0 <= len <= |mem|
    ensures |needle| == 0 ==> ContainsAsWritten(mem, len, needle)
    ensures |needle| == 1 ==> (ContainsAsWritten(mem, len, needle) <==> needle[0] in mem[..len])
    ensures |needle| > len ==> !ContainsAsWritten(mem, len, needle)
    ensures ContainsAsWritten(mem, len, needle) && |needle| >= 2 ==>
              exists c :: 0 <= c < len && OccursAt(mem, c, needle)
  {
    if 2 <= |needle| <= len {
      ScanAtSound(mem, len, needle, FindByte(mem, 0, len, needle[0]));
    }
    if |needle| == 1 {
      var at := FindByte(mem, 0, len, needle[0]);
      if at != -1 {
        assert mem[..len][at] == needle[0];
      }
      if needle[0] in mem[..len] {
        var k :| 0 <= k < len && mem[..len][k] == needle[0];
        assert mem[k] == needle[0];
      }
    }
  }

  /** Finding: after a mismatch the scan skips `|needle|` bytes (line 207),
      so "ab" is not found in "aabx", where it occurs at index 1. Moving on
      by one byte instead would make index 1 the next candidate, which the
      bound at line 208 still admits. */
  lemma SkipMissesOccurrence()
    ensures var mem := [97, 97, 98, 120, 0];
            !ContainsAsWritten(mem, 4, [97, 98]) && FirstIndexOf(mem[..4], [97, 98]) == 1
  {
    var mem: seq<Byte> := [97, 97, 98, 120, 0];
    var needle: seq<Byte> := [97, 98];
    assert FindByte(mem, 0, 4, 97) == 0;
    assert mem[1..2][0] != needle[1..][0];
    assert mem[..4][0..2][1] != needle[1];
    assert mem[..4][1..3] == needle;
    assert FirstIndexOfFrom(mem[..4], needle, 1) == 1;
  }

  /** Finding: the loop goes on only while `curr + |needle| < len` (line
      208), so a candidate that ends exactly at the end of the content is
      never examined: "ab" is not found in "acab", where it occurs at index 2. */
  lemma StrictBoundMissesOccurrence()
    ensures var mem := [97, 99, 97, 98, 0];
            !ContainsAsWritten(mem, 4, [97, 98]) && FirstIndexOf(mem[..4], [97, 98]) == 2
  {
    var mem: seq<Byte> := [97, 99, 97, 98, 0];
    var needle: seq<Byte> := [97, 98];
    assert FindByte(mem, 0, 4, 97) == 0;
    assert mem[1..2][0] != needle[1..][0];
    assert mem[..4][0..2][1] != needle[1];
    assert mem[..4][1..3][0] != needle[0];
    assert mem[..4][2..4] == needle;
    assert FirstIndexOfFrom(mem[..4], needle, 2) == 2;
    assert FirstIndexOfFrom(mem[..4], needle, 1) == 2;
  }

  /** Finding: the candidate test compares bytes past the content (line 203),
      so the terminator completes a match: "a\0" is reported inside "xa",
      which does not contain it. */
  lemma TerminatorCompletesMatch()
    ensures var mem := [120, 97, 0];
            ContainsAsWritten(mem, 2, [97, 0]) && FirstIndexOf(mem[..2], [97, 0]) == -1
  {
    var mem: seq<Byte> := [120, 97, 0];
    assert FindByte(mem, 0, 2, 97) == 1;
    assert mem[2..3] == [97, 0][1..];
    assert TailMatches(mem, 1, [97, 0]);
    assert !OccursAt(mem[..2], 0, [97, 0]);
    assert forall i :: !OccursAt(mem[..2], i, [97, 0]) by {
      forall i ensures !OccursAt(mem[..2], i, [97, 0]) {
        if i != 0 {}
      }
    }
  }
}
