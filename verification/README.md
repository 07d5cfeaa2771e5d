# Growable byte buffers: StringBuilder and MutStr

This project models the two independent, binary-safe, growable byte buffers of
the `str` C library and proves what their operations compute.

- **StringBuilder** (`stringbuilder.c`, module `StringBuilderLib`). A heap
  array `str` of `size` bytes, whose first `len` bytes are the content, and an
  `error` field. Some operations store their outcome in `error`, and every
  operation that reports an error returns that stored value. The comparisons
  and searches return an `int` or a `bool`, `replace_char` returns a count,
  and `finalize`, the case conversions and `trim` return nothing.
- **MutStr** (`mutstr.c`, module `MutStrLib`). A heap array `val` of `size`
  bytes and a length `len`. Every operation that can fail returns a `State`
  (Ok, NoMemory, OutOfRange) and stores nothing. The comparisons, searches
  and prefix and suffix tests return an `int32_t` or a `bool`, and
  `finalize` and the case conversions return nothing.

Both buffers keep `len + 1 <= size`. A MutStr always has a NUL byte after its
content. A StringBuilder has one after every operation that sets the length,
but not straight after `stringbuilder_init_size`, which writes no byte. Both
share the growth rule: when the required room does not fit, the new size is
twice the old size, or exactly the required room if that is larger. Each
buffer is a Dafny `class` over an `array<Byte>`, where `Byte` is an integer in
0..255 read as `unsigned char`. The methods change the fields and the array in
place. The loops of the source are `while` loops with their invariants:
- the case conversion;
- the `memchr` loop of `replace_char`;
- the trim scans;
- the `memmove` loops of `repeat`;
- the substring searches;
- the digit loop of `uint_to_str`.

`memcpy`, `memmove` and `memset` are simultaneous array updates. The methods
that rewrite the content are proved against pure specification functions:
repetition, trimming, replacement, resizing and decimal rendering. The
properties the library promises are proved about those functions as lemmas.
The remaining methods state their new content and fields directly in their
postconditions.

Shared modules:
- `Bytes`: the "C"-locale `isspace`/`toupper`/`tolower` of ISO C11 sections
  7.4.1.10 and 7.4.2, the growth rule, and zero padding.
- `Memory`: `memchr`, `memcmp` and the length-aware comparison built on them,
  the lexicographic order that comparison decides, and a reference substring
  search.
- `TextOps`: repetition, trimming, counting and replacement.
- `Decimal`: base-10 rendering as `%PRIu64`/`%PRId64` produce it (ISO C11
  section 7.21.6.1). It has a round trip to the value and a length bound.

The environment enters in one way only. Whether an allocation succeeds is the
parameter `allocOk` of every operation that allocates. An empty array stands
for a NULL pointer.

The code and the library's prose disagree in a few places. The model follows
the code:
- The multi-byte substring searches are not exact. They can miss occurrences,
  and the StringBuilder one can report a match that is not there; see
  Findings.
- `mutstr_repeat` has no guard against a negative count. That case is not
  defined in the code, so the model requires a non-negative count on a
  non-empty content and reports no OutOfRange for it.
- `mutstr.h` does not match `mutstr.c`: it differs in field names, return
  types and the claim that compare returns -1/0/1. The model follows
  `mutstr.c`, whose comparison returns a difference whose sign is the order.

## Model

| member | source | states |
|---|---|---|
| Bytes.ToUpper | mutstr.c:389-392 | `toupper` leaves no lower-case letter, changes only 'a'..'z', and turns each of them into an upper-case letter |
| Bytes.ToLower | mutstr.c:394-397 | `tolower` leaves no upper-case letter, changes only 'A'..'Z', and turns each of them into a lower-case letter |
| Bytes.CaseRoundTrip | mutstr.c:389-397 | `tolower` undoes `toupper` on lower-case letters, and `toupper` undoes `tolower` on upper-case letters |
| Bytes.UpperSpec | stringbuilder.c:310-326 | upper-casing keeps the length, leaves no lower-case letter, keeps every other byte, and is idempotent |
| Bytes.LowerSpec | stringbuilder.c:328-331 | lower-casing keeps the length, leaves no upper-case letter, keeps every other byte, and is idempotent |
| Bytes.LowerUndoesUpper | stringbuilder.c:310-331 | on text with no upper-case letter, lower-casing after upper-casing gives the text back |
| Bytes.GrownSize | stringbuilder.c:22-32 | the grown size is at least the required room and at least twice the old size, and is one of the two |
| Bytes.Zeros | stringbuilder.c:129-132 | the `memset` padding is `n` NUL bytes |
| Bytes.Resized | mutstr.c:98-103 | the content after a length change keeps the old bytes below both lengths and is NUL beyond the old length |
| Memory.FindByte | mutstr.c:201 | `memchr` returns the first index of the byte inside the window, or -1 exactly when the byte is absent there |
| Memory.FindByteAgrees | mutstr.c:211 | `memchr` depends only on the bytes inside its window |
| Memory.FindByteWider | mutstr.c:211 | widening the window keeps a hit, and otherwise finds nothing or something past the old window |
| Memory.FirstDiff | mutstr.c:141 | the first differing index: equal bytes before it, different bytes at it |
| Memory.MemCmp | stringbuilder.c:177 | `memcmp` is zero exactly when the first `n` bytes agree |
| Memory.MemNCmp | mutstr.c:139-147 | the common-prefix comparison with length tie-break is zero exactly for equal byte strings |
| Memory.FirstDiffDecidesOrder | mutstr.c:139-147 | the first differing byte, or the length when none differs, decides the lexicographic order |
| Memory.CompareNegativeIffLess | mutstr.c:139-147 | the comparison is negative exactly when the first string sorts before the second |
| Memory.CompareAntisymmetric | stringbuilder.c:161-173 | swapping the operands flips the sign of the comparison; with the model's `memcmp`, which returns the byte difference, it negates it exactly |
| Memory.FirstIndexOfFrom | mutstr.c:193-217 | the reference search returns the first occurrence at or after `from`, and -1 only when there is none |
| Memory.FirstIndexOf | mutstr.c:193-217 | the exact substring search: the first occurrence, or -1 exactly when the needle does not occur |
| TextOps.RepeatAt | mutstr.c:456-485 | the repetition is `k` times as long, and its byte `j` is byte `j mod len` of the original |
| TextOps.RepeatLength | mutstr.c:465 | the repeated length is `len * k` |
| TextOps.RepeatStep | stringbuilder.c:364-368 | a memory holding `k` copies followed by one more copy holds `k + 1` copies |
| TextOps.RepeatUnits | stringbuilder.c:356-359 | one copy is the text itself; zero copies, or copies of nothing, are empty |
| TextOps.RepeatAdd | stringbuilder.c:361 | `j + k` copies are `j` copies followed by `k` copies |
| TextOps.LeadingSpaceSpec | stringbuilder.c:385-387 | the leading run is whitespace and stops at a byte that is not |
| TextOps.TrailingSpaceSpec | stringbuilder.c:397-401 | the trailing run is whitespace and starts after a byte that is not |
| TextOps.LeadingSpaceUnique | stringbuilder.c:385-387 | a front scan that stops at the first non-whitespace byte stopped at the leading run's end |
| TextOps.TrailingSpaceUnique | stringbuilder.c:397-401 | a back scan that stops after the last non-whitespace byte stopped at the trailing run's start |
| TextOps.TrimEnds | stringbuilder.c:378-411 | a non-empty trimmed text neither starts nor ends with whitespace |
| TextOps.TrimCutsOnlySpace | stringbuilder.c:378-411 | everything cut before and after the trimmed slice is whitespace |
| TextOps.TrimEmptyIffAllSpace | stringbuilder.c:389-395 | the trimmed text is empty exactly when the content is all whitespace |
| TextOps.TrimIdempotent | stringbuilder.c:378-411 | trimming twice equals trimming once |
| TextOps.TrimBetween | stringbuilder.c:403-409 | the slice from the first to the last non-whitespace byte is the trimmed text |
| TextOps.TrimRightCons | mutstr.c:418-420 | the right trim of a text with a non-whitespace first byte keeps that byte and right-trims the rest |
| TextOps.CountSkip | stringbuilder.c:339 | a stretch without the byte adds nothing to its count |
| TextOps.CountStep | stringbuilder.c:339-343 | one more byte adds one to the count exactly when it is the searched byte |
| TextOps.ReplaceAllSpec | stringbuilder.c:333-347 | replacing keeps the length, leaves no searched byte behind, and turns each one into a replacement byte |
| Decimal.DecimalRoundTrip | mutstr.c:331-339 | the rendered text is canonical (digits only, no leading zero) and denotes the value again |
| Decimal.CanonicalIsDecimalText | mutstr.c:331-339 | every canonical digit string is the rendering of its value, so the rendering is one-to-one onto them |
| Decimal.PositiveValue | mutstr.c:331-339 | a canonical text of more than one digit denotes at least 10 |
| Decimal.DecimalLength | mutstr.c:357 | a value below 10^k renders in at most k digits |
| Decimal.DecimalLength64 | stringbuilder.c:280 | a 64-bit value renders in at most 20 digits, a magnitude up to 2^63 in at most 19 |
| Decimal.SignedRoundTrip | mutstr.c:341-350 | a signed text starts with '-' exactly for negative values, and the rest is the canonical text of the magnitude |
| Decimal.DecimalText | mutstr.c:331-339 | the rendering is a non-empty digit string that starts with '0' exactly for zero |
| Decimal.SignedText | mutstr.c:341-350 | the signed rendering is non-empty and starts with '-' exactly for negative values |
| StringBuilderLib.SizeAfter | stringbuilder.c:22-32 | ENSURE_MEMORY_SIZE leaves room for the required bytes and a terminator, never shrinks, and keeps the size when no growth is needed |
| StringBuilderLib.StringBuilder.constructor | stringbuilder.c:80-83 | a builder with no storage, length, size or error |
| StringBuilderLib.StringBuilder.InitSize | stringbuilder.c:58-71 | success exactly for a positive size and a successful allocation; an empty fresh buffer of that size; otherwise MEM_ALLOC_FAILURE with the length and size kept and the storage NULL after a failed allocation; the outcome is stored in `error` |
| StringBuilderLib.StringBuilder.Init | stringbuilder.c:53-56 | init-size with 16 bytes: success exactly when the allocation succeeds; otherwise MEM_ALLOC_FAILURE with NULL storage and the length and size kept |
| StringBuilderLib.StringBuilder.Finalize | stringbuilder.c:73-85 | storage released and every field reset, `error` included |
| StringBuilderLib.StringBuilder.Copy | stringbuilder.c:87-97 | `dest` gets fresh storage of max(len + 1, 16) bytes holding the same bytes; a failed allocation leaves `dest` with MEM_ALLOC_FAILURE, NULL storage and its old length and size; the outcome is stored in the source's `error`; copying onto itself leaves it empty |
| StringBuilderLib.StringBuilder.SetSize | stringbuilder.c:144-159 | MEM_ALLOC_FAILURE for a negative size (a huge `size_t` request) or a failed reallocation, changing only `error`; on success the size is exactly the new size and a content that no longer fits is cut to size - 1 bytes and terminated |
| StringBuilderLib.StringBuilder.EnsureMemorySize | stringbuilder.c:22-32 | the content is kept; the size becomes the grown size when growth is needed; a failed growth makes the caller return the stored MEM_ALLOC_FAILURE |
| StringBuilderLib.StringBuilder.SetLength | stringbuilder.c:126-137 | the content becomes its first `n` bytes, or is padded with NUL bytes up to `n`, and is terminated; `error` changes only on growth; a failed growth changes nothing else |
| StringBuilderLib.StringBuilder.Compare | stringbuilder.c:161-173 | zero exactly for equal contents, negative exactly when this content sorts first, positive exactly when it sorts last |
| StringBuilderLib.StringBuilder.Equals | stringbuilder.c:175-178 | true exactly for equal contents, and exactly when the comparison is zero |
| StringBuilderLib.StringBuilder.Contains | stringbuilder.c:180-212 | an empty needle is found; a one-byte needle is found exactly when it occurs in the content; a needle longer than the content is not; a longer needle is found only where it occurs from an index inside the content |
| StringBuilderLib.StringBuilder.StartsWith | stringbuilder.c:214-221 | true exactly when the prefix is no longer than the content and equals its first bytes |
| StringBuilderLib.StringBuilder.EndsWith | stringbuilder.c:223-231 | true exactly when the suffix is no longer than the content and equals its last bytes |
| StringBuilderLib.StringBuilder.AppendChar | stringbuilder.c:238-244 | on success the content gains the byte and is terminated, with the grown size; a failed growth changes nothing but `error` |
| StringBuilderLib.StringBuilder.AppendString | stringbuilder.c:246-255 | on success the content is the old content followed by the bytes; a failed growth changes nothing but `error` |
| StringBuilderLib.StringBuilder.Put | stringbuilder.c:250-253 | the bytes are copied behind the content, which is terminated |
| StringBuilderLib.StringBuilder.Concat | stringbuilder.c:233-236 | on success the content is followed by the other builder's content, with the grown size, and `error` is reset only if the storage grew; a failed growth changes nothing but `error` |
| StringBuilderLib.StringBuilder.AppendInt64Bits | stringbuilder.c:273-286 | values 0..9 append one digit; the others reserve 20 bytes and append the decimal text of the bits read as signed or unsigned; `error` is reset only if the storage grew; a failed growth changes nothing but `error` |
| StringBuilderLib.StringBuilder.AppendInt | stringbuilder.c:288-291 | the content gains the signed decimal text of the value, `error` reset only if the storage grew; a failed growth changes nothing but `error` |
| StringBuilderLib.StringBuilder.AppendUint | stringbuilder.c:293-296 | the content gains the unsigned decimal text of the value, `error` reset only if the storage grew; a failed growth changes nothing but `error` |
| StringBuilderLib.StringBuilder.CaseConvert | stringbuilder.c:310-321 | every content byte converted, the length and the bytes past the content untouched |
| StringBuilderLib.StringBuilder.ToUppercase | stringbuilder.c:323-326 | the content is upper-cased in place |
| StringBuilderLib.StringBuilder.ToLowercase | stringbuilder.c:328-331 | the content is lower-cased in place |
| StringBuilderLib.StringBuilder.ReplaceChar | stringbuilder.c:333-347 | the result is the number of searched bytes, and exactly those positions now hold the replacement; the length is unchanged |
| StringBuilderLib.StringBuilder.Repeat | stringbuilder.c:349-376 | a negative count gives OUT_OF_RANGE and changes nothing else; otherwise the content is `times` copies of itself (empty for 0 or an empty content); a failed growth changes nothing but `error` |
| StringBuilderLib.StringBuilder.Trim | stringbuilder.c:378-411 | the content becomes its trimmed text; the size, the storage and `error` are unchanged |
| StringBuilderLib.StringBuilder.SkipLeading | stringbuilder.c:385-387 | the scan stops at the end of the leading whitespace |
| StringBuilderLib.StringBuilder.SkipTrailing | stringbuilder.c:397-401 | the scan stops at the last non-whitespace byte |
| StringBuilderLib.StringBuilder.MoveDown | stringbuilder.c:403-409 | the kept slice becomes the content and is terminated |
| StringBuilderLib.Replicate | stringbuilder.c:364-368 | the copy loop leaves `times` copies of the first `len` bytes at the start of the array |
| StringBuilderLib.CopyBlock | stringbuilder.c:366 | one `memmove` copies the first `len` bytes to `dst`, leaving the bytes before `dst` as they were |
| StringBuilderLib.Scan | stringbuilder.c:194-208 | the loop returns what the candidate-by-candidate scan from the first `memchr` hit returns |
| StringBuilderLib.ScanAtSound | stringbuilder.c:197-208 | every match the scan reports is an occurrence of the needle starting inside the content |
| StringBuilderLib.ContainsAsWrittenSound | stringbuilder.c:180-212 | the edge cases of `contains` and the soundness of its multi-byte scan |
| StringBuilderLib.SkipMissesOccurrence | stringbuilder.c:207 | "ab" is not found in "aabx", where it occurs at index 1 |
| StringBuilderLib.StrictBoundMissesOccurrence | stringbuilder.c:208 | "ab" is not found in "acab", where it occurs at index 2 |
| StringBuilderLib.TerminatorCompletesMatch | stringbuilder.c:203 | "a\0" is reported in "xa", which does not contain it |
| StringBuilderLib.TailMatches | stringbuilder.c:203 | a tail match lies inside the memory, and together with a matching first byte is an occurrence of the needle |
| StringBuilderLib.ScanAt | stringbuilder.c:197-208 | a reported match has a tail match at a candidate from the current one on, before the content's end |
| StringBuilderLib.ContainsAsWritten | stringbuilder.c:180-212 | for a needle of two or more bytes, a reported match has a tail match starting inside the content |
| MutStrLib.CapacityAfter | mutstr.c:109-122 | the capacity reached holds the requested bytes, never shrinks, and is the old size when no growth is needed |
| MutStrLib.CString | mutstr.c:162-166 | the bytes before the first NUL of a literal, with no NUL among them |
| MutStrLib.MutStr.constructor | mutstr.c:22-27 | the cleared struct: no storage, length and size 0 |
| MutStrLib.MutStr.Allocate | mutstr.c:40-55 | Ok exactly for a positive size and a successful allocation, with an empty terminated buffer of that size; otherwise the struct is cleared |
| MutStrLib.MutStr.Init | mutstr.c:57-60 | allocate with 16 bytes: Ok exactly when the allocation succeeds, otherwise the struct is cleared |
| MutStrLib.MutStr.Finalize | mutstr.c:62-68 | storage released and the struct cleared; a struct without storage is left alone |
| MutStrLib.MutStr.SetSize | mutstr.c:70-88 | NoMemory for a size of 0 or less or a failed allocation, changing nothing; on success the size is exact and a content that no longer fits is cut to size - 1 bytes |
| MutStrLib.MutStr.EnsureCapacity | mutstr.c:109-122 | the content is kept; growth to twice the size or the requested capacity when needed; NoMemory exactly when a needed growth fails |
| MutStrLib.MutStr.SetLength | mutstr.c:90-107 | a negative length gives OutOfRange; otherwise the content is cut or NUL-padded to the length, or NoMemory with nothing changed |
| MutStrLib.MutStr.Copy | mutstr.c:124-134 | `dest` gets fresh storage of len + 1 bytes holding the same bytes, or is cleared on failure; copying onto itself leaves it empty |
| MutStrLib.MutStr.Compare | mutstr.c:149-156 | zero exactly for equal contents, negative exactly when this content sorts first, positive exactly when it sorts last |
| MutStrLib.MutStr.CompareString | mutstr.c:168-171 | against a byte string: zero exactly for equality, negative exactly when the content sorts first, positive exactly when it sorts last |
| MutStrLib.MutStr.CompareLiteral | mutstr.c:173-176 | the same three cases against the bytes of a NUL-terminated string |
| MutStrLib.MutStr.Equals | mutstr.c:178-181 | true exactly for equal contents, and exactly when the comparison is zero |
| MutStrLib.MutStr.EqualsString | mutstr.c:183-186 | true exactly when the content equals the bytes |
| MutStrLib.MutStr.EqualsLiteral | mutstr.c:188-191 | true exactly when the content equals the bytes of the literal |
| MutStrLib.MutStr.IndexOfString | mutstr.c:219-223 | the index the search returns is -1 or an occurrence; 0 for an empty needle; the first occurrence for a one-byte needle |
| MutStrLib.MutStr.IndexOfLiteral | mutstr.c:225-228 | the same for the bytes of a literal |
| MutStrLib.MutStr.ContainsString | mutstr.c:235-239 | a reported needle occurs in the content; for needles of at most one byte, exactly when it occurs |
| MutStrLib.MutStr.Contains | mutstr.c:230-233 | a reported MutStr content occurs in this content |
| MutStrLib.MutStr.ContainsLiteral | mutstr.c:241-244 | a reported literal occurs in the content |
| MutStrLib.MutStr.StartsWithString | mutstr.c:251-254 | compares the first bytes of the allocation; for a prefix no longer than the content that is exactly the prefix test; a longer match needs a NUL where the content ends |
| MutStrLib.MutStr.StartsWith | mutstr.c:246-249 | the `memcmp` of the other content against the allocation; for a prefix MutStr no longer than the content, true exactly when its content is a prefix |
| MutStrLib.MutStr.StartsWithLiteral | mutstr.c:256-259 | true exactly when the literal's bytes are a prefix of the content |
| MutStrLib.MutStr.EndsWithString | mutstr.c:266-269 | true exactly when the content ends with the suffix |
| MutStrLib.MutStr.EndsWith | mutstr.c:261-264 | true exactly when the content ends with the other content |
| MutStrLib.MutStr.EndsWithLiteral | mutstr.c:271-274 | true exactly when the content ends with the literal's bytes |
| MutStrLib.MutStr.AppendChar | mutstr.c:281-291 | Ok with the byte appended, or NoMemory exactly when a needed growth fails, changing nothing |
| MutStrLib.MutStr.AppendString | mutstr.c:293-305 | Ok with the bytes appended, or NoMemory exactly when a needed growth fails, changing nothing |
| MutStrLib.MutStr.Put | mutstr.c:299-301 | the bytes are copied behind the content, which is terminated |
| MutStrLib.MutStr.Append | mutstr.c:276-279 | Ok with the other MutStr's content appended and the capacity grown as needed, or NoMemory with nothing changed |
| MutStrLib.MutStr.AppendLiteral | mutstr.c:307-310 | Ok with the literal's bytes appended and the capacity grown as needed, or NoMemory with nothing changed |
| MutStrLib.MutStr.AppendInt | mutstr.c:352-361 | Ok with the signed decimal text of the value appended and the capacity grown as needed, or NoMemory with nothing changed |
| MutStrLib.MutStr.AppendUint | mutstr.c:363-372 | Ok with the unsigned decimal text of the value appended and the capacity grown as needed, or NoMemory with nothing changed |
| MutStrLib.MutStr.CaseConvert | mutstr.c:379-387 | every content byte converted; the length and the terminator untouched |
| MutStrLib.MutStr.ToUppercase | mutstr.c:389-392 | the content is upper-cased in place |
| MutStrLib.MutStr.ToLowercase | mutstr.c:394-397 | the content is lower-cased in place |
| MutStrLib.MutStr.Trim | mutstr.c:399-433 | always Ok; the content becomes the as-written trim for the options |
| MutStrLib.MutStr.SkipLeading | mutstr.c:404-408 | the left scan stops at the end of the leading whitespace |
| MutStrLib.MutStr.SkipTrailing | mutstr.c:416-421 | the right scan stops before the trailing whitespace after the first kept byte |
| MutStrLib.MutStr.MoveDown | mutstr.c:423-429 | the kept slice becomes the content |
| MutStrLib.MutStr.Substr | mutstr.c:435-454 | OutOfRange for a negative length or an index outside the content, with `result` untouched; NoMemory with `result` cleared; otherwise `result` holds the min(length, len - index) bytes of the slice at `index`, in storage one byte larger |
| MutStrLib.MutStr.Repeat | mutstr.c:456-485 | the content becomes `multiply` copies of itself (empty for 0 or an empty content) with the capacity grown as needed, or NoMemory with nothing changed |
| MutStrLib.MutStr.Fill | mutstr.c:468-469 | a one-byte content spread over `length` bytes is that byte repeated |
| MutStrLib.MutStr.Replicate | mutstr.c:470-478 | the `memmove` loop leaves `multiply` copies of the content |
| MutStrLib.MutStr.CopyBlock | mutstr.c:475 | one `memmove` copies the content to `dst`, leaving the bytes before `dst` as they were |
| MutStrLib.UintToStr | mutstr.c:331-339 | the digits written backwards before the terminator are the decimal text of `n`, at most 20 bytes, and nothing before them changes |
| MutStrLib.IntToStr | mutstr.c:341-350 | the bytes written are the signed decimal text of `n`, INT64_MIN included |
| MutStrLib.HasPrefix | mutstr.c:251-254 | the intended prefix test: the text is the prefix followed by something |
| MutStrLib.PrefixOfMemory | mutstr.c:253 | the `memcmp` test is true exactly when the memory starts with the prefix |
| MutStrLib.StartsWithPastContent | mutstr.c:253 | the prefix "ab\0" matches the memory of the content "ab" although it is not a prefix of it |
| MutStrLib.SkipSearch | mutstr.c:206-212 | every index the loop returns from a candidate on is an occurrence at or after that candidate |
| MutStrLib.MemNStrSound | mutstr.c:193-217 | the search result is -1 or an occurrence; 0 for an empty needle; -1 for a needle longer than the haystack; the first occurrence for a one-byte needle |
| MutStrLib.MemNStr | mutstr.c:193-217 | the loop returns the search result, with the same guarantees |
| MutStrLib.MemNStrSpec | mutstr.c:193-217 | the search result is -1 or an index where the needle fits inside the haystack |
| MutStrLib.WideCandidate | mutstr.c:211 | the over-long `memchr` window finds the candidate the clamped window finds, or one where the needle no longer fits, whatever bytes follow the content |
| MutStrLib.SkipMissesOccurrence | mutstr.c:211 | "ab" is not found in "aab", where it occurs at index 1 |
| MutStrLib.IntendedTrim | mutstr.c:399-433 | with both options it is the trim; with `right` the result does not end with whitespace |
| MutStrLib.TrimAsWrittenBetween | mutstr.c:423-429 | where the two scans stop, the as-written trim is the slice between them |
| MutStrLib.KeepFirstTrimRest | mutstr.c:416-421 | the right scan keeps the first remaining byte and cuts the trailing whitespace after it |
| MutStrLib.TrimAsWrittenAgrees | mutstr.c:404-421 | the as-written trim is the intended one whenever `left` is set or the content does not start with whitespace |
| MutStrLib.TrimAsWrittenOptions | mutstr.c:399-433 | no option leaves the content unchanged; both options give the trim, empty exactly for all-whitespace content, and idempotent |
| MutStrLib.RightTrimKeepsOneByte | mutstr.c:418 | with `right` only, every non-empty all-whitespace content keeps its first byte instead of becoming empty |
| MutStrLib.TrimAsWritten | mutstr.c:399-433 | the as-written trim never lengthens the content, and without `left` it is empty exactly for an empty content |

## Left out

- `append_format` and `append_float` (stringbuilder.c:257-271 and 298-308, mutstr.c:312-329 and 374-377) depend on `vsnprintf` and floating-point formatting. They are not modelled.
- The pluggable allocator (stringbuilder.c:34-51) is process-wide configuration. Its setters are not modelled; only the success or failure of each allocation is.
- `stringbuilder_get_error_msg`, `mutstr_get_state_msg` and the plain getters (`get_str`, `get_last_error`, `get_length`, `get_size`) hold no logic of their own and are not modelled.
- strbuilder.c and strbuilder.h are not part of this model. They only allocate and free an opaque struct.
- MutStrLib.CString: `mutstr_strnlen` stops at INT32_MAX bytes when no NUL is found. The model requires a NUL in every literal and does not model that cap.
- Integer widths. Lengths are `int32_t` in the source. Every operation whose new length would reach INT32_MAX has a `requires` excluding it, because the C arithmetic would overflow. The doubling of a size above 2^30 in the growth rule is not modelled either.
- Memory past the allocation is undefined in C. Wherever the source may read beyond it, the model counts those bytes as a mismatch.
- StringBuilderLib.StringBuilder.SetSize requires a non-zero size. A negative size is modelled as a failed reallocation. For 0, `realloc` is implementation-defined and the cut at stringbuilder.c:152-155 would write before the buffer.
- StringBuilderLib.StringBuilder.SetLength requires a non-negative length, because there is no guard at stringbuilder.c:128.
- StringBuilderLib.StringBuilder.Concat and MutStrLib.MutStr.Append do not cover appending a buffer to itself when that grows the storage. The source would then read the freed block.
- StringBuilderLib.StringBuilder.Contains states that a reported match is sound, not that the search is complete. As the Findings show, it is not complete.
- StringBuilderLib.Scan: the `memchr` that opens each round of the do-while loop is evaluated at the end of the previous round. The candidates examined and the answer are the same.
- MutStrLib.MutStr.ContainsString and MutStrLib.MutStr.IndexOfString state soundness and the edge cases, not completeness, for the same reason.
- MutStrLib.MemNStr searches each next candidate in a window clamped at the end of the content. MutStrLib.WideCandidate proves that the over-long window at mutstr.c:211 picks the same candidate at each step, or one that ends the loop.
- MutStrLib.MutStr.StartsWithString requires the prefix to fit in the allocation, because reading further is undefined.
- MutStrLib.MutStr.EndsWithString requires the suffix to be no longer than the content. A longer suffix would make `mutstr_ends_with_string` read before the buffer.
- MutStrLib.MutStr.Repeat requires a non-negative count on a non-empty content. `mutstr_repeat` does not guard against a negative count, which would pass a negative length to `memset`/`memmove`.
- A cleared MutStr, whose `val` is NULL, is usable in C: `realloc(NULL, n)` allocates, `mutstr_substr` returns OUT_OF_RANGE for it, and the searches return -1 or false. The model does not cover that state. Every MutStr operation except the constructor, `Allocate`, `Init` and `Finalize` requires allocated storage.
- A finalized StringBuilder is usable in C in the same way, since growth reallocates its NULL storage. StringBuilderLib.StringBuilder.Valid requires storage, so the model does not cover reuse after `Finalize`, except through `InitSize` and `Init`.
- Memory.MemCmp returns the difference of the first differing bytes. ISO C fixes only its sign, so every contract about the C functions speaks only of the sign or of zero. Only Memory.CompareAntisymmetric also states the exact negation, which holds for this choice of `memcmp` and not for every C library.
- StringBuilder content terminator: `stringbuilder_init_size` does not write a NUL. Terminated() is therefore separate from Valid(), and is ensured only by the operations that write the terminator.

## Findings

| source | as written | input that shows it | evidently intended | confidence | as-written member | corrected member |
|---|---|---|---|---|---|---|
| stringbuilder.c:207 | after a mismatch the scan moves `needle_len` bytes on | content "aabx", needle "ab": not found, although it occurs at 1 | move one byte on and report every occurrence | not executed | StringBuilderLib.SkipMissesOccurrence | Memory.FirstIndexOf |
| stringbuilder.c:208 | the loop continues only while `curr + needle_len < end` | content "acab", needle "ab": not found, although it occurs at 2 | `<=`, so that a candidate ending at the content's end is tested | not executed | StringBuilderLib.StrictBoundMissesOccurrence | Memory.FirstIndexOf |
| stringbuilder.c:203 | the candidate's tail is compared before checking that it fits in the content | content "xa" followed by its terminator, needle "a\0": reported found | test only candidates that fit inside the content | not executed | StringBuilderLib.TerminatorCompletesMatch | Memory.FirstIndexOf |
| mutstr.c:211 | after a mismatch the next candidate is searched `needle_len` bytes on | content "aab", needle "ab": index -1, although it occurs at 1 | search again from the next byte | not executed | MutStrLib.SkipMissesOccurrence | Memory.FirstIndexOf |
| mutstr.c:418 | the right scan stops at `e > s`, so it never removes the first remaining byte | content "   " with only the right option: trims to " " | an all-whitespace content trims to empty | not executed | MutStrLib.RightTrimKeepsOneByte | MutStrLib.IntendedTrim |
| mutstr.c:253 | `memcmp` over `prefix_len` bytes with no check against the length | content "ab", prefix "ab\0": reported as a prefix | false when the prefix is longer than the content | not executed | MutStrLib.StartsWithPastContent | MutStrLib.HasPrefix |
