# Big5 ⇄ UTF-8 conversion in libbbs, modelled in Dafny

This project models the conversion engine in `src/uao.c` of libbbs. The engine turns a
NUL-terminated Big5 string into UTF-8, or the reverse, using the Unicode-at-on (UAO)
mapping tables. It has four parts:

- **Decoders.** Each direction has a decoder (`big5_to_utf8_copy_input`,
  `utf8_to_big5_copy_input`). It reads the next character and returns a lookup key plus the
  number of input bytes consumed. Malformed input gives the key `"?"` (`UNKNOWN_CHAR`).
- **Table search.** `bsearch` with `strcmp` looks the key up in that direction's sorted table.
- **Bounded writer.** `update_output` copies a chunk into the caller's buffer only when the
  chunk is strictly shorter than the room left there.
- **Main loop.** `convert` runs one character per iteration and writes a final terminator.
  It always returns the untruncated length. The two entry points `bbs_big5_to_utf8` and
  `bbs_utf8_to_big5` refuse a NULL input.

Files:

- `cstrings.dfy` (module `CStrings`): bytes, NUL-free string contents, and `strcmp` reduced
  to its sign.
- `utf8.dfy` (module `Utf8`): UTF-8 lead-byte and continuation-byte classification after
  section 3 of RFC 3629.
- `uao.dfy` (module `Uao`): the engine. The direction configuration is a two-case datatype.
  The decoders are functions, or a method where the source loops. The binary search is a
  method proved equal to a linear lookup. `update_output`, `convert` and the entry points are
  methods over a byte `array?`, where `null` is the NULL output pointer.
- `uao_properties.dfy` (module `UaoProperties`): properties that span several operations,
  and worked inputs.

What each iteration emits is specified by `Uao.Emit`. `Uao.Steps` lists the steps over a
whole input, and `Uao.Converted` is the untruncated output. The buffer after a conversion is
described by `Uao.Filled`, which is built on `Uao.Fit`: a chunk is kept exactly when it is
strictly shorter than the capacity still left, and a chunk that does not fit is skipped
without using any capacity. Truncated output is therefore a greedy selection of chunks, not
a prefix of the full conversion.

## Model

| member | source | states |
|---|---|---|
| CStrings.StrCmpZero | src/uao.c:37-42 | the `strcmp` used by both comparison functions reports equality exactly for equal strings |
| CStrings.StrCmpAntisymmetric | src/uao.c:79-84 | swapping the arguments of `strcmp` flips its sign |
| CStrings.StrCmpTransitive | src/uao.c:37-42 | the order `strcmp` induces, which the tables are sorted by, is transitive |
| UaoProperties.Big5ToUtf8Compare | src/uao.c:37-42 | the Big5 → UTF-8 comparison looks at an entry's Big5 field and reports 0 exactly when the key equals it |
| UaoProperties.Big5ToUtf8GetOutput | src/uao.c:66-69 | the Big5 → UTF-8 direction emits an entry's UTF-8 field |
| UaoProperties.Utf8ToBig5Compare | src/uao.c:79-84 | the UTF-8 → Big5 comparison looks at an entry's UTF-8 field and reports 0 exactly when the key equals it |
| UaoProperties.Utf8ToBig5GetOutput | src/uao.c:115-118 | the UTF-8 → Big5 direction emits an entry's Big5 field |
| Uao.Big5ToUtf8CopyInput | src/uao.c:44-64 | the Big5 decoder consumes 1 or 2 bytes and never the terminator |
| UaoProperties.Big5DecodeCases | src/uao.c:48-63 | a byte below 0x80 is a 1-byte key; a high byte before a non-terminator takes both bytes; a high byte before the terminator gives "?" and consumes 1 byte |
| Uao.Utf8Decode | src/uao.c:86-113 | the UTF-8 decoder consumes between 1 and 4 bytes and never the terminator |
| Uao.Utf8Scan | src/uao.c:103-108 | the scan stops at the first byte after the lead that is the terminator or not a continuation byte, and every byte before that point is a continuation byte |
| Uao.Utf8ToBig5CopyInput | src/uao.c:86-113 | the decoder with its early-exit loop computes exactly `Utf8Decode` |
| UaoProperties.Utf8DecodeCases | src/uao.c:90-112 | an invalid lead gives "?" for 1 byte; a complete sequence is the key and is consumed whole; a break at offset `j` gives "?" and consumes exactly `j` bytes, not the offending one |
| Uao.Decode | src/uao.c:152 | the direction's decoder consumes between 1 and 4 bytes and never the terminator |
| UaoProperties.DecodeKey | src/uao.c:44-113 | in either direction the key is either exactly the consumed bytes or "?" |
| Uao.LookupMiss | src/uao.c:160 | the search misses exactly when no entry's key field equals the key |
| Uao.LookupUnique | src/uao.c:160 | in a strictly sorted table, looking up an entry's key finds that entry |
| Uao.BSearch | src/uao.c:160 | binary search with the direction's comparison over the sorted table returns the entry whose key equals the query, or none |
| Uao.Emit | src/uao.c:152-166 | one iteration consumes between 1 and 4 bytes, never beyond the terminator |
| UaoProperties.EmitHit | src/uao.c:159-163 | a multi-byte key found in the table emits the paired field of its entry |
| UaoProperties.EmitMiss | src/uao.c:164-166 | a multi-byte key no entry holds emits "?" |
| UaoProperties.BrokenSequenceSearchesMarker | src/uao.c:104-106 | a UTF-8 sequence broken at offset 2 or 3 sends the key "?" through the table search rather than emitting it directly |
| Uao.Steps | src/uao.c:151-176 | the loop runs at most `strlen(input)` times and at least a quarter as often |
| Uao.NextChunk | src/uao.c:152-166 | decoding then resolving the key with `BSearch` takes exactly the next step of `Steps` |
| Uao.Fit | src/uao.c:131-135 | the kept bytes are empty when capacity is 0 and strictly shorter than a positive capacity |
| Uao.FitAll | src/uao.c:131-134 | when the whole conversion is shorter than the capacity, every chunk is kept |
| Uao.FilledComplete | src/uao.c:178-180 | if the untruncated length is below the capacity, the buffer holds the whole conversion followed by a terminator |
| UaoProperties.FilledBounds | src/uao.c:131-135 | after a conversion, no byte at or beyond the capacity has changed and a terminator lies below the capacity |
| UaoProperties.UpdateWithinWindow | src/uao.c:128-137 | `update_output` changes no byte outside the room it is given; it copies a chunk shorter than the room, or else writes a terminator at the cursor |
| Uao.UpdateOutput | src/uao.c:128-137 | returns the chunk's full length whatever the room; the buffer becomes `Update` of the old buffer |
| Uao.OfferHolds | src/uao.c:169-172 | the cursor advances by a chunk's length exactly when the chunk was copied, and stays put otherwise |
| Uao.OfferAllShape | src/uao.c:148-176 | after all chunks, the total is the untruncated length and the buffer holds the greedy fit, with the cursor just past it |
| UaoProperties.RoomNeverExhausted | src/uao.c:169-172 | with a starting capacity of at least 1, the room left never drops below 1 |
| Uao.Convert | src/uao.c:139-183 | returns the untruncated length whatever the buffer; a non-NULL buffer ends up `Filled` with the greedy fit and a terminator |
| Uao.BbsBig5ToUtf8 | src/uao.c:185-192 | NULL input gives `BBS_ERROR` and leaves the buffer unchanged; otherwise the result of a Big5 → UTF-8 conversion |
| Uao.BbsUtf8ToBig5 | src/uao.c:194-201 | NULL input gives `BBS_ERROR` and leaves the buffer unchanged; otherwise the result of a UTF-8 → Big5 conversion |
| UaoProperties.AsciiIdentity | src/uao.c:155-157 | input made only of bytes below 0x80 converts to itself, so the length returned is `strlen(input)` |
| UaoProperties.Big5EntryConverts | src/uao.c:71-77 | the 2-byte Big5 field of a table entry converts to that entry's UTF-8 field |
| UaoProperties.Utf8EntryConverts | src/uao.c:120-126 | a complete multi-byte UTF-8 field of a table entry converts to that entry's Big5 field |
| UaoProperties.Big5TrailingLeadByte | src/uao.c:53-57 | "AB" followed by the lone lead byte 0xA1 converts to "AB?" |
| UaoProperties.TruncationSkipsWideCharacter | src/uao.c:131-135 | with capacity 3, the input A4 40 "A" leaves just "A" in the buffer: the 3-byte character is skipped and the later chunk is still written |
| UaoProperties.Utf8BrokenMidSequence | src/uao.c:98-106 | an invalid lead emits "?" directly, while E4 B8 broken by "A" looks "?" up in the table |

## Left out

- The table data in `uao_table.h` is not part of this model. Each table is a parameter: a
  sequence of (Big5, UTF-8) pairs. Callers must supply it strictly ascending under `strcmp`
  by the direction's key (`Uao.Sorted`); the source relies on this for `bsearch`.
- `util.h` is not part of this model. `get_utf8_length_by_first_byte` and
  `is_utf8_continuation_byte` are modelled after section 3 of RFC 3629 (`Utf8.SequenceLength`,
  `Utf8.IsContinuation`). This is an assumption about code that is not shown. The assumed
  classification looks at bit patterns only. It does not reject the octets that RFC 3629 says
  never appear: C0 and C1 count as 2-byte leads, and F5–F7 as 4-byte leads.
- libc internals are not modelled:
  - `strcmp` is lexicographic unsigned-byte order, reduced to its sign (-1, 0, 1);
  - `bsearch` is the verified `Uao.BSearch`, which returns any entry whose key equals the
    query; in a strictly sorted table there is at most one;
  - `memcpy` and `strcpy` are the element writes they amount to.
- Pointer arithmetic and aliasing are replaced by an array plus a write offset, and the input
  cursor by the suffix still to read. The model does not capture an output buffer that
  overlaps the input.
- The value of `BBS_ERROR` (`bbs-private.h`) is not shown; the model returns
  `Status.BbsError`. A NULL input is `Option.None`.
- `int`/`size_t` widths are not modelled: `final_len` cannot overflow, and lengths are
  unbounded naturals. Sign-extension of `char` plays no part, because bytes are 0..255.
- The `assert(config)` and `assert(input)` checks are not modelled. The decoders are called
  only on non-empty input, because the loop stops at the terminator (src/uao.c:151), so their
  models require a non-empty string.
- The three `update_output` calls in `convert` are modelled as one call on the chunk that
  `Uao.NextChunk` selects. The writes are the same.
- No round trip between the two directions is claimed. It would depend on the table data
  being a bijection, which the code does not enforce.
- A chunk that does not fit does not stop later writes: the remaining capacity is kept
  (src/uao.c:131-135, 169-172), so a later, shorter chunk is still written. The model
  follows the code (see `UaoProperties.TruncationSkipsWideCharacter`).
