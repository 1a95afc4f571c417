/**
 * The Big5 <-> UTF-8 conversion engine: two direction-specific decoders, a binary search
 * over a sorted mapping table, a bounded output writer and the loop that drives them.
 *
 * Strings are their contents (`CStr`); the terminator is implicit. The output buffer is an
 * array with a write index; a NULL output pointer is a `null` array.
 */
module Uao {
  import opened CStrings
  import opened Utf8

  datatype Option<T> = None | Some(value: T)

  /** The marker emitted for malformed input and for characters missing from the table: "?". */
  const UNKNOWN_CHAR: CStr := [0x3F]

  /** One row of a mapping table: the Big5 bytes and the UTF-8 bytes of one character. */
  datatype Entry = Entry(big5: CStr, utf8: CStr)

  /**
   * The per-direction configuration: which table is searched, what is compared, how input
   * is decoded and which field is emitted. Each case carries its own table.
   */
  datatype Config = Big5ToUtf8(table: seq<Entry>) | Utf8ToBig5(table: seq<Entry>)

  /** The field of an entry that the direction's comparison function looks at. */
  function KeyOf(config: Config, e: Entry): (k: CStr) {
    match config
    case Big5ToUtf8(_) => e.big5
    case Utf8ToBig5(_) => e.utf8
  }

  /** The field of an entry that the direction emits (`*_get_output`). */
  function GetOutput(config: Config, e: Entry): (out: CStr) {
    match config
    case Big5ToUtf8(_) => e.utf8
    case Utf8ToBig5(_) => e.big5
  }

  /** The direction's comparison function (`*_compare`): `strcmp` of the key against the entry's key field. */
  function Compare(config: Config, key: CStr, e: Entry): (c: int) {
    StrCmp(key, KeyOf(config, e))
  }

  /** The table is strictly ascending by the direction's key under `strcmp`. */
  predicate Sorted(config: Config) {
    forall i, j :: 0 <= i < j < |config.table| ==>
      StrCmp(KeyOf(config, config.table[i]), KeyOf(config, config.table[j])) < 0
  }

  // ---------------------------------------------------------------------------------------
  // Decoders

  /** A lookup key (what the decoder leaves in `input_buf`) and the number of input bytes consumed. */
  datatype Decoded = Decoded(key: CStr, consumed: nat)

  /**
   * `big5_to_utf8_copy_input`: a byte with its high bit clear is a 1-byte character; a high
   * byte with a non-terminator after it starts a 2-byte character; a high byte right before
   * the terminator is broken Big5 and gives the marker.
   * Called only on a non-empty string (the loop stops at the terminator).
   */
  function Big5ToUtf8CopyInput(s: CStr): (d: Decoded)
    requires |s| > 0
    ensures 1 <= d.consumed <= |s| && d.consumed <= 2
  {
    if s[0] >= 0x80 then
      if At(s, 1) != 0 then Decoded(s[..2], 2) else Decoded(UNKNOWN_CHAR, 1)
    else
      Decoded(s[..1], 1)
  }

  /**
   * The first offset in `[i, len)` whose byte is the terminator or not a continuation byte,
   * or `len` when there is none: where the scan in `utf8_to_big5_copy_input` stops.
   */
  function Utf8Scan(s: CStr, i: nat, len: nat): (j: nat)
    requires 1 <= i <= len
    decreases len - i
    ensures i <= j <= len
    ensures forall k :: i <= k < j ==> IsContinuation(At(s, k))
    ensures j < len ==> !IsContinuation(At(s, j))
  {
    if i == len then len
    else if At(s, i) == 0 || !IsContinuation(At(s, i)) then i
    else Utf8Scan(s, i + 1, len)
  }

  /**
   * What `utf8_to_big5_copy_input` computes: a 1-byte sequence is passed through; an invalid
   * lead byte gives the marker and consumes 1 byte; a sequence broken at offset `j` gives the
   * marker and consumes the `j` bytes before the offending one; a complete sequence is the key.
   */
  function Utf8Decode(s: CStr): (d: Decoded)
    requires |s| > 0
    ensures 1 <= d.consumed <= |s| && d.consumed <= 4
  {
    var len := SequenceLength(s[0]);
    if len == 1 then Decoded(s[..1], 1)
    else if len == 0 then Decoded(UNKNOWN_CHAR, 1)
    else
      var j := Utf8Scan(s, 1, len);
      if j < len then Decoded(UNKNOWN_CHAR, j)
      else
        assert IsContinuation(At(s, len - 1));
        Decoded(s[..len], len)
  }

  /** `utf8_to_big5_copy_input`, with its early-exit scan over the continuation bytes. */
  method Utf8ToBig5CopyInput(s: CStr) returns (d: Decoded)
    requires |s| > 0
    ensures d == Utf8Decode(s)
  {
    var len := SequenceLength(s[0]);
    if len == 1 {
      return Decoded(s[..1], 1);
    }
    if len == 0 {
      return Decoded(UNKNOWN_CHAR, 1);
    }
    for i := 1 to len
      invariant Utf8Scan(s, i, len) == Utf8Scan(s, 1, len)
    {
      if At(s, i) == 0 || !IsContinuation(At(s, i)) {
        return Decoded(UNKNOWN_CHAR, i);
      }
    }
    assert IsContinuation(At(s, len - 1));
    return Decoded(s[..len], len);
  }

  /** The direction's decoder (`config->copy_input`). */
  function Decode(config: Config, s: CStr): (d: Decoded)
    requires |s| > 0
    ensures 1 <= d.consumed <= |s| && d.consumed <= 4
  {
    match config
    case Big5ToUtf8(_) => Big5ToUtf8CopyInput(s)
    case Utf8ToBig5(_) => Utf8Decode(s)
  }

  // ---------------------------------------------------------------------------------------
  // Table search

  /** The first index at or after `i` whose key field equals `key`. */
  function LookupFrom(config: Config, key: CStr, i: nat): (r: Option<nat>)
    requires i <= |config.table|
    decreases |config.table| - i
    ensures r.Some? ==> i <= r.value < |config.table| && KeyOf(config, config.table[r.value]) == key
  {
    if i == |config.table| then None
    else if KeyOf(config, config.table[i]) == key then Some(i)
    else LookupFrom(config, key, i + 1)
  }

  /** The entry of the direction's table whose key field equals `key`, if there is one. */
  function Lookup(config: Config, key: CStr): (r: Option<nat>)
    ensures r.Some? ==> r.value < |config.table| && KeyOf(config, config.table[r.value]) == key
  {
    LookupFrom(config, key, 0)
  }

  lemma {:induction false} LookupFromMiss(config: Config, key: CStr, i: nat)
    requires i <= |config.table|
    decreases |config.table| - i
    ensures LookupFrom(config, key, i).None? <==>
      forall j :: i <= j < |config.table| ==> KeyOf(config, config.table[j]) != key
  {
    if i < |config.table| {
      LookupFromMiss(config, key, i + 1);
    }
  }

  /** The search misses exactly when no entry has `key` as its key field. */
  lemma LookupMiss(config: Config, key: CStr)
    ensures Lookup(config, key).None? <==>
      forall j :: 0 <= j < |config.table| ==> KeyOf(config, config.table[j]) != key
  {
    LookupFromMiss(config, key, 0);
  }

  /** In a strictly sorted table every key occurs once, so looking up an entry's key finds that entry. */
  lemma LookupUnique(config: Config, i: nat)
    requires Sorted(config) && i < |config.table|
    ensures Lookup(config, KeyOf(config, config.table[i])) == Some(i)
  {
    var key := KeyOf(config, config.table[i]);
    LookupMiss(config, key);
    StrCmpZero(key, key);
  }

  /**
   * The `bsearch` call with the direction's comparison function: a binary search of the
   * sorted table, which finds exactly the entry whose key equals `key`.
   */
  method BSearch(config: Config, key: CStr) returns (r: Option<nat>)
    requires Sorted(config)
    ensures r == Lookup(config, key)
  {
    var t := config.table;
    var lo, hi := 0, |t|;
    while lo < hi
      invariant 0 <= lo <= hi <= |t|
      invariant forall j :: 0 <= j < lo ==> StrCmp(KeyOf(config, t[j]), key) < 0
      invariant forall j :: hi <= j < |t| ==> StrCmp(key, KeyOf(config, t[j])) < 0
    {
      var mid := lo + (hi - lo) / 2;
      var c := Compare(config, key, t[mid]);
      if c < 0 {
        forall j | mid < j < |t|
          ensures StrCmp(key, KeyOf(config, t[j])) < 0
        {
          StrCmpTransitive(key, KeyOf(config, t[mid]), KeyOf(config, t[j]));
        }
        hi := mid;
      } else if c > 0 {
        StrCmpAntisymmetric(key, KeyOf(config, t[mid]));
        forall j | 0 <= j < mid
          ensures StrCmp(KeyOf(config, t[j]), key) < 0
        {
          StrCmpTransitive(KeyOf(config, t[j]), KeyOf(config, t[mid]), key);
        }
        lo := mid + 1;
      } else {
        StrCmpZero(key, KeyOf(config, t[mid]));
        LookupUnique(config, mid);
        return Some(mid);
      }
    }
    StrCmpZero(key, key);
    LookupMiss(config, key);
    return None;
  }

  // ---------------------------------------------------------------------------------------
  // What the loop emits

  /** One iteration of the loop: the chunk it emits and the input bytes it consumes. */
  datatype Step = Step(chunk: CStr, consumed: nat)

  /**
   * The emission rule: a 1-byte decode emits its key; otherwise the key is searched in the
   * table, and a hit emits the paired field while a miss emits the marker.
   */
  function Emit(config: Config, s: CStr): (st: Step)
    requires |s| > 0
    ensures 1 <= st.consumed <= |s| && st.consumed <= 4
  {
    var d := Decode(config, s);
    if d.consumed == 1 then Step(d.key, 1)
    else
      match Lookup(config, d.key)
      case Some(i) => Step(GetOutput(config, config.table[i]), d.consumed)
      case None => Step(UNKNOWN_CHAR, d.consumed)
  }

  /** The steps the loop takes over the whole input, one per iteration. */
  function Steps(config: Config, s: CStr): (ts: seq<Step>)
    decreases |s|, 1
    ensures |ts| <= |s| <= 4 * |ts|
  {
    if s == [] then [] else StepsFrom(config, s)
  }

  /** The steps over a non-empty input: the emission rule's step, then the steps over the bytes it leaves. */
  function StepsFrom(config: Config, s: CStr): (ts: seq<Step>)
    requires |s| > 0
    decreases |s|, 0
    ensures |ts| <= |s| <= 4 * |ts|
  {
    var st := Emit(config, s);
    [st] + Steps(config, s[st.consumed..])
  }

  /** The steps over a non-empty input start with the emission rule's step. */
  lemma StepsCons(config: Config, s: CStr)
    requires |s| > 0
    ensures Emit(config, s).consumed <= |s|
    ensures Steps(config, s) == [Emit(config, s)] + Steps(config, s[Emit(config, s).consumed..])
  {
  }

  /** The bytes of all chunks, in order. */
  function Concat(ts: seq<Step>): (r: CStr) {
    if ts == [] then [] else ts[0].chunk + Concat(ts[1..])
  }

  /** The untruncated conversion of `s`. */
  function Converted(config: Config, s: CStr): (r: CStr) {
    Concat(Steps(config, s))
  }

  lemma {:induction false} ConcatSnoc(ts: seq<Step>, t: Step)
    ensures Concat(ts + [t]) == Concat(ts) + t.chunk
  {
    if ts != [] {
      assert (ts + [t])[1..] == ts[1..] + [t];
      ConcatSnoc(ts[1..], t);
    }
  }

  /**
   * What a buffer of capacity `cap` holds before its terminator once the chunks of `ts` have
   * been offered in order: a chunk is appended exactly when it is strictly shorter than the
   * capacity still left, and a chunk that does not fit is skipped without using any capacity.
   */
  function Fit(ts: seq<Step>, cap: nat): (r: CStr)
    ensures cap == 0 ==> r == []
    ensures cap > 0 ==> |r| < cap
    ensures |r| <= |Concat(ts)|
  {
    if ts == [] then []
    else
      var f := Fit(ts[..|ts| - 1], cap);
      var c := ts[|ts| - 1].chunk;
      ConcatSnoc(ts[..|ts| - 1], ts[|ts| - 1]);
      assert ts == ts[..|ts| - 1] + [ts[|ts| - 1]];
      if |c| < cap - |f| then f + c else f
  }

  lemma FitSnoc(ts: seq<Step>, t: Step, cap: nat)
    ensures Fit(ts + [t], cap) == if |t.chunk| < cap - |Fit(ts, cap)| then Fit(ts, cap) + t.chunk else Fit(ts, cap)
  {
    assert (ts + [t])[..|ts|] == ts;
  }

  /**
   * The output buffer after a conversion whose steps were `ts`, given the buffer before it:
   * with capacity 0 nothing changes; otherwise the greedy fit of the chunks, a terminator
   * right after it, and every later byte (all those at or beyond the capacity among them)
   * as it was.
   */
  ghost predicate Filled(before: seq<byte>, after: seq<byte>, cap: nat, ts: seq<Step>) {
    && |after| == |before|
    && cap <= |before|
    && (cap == 0 ==> after == before)
    && (cap > 0 ==>
          var f := Fit(ts, cap);
          && after[..|f|] == f
          && after[|f|] == 0
          && after[|f| + 1..] == before[|f| + 1..])
  }

  /** When the whole conversion fits, the greedy fit is the whole conversion. */
  lemma {:induction false} FitAll(ts: seq<Step>, cap: nat)
    requires |Concat(ts)| < cap
    ensures Fit(ts, cap) == Concat(ts)
  {
    if ts != [] {
      var init, t := ts[..|ts| - 1], ts[|ts| - 1];
      assert ts == init + [t];
      ConcatSnoc(init, t);
      FitAll(init, cap);
      FitSnoc(init, t, cap);
    }
  }

  /** A filled buffer whose capacity exceeds the whole conversion holds all of it, terminated. */
  lemma FilledComplete(before: seq<byte>, after: seq<byte>, cap: nat, ts: seq<Step>)
    requires Filled(before, after, cap, ts) && |Concat(ts)| < cap
    ensures after[..|Concat(ts)|] == Concat(ts) && after[|Concat(ts)|] == 0
  {
    FitAll(ts, cap);
  }

  // ---------------------------------------------------------------------------------------
  // The bounded writer and the loop

  /**
   * The effect of `update_output` on buffer `w` when `rem` bytes are left from offset `pos`:
   * the chunk is copied when it is strictly shorter than `rem`, else a terminator is written
   * at `pos` when `rem` is positive, else nothing changes.
   */
  function Update(w: seq<byte>, pos: nat, rem: nat, c: CStr): (w': seq<byte>)
    requires pos + rem <= |w|
    ensures |w'| == |w|
  {
    if |c| < rem then w[..pos] + c + w[pos + |c|..]
    else if rem > 0 then w[pos := 0]
    else w
  }

  /**
   * The state of the writing half of `convert`: the buffer, the offset the output pointer has
   * advanced to, the capacity left there, and the untruncated length so far.
   */
  datatype Writer = Writer(buf: seq<byte>, pos: nat, rem: nat, total: nat)

  /** The writer before the first chunk: nothing written, the whole capacity left. */
  function Start(B: seq<byte>, cap: nat): (w: Writer) {
    Writer(B, 0, cap, 0)
  }

  /**
   * One chunk through the writing half of the loop: `update_output`, then the pointer and the
   * capacity advance past the chunk only when it was copied; the total grows either way.
   */
  function Offer(w: Writer, chunk: CStr): (w': Writer)
    requires w.pos + w.rem <= |w.buf|
    ensures w'.pos + w'.rem <= |w'.buf| == |w.buf|
  {
    var buf := Update(w.buf, w.pos, w.rem, chunk);
    if |chunk| < w.rem then Writer(buf, w.pos + |chunk|, w.rem - |chunk|, w.total + |chunk|)
    else Writer(buf, w.pos, w.rem, w.total + |chunk|)
  }

  /** The chunks of `ts` offered in order. */
  function OfferAll(w: Writer, ts: seq<Step>): (w': Writer)
    requires w.pos + w.rem <= |w.buf|
    ensures w'.pos + w'.rem <= |w'.buf| == |w.buf|
    decreases |ts|
  {
    if ts == [] then w else OfferAll(Offer(w, ts[0].chunk), ts[1..])
  }

  lemma OfferAllCons(w: Writer, t: Step, ts: seq<Step>)
    requires w.pos + w.rem <= |w.buf|
    ensures OfferAll(w, [t] + ts) == OfferAll(Offer(w, t.chunk), ts)
  {
    assert ([t] + ts)[1..] == ts;
  }

  lemma {:induction false} OfferAllSnoc(w: Writer, ts: seq<Step>, t: Step)
    requires w.pos + w.rem <= |w.buf|
    decreases |ts|
    ensures OfferAll(w, ts + [t]) == Offer(OfferAll(w, ts), t.chunk)
  {
    if ts != [] {
      assert (ts + [t])[1..] == ts[1..] + [t];
      OfferAllSnoc(Offer(w, ts[0].chunk), ts[1..], t);
    }
  }

  /**
   * Writer `w` over a buffer that held `B`, with capacity `cap` at the start, has written the
   * bytes `f`: its offset is past them and the capacity left is reduced by them; the buffer
   * starts with `f` and every byte after the offset's own is as in `B`.
   */
  ghost predicate Holds(B: seq<byte>, cap: nat, w: Writer, f: CStr) {
    && |w.buf| == |B| && cap <= |B|
    && w.pos == |f| && w.rem + |f| == cap
    && (cap == 0 ==> w.buf == B)
    && (cap > 0 ==> |f| < cap && w.buf[..|f|] == f && w.buf[|f| + 1..] == B[|f| + 1..])
  }

  /** Offering one chunk appends it to the written bytes exactly when it fits. */
  lemma OfferHolds(B: seq<byte>, cap: nat, w: Writer, f: CStr, c: CStr)
    requires Holds(B, cap, w, f)
    ensures Holds(B, cap, Offer(w, c), if |c| < cap - |f| then f + c else f)
  {
    var w' := Offer(w, c);
    if cap > 0 {
      if |c| < cap - |f| {
        assert w'.buf == w.buf[..|f|] + c + w.buf[|f| + |c|..];
        assert w'.buf[..|f| + |c|] == f + c;
        assert w'.buf[|f| + |c| + 1..] == w.buf[|f| + |c| + 1..];
      } else {
        assert w'.buf == w.buf[|f| := 0];
        assert w'.buf[..|f|] == w.buf[..|f|];
        assert w'.buf[|f| + 1..] == w.buf[|f| + 1..];
      }
    }
  }

  /**
   * From the start, the writer's total is the untruncated length and it has written exactly
   * the greedy fit.
   */
  lemma {:induction false} OfferAllShape(B: seq<byte>, cap: nat, ts: seq<Step>)
    requires cap <= |B|
    ensures OfferAll(Start(B, cap), ts).total == |Concat(ts)|
    ensures Holds(B, cap, OfferAll(Start(B, cap), ts), Fit(ts, cap))
  {
    if ts != [] {
      var init, t := ts[..|ts| - 1], ts[|ts| - 1];
      assert ts == init + [t];
      OfferAllShape(B, cap, init);
      OfferAllSnoc(Start(B, cap), init, t);
      FitSnoc(init, t, cap);
      ConcatSnoc(init, t);
      OfferHolds(B, cap, OfferAll(Start(B, cap), init), Fit(init, cap), t.chunk);
    }
  }

  /**
   * Once every chunk has been offered and `convert` has written its final terminator (when
   * capacity is left), the buffer is `Filled`.
   */
  lemma Terminated(B: seq<byte>, cap: nat, ts: seq<Step>)
    requires cap <= |B|
    ensures
      var w := OfferAll(Start(B, cap), ts);
      Filled(B, if w.rem > 0 then w.buf[w.pos := 0] else w.buf, cap, ts)
  {
    OfferAllShape(B, cap, ts);
    var w, f := OfferAll(Start(B, cap), ts), Fit(ts, cap);
    if cap > 0 {
      var after := w.buf[|f| := 0];
      assert after[..|f|] == w.buf[..|f|];
      assert after[|f| + 1..] == w.buf[|f| + 1..];
    }
  }

  /**
   * `update_output`: with `outputLen` bytes left from offset `pos`, copy `chunk` there when it
   * is strictly shorter than that, else write a terminator at `pos` when any room is left.
   * The chunk's full length is returned either way.
   */
  method UpdateOutput(output: array?<byte>, pos: nat, outputLen: nat, chunk: CStr) returns (len: nat)
    requires output == null ==> outputLen == 0
    requires output != null ==> pos + outputLen <= output.Length
    modifies output
    ensures len == |chunk|
    ensures output != null ==> output[..] == Update(old(output[..]), pos, outputLen, chunk)
  {
    len := |chunk|;
    if outputLen > len {
      forall k | 0 <= k < len {
        output[pos + k] := chunk[k];
      }
      assert output[..] == old(output[..])[..pos] + chunk + old(output[..])[pos + len..];
    } else if outputLen > 0 {
      output[pos] := 0;
    }
  }

  /**
   * The first half of one iteration of `convert`: decode the next character with the
   * direction's decoder, then pick what to emit — the key itself after a 1-byte decode,
   * otherwise the paired field of the entry `bsearch` finds, or the marker on a miss.
   * The step taken is the first of the steps over `s`.
   */
  method NextChunk(config: Config, s: CStr) returns (chunk: CStr, consumed: nat)
    requires Sorted(config) && |s| > 0
    ensures 1 <= consumed <= |s|
    ensures Steps(config, s) == [Step(chunk, consumed)] + Steps(config, s[consumed..])
  {
    var d;
    match config {
      case Big5ToUtf8(_) => d := Big5ToUtf8CopyInput(s);
      case Utf8ToBig5(_) => d := Utf8ToBig5CopyInput(s);
    }
    consumed := d.consumed;
    if d.consumed == 1 {
      chunk := d.key;
    } else {
      var res := BSearch(config, d.key);
      if res.Some? {
        chunk := GetOutput(config, config.table[res.value]);
      } else {
        chunk := UNKNOWN_CHAR;
      }
    }
    assert Step(chunk, consumed) == Emit(config, s);
    StepsCons(config, s);
  }

  /**
   * `convert`: decode, resolve and write one character per iteration until the terminator,
   * then terminate the output when room is left. The result is the untruncated length,
   * whatever the buffer; the buffer holds the greedy fit of the chunks and a terminator.
   */
  method Convert(config: Config, input: CStr, output: array?<byte>, outputLen: nat) returns (finalLen: nat)
    requires Sorted(config)
    requires output != null ==> outputLen <= output.Length
    modifies output
    ensures finalLen == |Converted(config, input)|
    ensures output != null ==> Filled(old(output[..]), output[..], outputLen, Steps(config, input))
  {
    var rem: nat := if output == null then 0 else outputLen;
    ghost var cap := rem;
    ghost var B := if output == null then [] else output[..];
    ghost var final := OfferAll(Start(B, cap), Steps(config, input));
    var rest, pos: nat := input, 0;
    finalLen := 0;
    while rest != []
      invariant output == null ==> cap == 0 && B == []
      invariant output != null ==> |B| == output.Length
      invariant pos + rem <= |B|
      invariant OfferAll(Writer(if output == null then [] else output[..], pos, rem, finalLen), Steps(config, rest)) == final
      decreases |rest|
    {
      var chunk, consumed := NextChunk(config, rest);
      ghost var w := Writer(if output == null then [] else output[..], pos, rem, finalLen);
      OfferAllCons(w, Step(chunk, consumed), Steps(config, rest[consumed..]));
      var len := UpdateOutput(output, pos, rem, chunk);
      if len < rem {
        pos := pos + len;
        rem := rem - len;
      }
      finalLen := finalLen + len;
      rest := rest[consumed..];
      assert Writer(if output == null then [] else output[..], pos, rem, finalLen) == Offer(w, chunk);
    }
    OfferAllShape(B, cap, Steps(config, input));
    Terminated(B, cap, Steps(config, input));
    if rem > 0 {
      output[pos] := 0;
    }
  }

  /** The status `bbs_*` returns: `BBS_ERROR`, or the untruncated output length. */
  datatype Status = BbsError | Length(n: nat)

  /** `bbs_big5_to_utf8`: refuses a NULL input, otherwise converts with the Big5 -> UTF-8 configuration. */
  method BbsBig5ToUtf8(table: seq<Entry>, big5: Option<CStr>, utf8: array?<byte>, utf8Len: nat) returns (r: Status)
    requires Sorted(Big5ToUtf8(table))
    requires utf8 != null ==> utf8Len <= utf8.Length
    modifies utf8
    ensures big5.None? ==> r == BbsError && (utf8 != null ==> utf8[..] == old(utf8[..]))
    ensures big5.Some? ==> r == Length(|Converted(Big5ToUtf8(table), big5.value)|)
    ensures big5.Some? && utf8 != null ==>
      Filled(old(utf8[..]), utf8[..], utf8Len, Steps(Big5ToUtf8(table), big5.value))
  {
    if big5.None? {
      return BbsError;
    }
    var n := Convert(Big5ToUtf8(table), big5.value, utf8, utf8Len);
    return Length(n);
  }

  /** `bbs_utf8_to_big5`: refuses a NULL input, otherwise converts with the UTF-8 -> Big5 configuration. */
  method BbsUtf8ToBig5(table: seq<Entry>, utf8: Option<CStr>, big5: array?<byte>, big5Len: nat) returns (r: Status)
    requires Sorted(Utf8ToBig5(table))
    requires big5 != null ==> big5Len <= big5.Length
    modifies big5
    ensures utf8.None? ==> r == BbsError && (big5 != null ==> big5[..] == old(big5[..]))
    ensures utf8.Some? ==> r == Length(|Converted(Utf8ToBig5(table), utf8.value)|)
    ensures utf8.Some? && big5 != null ==>
      Filled(old(big5[..]), big5[..], big5Len, Steps(Utf8ToBig5(table), utf8.value))
  {
    if utf8.None? {
      return BbsError;
    }
    var n := Convert(Utf8ToBig5(table), utf8.value, big5, big5Len);
    return Length(n);
  }
}
