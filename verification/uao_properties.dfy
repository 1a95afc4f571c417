/**
 * What the conversion engine promises, stated over the model in `Uao`: the decoders against
 * independent case descriptions, the emission rule against the table, the buffer bounds of a
 * finished conversion, and worked inputs for the behaviours that are easy to get wrong.
 */
module UaoProperties {
  import opened CStrings
  import opened Utf8
  import opened Uao

  // ---------------------------------------------------------------------------------------
  // Decoders

  /**
   * The Big5 decoder: a byte below 0x80 is a 1-byte key; a high byte with another byte after
   * it takes both; a high byte right before the terminator is broken and gives the marker.
   */
  lemma Big5DecodeCases(s: CStr)
    requires |s| > 0
    ensures s[0] < 0x80 ==> Big5ToUtf8CopyInput(s) == Decoded([s[0]], 1)
    ensures s[0] >= 0x80 && |s| >= 2 ==> Big5ToUtf8CopyInput(s) == Decoded([s[0], s[1]], 2)
    ensures s[0] >= 0x80 && |s| == 1 ==> Big5ToUtf8CopyInput(s) == Decoded(UNKNOWN_CHAR, 1)
  {
    if |s| >= 2 {
      assert s[..2] == [s[0], s[1]];
    }
    assert s[..1] == [s[0]];
  }

  /**
   * The UTF-8 decoder, described without its scan: an invalid lead byte gives the marker for
   * one byte; a lead byte followed by all the continuation bytes it announces gives the whole
   * sequence; and when the first byte after the lead that is not a continuation byte (the
   * terminator included) sits at offset `j` inside the announced length, the marker is
   * returned and exactly `j` bytes are consumed, the offending byte not among them.
   */
  lemma Utf8DecodeCases(s: CStr)
    requires |s| > 0
    ensures SequenceLength(s[0]) == 0 ==> Utf8Decode(s) == Decoded(UNKNOWN_CHAR, 1)
    ensures
      var n := SequenceLength(s[0]);
      1 <= n <= |s| && (forall k :: 1 <= k < n ==> IsContinuation(At(s, k))) ==>
        Utf8Decode(s) == Decoded(s[..n], n)
    ensures forall j ::
      (1 <= j < SequenceLength(s[0]) && !IsContinuation(At(s, j)) &&
       forall k :: 1 <= k < j ==> IsContinuation(At(s, k))) ==>
        Utf8Decode(s) == Decoded(UNKNOWN_CHAR, j)
  {
  }

  /** Whatever the direction, the key is the bytes consumed or the marker. */
  lemma DecodeKey(config: Config, s: CStr)
    requires |s| > 0
    ensures
      var d := Decode(config, s);
      d.key == s[..d.consumed] || d.key == UNKNOWN_CHAR
  {
  }

  // ---------------------------------------------------------------------------------------
  // Direction selectors

  /**
   * The Big5 -> UTF-8 comparison looks at an entry's Big5 field and reports 0 exactly when the
   * key is that field.
   */
  lemma Big5ToUtf8Compare(table: seq<Entry>, key: CStr, e: Entry)
    ensures KeyOf(Big5ToUtf8(table), e) == e.big5
    ensures Compare(Big5ToUtf8(table), key, e) == 0 <==> key == e.big5
  {
    StrCmpZero(key, e.big5);
  }

  /** The Big5 -> UTF-8 direction emits an entry's UTF-8 field. */
  lemma Big5ToUtf8GetOutput(table: seq<Entry>, e: Entry)
    ensures GetOutput(Big5ToUtf8(table), e) == e.utf8
  {
  }

  /**
   * The UTF-8 -> Big5 comparison looks at an entry's UTF-8 field and reports 0 exactly when the
   * key is that field.
   */
  lemma Utf8ToBig5Compare(table: seq<Entry>, key: CStr, e: Entry)
    ensures KeyOf(Utf8ToBig5(table), e) == e.utf8
    ensures Compare(Utf8ToBig5(table), key, e) == 0 <==> key == e.utf8
  {
    StrCmpZero(key, e.utf8);
  }

  /** The UTF-8 -> Big5 direction emits an entry's Big5 field. */
  lemma Utf8ToBig5GetOutput(table: seq<Entry>, e: Entry)
    ensures GetOutput(Utf8ToBig5(table), e) == e.big5
  {
  }

  // ---------------------------------------------------------------------------------------
  // The emission rule

  /** A key found in the table emits the paired field of the entry that holds it. */
  lemma EmitHit(config: Config, s: CStr, i: nat)
    requires Sorted(config) && |s| > 0 && i < |config.table|
    requires Decode(config, s).consumed > 1
    requires Decode(config, s).key == KeyOf(config, config.table[i])
    ensures Emit(config, s) == Step(GetOutput(config, config.table[i]), Decode(config, s).consumed)
  {
    LookupUnique(config, i);
  }

  /** A key no entry holds emits the marker. */
  lemma EmitMiss(config: Config, s: CStr)
    requires |s| > 0 && Decode(config, s).consumed > 1
    requires forall j :: 0 <= j < |config.table| ==> KeyOf(config, config.table[j]) != Decode(config, s).key
    ensures Emit(config, s) == Step(UNKNOWN_CHAR, Decode(config, s).consumed)
  {
    LookupMiss(config, Decode(config, s).key);
  }

  /**
   * A UTF-8 sequence broken after its lead and at least one continuation byte consumes two or
   * more bytes, so its marker key goes through the table search rather than being emitted
   * directly: the chunk is whatever the table pairs with "?", and "?" only on a miss.
   */
  lemma BrokenSequenceSearchesMarker(table: seq<Entry>, s: CStr)
    requires |s| > 0
    requires Utf8Decode(s).key == UNKNOWN_CHAR && Utf8Decode(s).consumed >= 2
    ensures Emit(Utf8ToBig5(table), s).chunk ==
      match Lookup(Utf8ToBig5(table), UNKNOWN_CHAR)
      case Some(i) => table[i].big5
      case None => UNKNOWN_CHAR
  {
  }

  // ---------------------------------------------------------------------------------------
  // Whole conversions

  lemma ConcatCons(t: Step, ts: seq<Step>)
    ensures Concat([t] + ts) == t.chunk + Concat(ts)
  {
    assert ([t] + ts)[1..] == ts;
  }

  /** Input made only of bytes below 0x80 is reproduced byte for byte, in either direction. */
  lemma {:induction false} AsciiIdentity(config: Config, s: CStr)
    requires forall k :: 0 <= k < |s| ==> s[k] < 0x80
    ensures Converted(config, s) == s
    decreases |s|
  {
    if s != [] {
      assert Decode(config, s) == Decoded(s[..1], 1);
      StepsCons(config, s);
      ConcatCons(Step(s[..1], 1), Steps(config, s[1..]));
      AsciiIdentity(config, s[1..]);
      assert s == s[..1] + s[1..];
    }
  }

  /** The Big5 bytes of an entry of a sorted Big5 -> UTF-8 table convert to its UTF-8 bytes. */
  lemma Big5EntryConverts(table: seq<Entry>, i: nat)
    requires Sorted(Big5ToUtf8(table)) && i < |table|
    requires |table[i].big5| == 2 && table[i].big5[0] >= 0x80
    ensures Converted(Big5ToUtf8(table), table[i].big5) == table[i].utf8
  {
    var config, s := Big5ToUtf8(table), table[i].big5;
    assert s[..2] == s;
    EmitHit(config, s, i);
    StepsCons(config, s);
    ConcatCons(Emit(config, s), []);
  }

  /**
   * The UTF-8 bytes of an entry of a sorted UTF-8 -> Big5 table, when they form one complete
   * multi-byte sequence, convert to its Big5 bytes.
   */
  lemma Utf8EntryConverts(table: seq<Entry>, i: nat)
    requires Sorted(Utf8ToBig5(table)) && i < |table|
    requires |table[i].utf8| > 0 && |table[i].utf8| == SequenceLength(table[i].utf8[0]) >= 2
    requires forall k :: 1 <= k < |table[i].utf8| ==> IsContinuation(At(table[i].utf8, k))
    ensures Converted(Utf8ToBig5(table), table[i].utf8) == table[i].big5
  {
    var config, s := Utf8ToBig5(table), table[i].utf8;
    Utf8DecodeCases(s);
    assert s[..|s|] == s;
    EmitHit(config, s, i);
    StepsCons(config, s);
    ConcatCons(Emit(config, s), []);
  }

  // ---------------------------------------------------------------------------------------
  // The output buffer

  /**
   * A filled buffer of capacity at least 1 holds a terminator below the capacity and is
   * unchanged at every index at or beyond the capacity.
   */
  lemma FilledBounds(before: seq<byte>, after: seq<byte>, cap: nat, ts: seq<Step>)
    requires Filled(before, after, cap, ts)
    ensures forall k :: cap <= k < |after| ==> after[k] == before[k]
    ensures cap > 0 ==> 0 in after[..cap]
  {
    if cap > 0 {
      var f := Fit(ts, cap);
      assert after[..cap][|f|] == 0;
      forall k | cap <= k < |after|
        ensures after[k] == before[k]
      {
        assert after[|f| + 1..][k - |f| - 1] == before[|f| + 1..][k - |f| - 1];
      }
    }
  }

  /**
   * `update_output` writes only inside the window of `rem` bytes at `pos`: the chunk at `pos`
   * when it is strictly shorter than the window, else a terminator at `pos` when the window is
   * not empty; every byte outside the window keeps its value.
   */
  lemma UpdateWithinWindow(w: seq<byte>, pos: nat, rem: nat, c: CStr)
    requires pos + rem <= |w|
    ensures forall k :: 0 <= k < |w| && !(pos <= k < pos + rem) ==> Update(w, pos, rem, c)[k] == w[k]
    ensures |c| < rem ==> Update(w, pos, rem, c)[pos..pos + |c|] == c
    ensures rem <= |c| && rem > 0 ==> Update(w, pos, rem, c)[pos] == 0
  {
    if |c| < rem {
      var w' := Update(w, pos, rem, c);
      assert w' == w[..pos] + c + w[pos + |c|..];
      forall k | 0 <= k < |w| && !(pos <= k < pos + rem)
        ensures w'[k] == w[k]
      {
        if k >= pos + rem {
          assert w'[k] == w[pos + |c|..][k - pos - |c|];
        }
      }
      assert w'[pos..pos + |c|] == c;
    }
  }

  /** While chunks are offered into a buffer of capacity at least 1, at least one byte stays free. */
  lemma RoomNeverExhausted(B: seq<byte>, cap: nat, ts: seq<Step>)
    requires 0 < cap <= |B|
    ensures OfferAll(Start(B, cap), ts).rem >= 1
  {
    OfferAllShape(B, cap, ts);
  }

  // ---------------------------------------------------------------------------------------
  // Worked inputs

  /** A Big5 -> UTF-8 table holding only U+4E00, Big5 A4 40. */
  const ONE_TABLE: seq<Entry> := [Entry([0xA4, 0x40], [0xE4, 0xB8, 0x80])]

  /**
   * A Big5 lead byte right before the terminator becomes "?": "AB" followed by 0xA1 converts
   * to "AB?" of length 3.
   */
  lemma Big5TrailingLeadByte()
    ensures Converted(Big5ToUtf8(ONE_TABLE), [0x41, 0x42, 0xA1]) == [0x41, 0x42, 0x3F]
  {
    var config, s := Big5ToUtf8(ONE_TABLE), [0x41, 0x42, 0xA1];
    assert s[..1] == [0x41] && s[1..][..1] == [0x42];
    StepsCons(config, s);
    StepsCons(config, s[1..]);
    StepsCons(config, s[2..]);
    assert s[1..][1..] == s[2..] && s[2..][1..] == [];
    ConcatCons(Step([0x41], 1), Steps(config, s[1..]));
    ConcatCons(Step([0x42], 1), Steps(config, s[2..]));
    ConcatCons(Step(UNKNOWN_CHAR, 1), []);
  }

  /**
   * Truncation is greedy, not a prefix: with capacity 3, the 3-byte UTF-8 form of A4 40 does
   * not fit and is skipped, and the "A" after it is still written.
   */
  lemma TruncationSkipsWideCharacter()
    ensures Converted(Big5ToUtf8(ONE_TABLE), [0xA4, 0x40, 0x41]) == [0xE4, 0xB8, 0x80, 0x41]
    ensures Fit(Steps(Big5ToUtf8(ONE_TABLE), [0xA4, 0x40, 0x41]), 3) == [0x41]
  {
    var config, s := Big5ToUtf8(ONE_TABLE), [0xA4, 0x40, 0x41];
    var t0, t1 := Step([0xE4, 0xB8, 0x80], 2), Step([0x41], 1);
    assert s[..2] == [0xA4, 0x40] && s[2..][..1] == [0x41] && s[2..][1..] == [];
    EmitHit(config, s, 0);
    StepsCons(config, s);
    StepsCons(config, s[2..]);
    assert Steps(config, s) == [t0, t1];
    ConcatCons(t0, [t1]);
    ConcatCons(t1, []);
    FitSnoc([t0], t1, 3);
    FitSnoc([], t0, 3);
    assert [t0, t1] == [t0] + [t1] && [t0] == [] + [t0];
  }

  /** A hypothetical UTF-8 -> Big5 table that pairs "?" with Big5 A1 48. */
  const MARKER_TABLE: seq<Entry> := [Entry([0xA1, 0x48], [0x3F])]

  /**
   * The two ways UTF-8 input can be malformed are emitted differently: an invalid lead byte
   * (0x80) gives "?" directly, while E4 B8 broken by "A" gives the marker key to the table
   * search, so a table pairing "?" with A1 48 emits A1 48 for it.
   */
  lemma Utf8BrokenMidSequence()
    ensures Converted(Utf8ToBig5(MARKER_TABLE), [0x80, 0x41]) == [0x3F, 0x41]
    ensures Converted(Utf8ToBig5(MARKER_TABLE), [0xE4, 0xB8, 0x41]) == [0xA1, 0x48, 0x41]
  {
    var config := Utf8ToBig5(MARKER_TABLE);
    var a, b := [0x80, 0x41], [0xE4, 0xB8, 0x41];
    assert a[1..][..1] == [0x41] && a[1..][1..] == [];
    StepsCons(config, a);
    StepsCons(config, a[1..]);
    ConcatCons(Step(UNKNOWN_CHAR, 1), Steps(config, a[1..]));
    ConcatCons(Step([0x41], 1), []);
    Utf8DecodeCases(b);
    assert Utf8Decode(b) == Decoded(UNKNOWN_CHAR, 2);
    assert b[2..] == [0x41] && b[2..][..1] == [0x41] && b[2..][1..] == [];
    EmitHit(config, b, 0);
    StepsCons(config, b);
    StepsCons(config, b[2..]);
    ConcatCons(Step([0xA1, 0x48], 2), Steps(config, b[2..]));
    ConcatCons(Step([0x41], 1), []);
  }
}
