/**
 * UTF-8 byte classification after section 3 of RFC 3629: a lead byte 0xxxxxxx starts a
 * 1-byte sequence, 110xxxxx a 2-byte, 1110xxxx a 3-byte and 11110xxx a 4-byte one; every
 * further byte of a sequence has the form 10xxxxxx.
 */
module Utf8 {
  import opened CStrings

  /**
   * The length of the sequence that lead byte `b` announces, or 0 when its bit pattern cannot
   * start a sequence (a continuation byte 10xxxxxx, or 11111xxx). Only the bit pattern is
   * looked at: the octets C0, C1 and F5-F7, which RFC 3629 says never appear, are classified
   * as 2-byte and 4-byte leads like the rest of their pattern.
   */
  function SequenceLength(b: byte): (n: nat)
    ensures n <= 4
  {
    if b < 0x80 then 1
    else if b < 0xC0 then 0
    else if b < 0xE0 then 2
    else if b < 0xF0 then 3
    else if b < 0xF8 then 4
    else 0
  }

  /** `b` has the form 10xxxxxx. */
  predicate IsContinuation(b: byte) {
    0x80 <= b < 0xC0
  }
}
