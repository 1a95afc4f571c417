/** Bytes, NUL-terminated byte strings, and `strcmp` on them. */
module CStrings {

  /** An unsigned 8-bit value; the converter only looks at bit patterns, never at the sign of `char`. */
  type byte = b: int | 0 <= b < 0x100

  /** A byte other than the terminator. */
  type NonNulByte = b: byte | b != 0 witness 1

  /** The contents of a NUL-terminated string: the bytes before its terminator. */
  type CStr = seq<NonNulByte>

  /** The byte a C reader finds at offset `i`: the terminator at `|s|` (reading stops there). */
  function At(s: CStr, i: nat): (b: byte)
    ensures b == 0 <==> i >= |s|
  {
    if i < |s| then s[i] else 0
  }

  /**
   * `strcmp` on the contents of two strings, reduced to its sign: bytes are compared as
   * unsigned values, and a string that is a proper prefix of the other (its terminator
   * meets a non-zero byte) is the smaller one.
   */
  function StrCmp(a: CStr, b: CStr): (r: int)
    ensures -1 <= r <= 1
  {
    if a == [] && b == [] then 0
    else if a == [] then -1
    else if b == [] then 1
    else if a[0] < b[0] then -1
    else if a[0] > b[0] then 1
    else StrCmp(a[1..], b[1..])
  }

  /** `strcmp` reports equality exactly for equal strings. */
  lemma {:induction false} StrCmpZero(a: CStr, b: CStr)
    ensures StrCmp(a, b) == 0 <==> a == b
  {
    if a != [] && b != [] && a[0] == b[0] {
      StrCmpZero(a[1..], b[1..]);
      assert a == [a[0]] + a[1..] && b == [b[0]] + b[1..];
    }
  }

  /** Swapping the arguments of `strcmp` flips its sign. */
  lemma {:induction false} StrCmpAntisymmetric(a: CStr, b: CStr)
    ensures StrCmp(b, a) == -StrCmp(a, b)
  {
    if a != [] && b != [] && a[0] == b[0] {
      StrCmpAntisymmetric(a[1..], b[1..]);
    }
  }

  /** The order `strcmp` induces is transitive. */
  lemma {:induction false} StrCmpTransitive(a: CStr, b: CStr, c: CStr)
    requires StrCmp(a, b) < 0 && StrCmp(b, c) < 0
    ensures StrCmp(a, c) < 0
  {
    if a != [] && b != [] && c != [] && a[0] == b[0] && b[0] == c[0] {
      StrCmpTransitive(a[1..], b[1..], c[1..]);
    }
  }
}
