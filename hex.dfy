/** Hexadecimal digits, and the lower-case, separator-free rendering of a
    byte sequence that the signer emits and the verifier reads back. */
module Hex {
  import opened Runtime

  /** '0'..'9', 'A'..'F' or 'a'..'f'. */
  predicate IsHexDigit(c: char)
  {
    '0' <= c <= '9' || 'A' <= c <= 'F' || 'a' <= c <= 'f'
  }

  /** The value of a hex digit, either case. */
  function DigitValue(c: char): (v: int)
    requires IsHexDigit(c)
    ensures 0 <= v < 16
  {
    if '0' <= c <= '9' then c as int - '0' as int
    else if 'A' <= c <= 'F' then c as int - 'A' as int + 10
    else c as int - 'a' as int + 10
  }

  /** The lower-case digit for a nibble; `DigitValue` reads it back. */
  function LowerDigit(v: int): (c: char)
    requires 0 <= v < 16
    ensures IsHexDigit(c) && DigitValue(c) == v
    ensures '0' <= c <= '9' || 'a' <= c <= 'f'
  {
    if v < 10 then ('0' as int + v) as char else ('a' as int + v - 10) as char
  }

  /** The upper-case digit for a nibble. */
  function UpperDigit(v: int): (c: char)
    requires 0 <= v < 16
    ensures IsHexDigit(c) && DigitValue(c) == v
    ensures '0' <= c <= '9' || 'A' <= c <= 'F'
  {
    if v < 10 then ('0' as int + v) as char else ('A' as int + v - 10) as char
  }

  /** Two lower-case digits, high nibble first. */
  function LowerPair(b: byte): string
  {
    [LowerDigit(b as int / 16), LowerDigit(b as int % 16)]
  }

  /** The reference rendering: two lower-case digits per byte, nothing between. */
  function LowerHex(b: seq<byte>): (r: string)
    ensures |r| == 2 * |b|
  {
    if b == [] then [] else LowerPair(b[0]) + LowerHex(b[1..])
  }

  /** Byte k of the input is rendered at positions 2k and 2k+1. */
  lemma {:induction false} LowerHexAt(b: seq<byte>, k: nat)
    requires k < |b|
    ensures LowerHex(b)[2 * k] == LowerDigit(b[k] as int / 16)
    ensures LowerHex(b)[2 * k + 1] == LowerDigit(b[k] as int % 16)
  {
    if k > 0 {
      LowerHexAt(b[1..], k - 1);
    }
  }

  /** Every character of the rendering is in [0-9a-f]. */
  lemma {:induction false} LowerHexAlphabet(b: seq<byte>)
    ensures forall c :: c in LowerHex(b) ==> '0' <= c <= '9' || 'a' <= c <= 'f'
  {
    if b != [] {
      LowerHexAlphabet(b[1..]);
    }
  }
}
