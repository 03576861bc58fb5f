/** Hexadecimal digits and their values, the alphabet of an Intel HEX record. */
module Hex {

  /** An element of a `Uint8Array`. */
  type byte = b: int | 0 <= b < 256

  /** The digits `parseInt(_, 16)` accepts, in either case. */
  predicate IsHexDigit(c: char) {
    ('0' <= c <= '9') || ('a' <= c <= 'f') || ('A' <= c <= 'F')
  }

  predicate AllHexDigits(s: string) {
    forall k :: 0 <= k < |s| ==> IsHexDigit(s[k])
  }

  function DigitValue(c: char): (d: nat)
    requires IsHexDigit(c)
    ensures d < 16
  {
    if '0' <= c <= '9' then c as int - '0' as int
    else if 'a' <= c <= 'f' then c as int - 'a' as int + 10
    else c as int - 'A' as int + 10
  }

  /** The upper-case digit for `d`, the spelling Intel HEX files use. */
  function HexDigit(d: nat): (c: char)
    requires d < 16
    ensures IsHexDigit(c) && DigitValue(c) == d
  {
    if d < 10 then ('0' as int + d) as char else ('A' as int + d - 10) as char
  }

  /** Sixteen to the power `n`: the weight of the digit `n` places from the right. */
  function Pow16(n: nat): nat
  {
    if n == 0 then 1 else 16 * Pow16(n - 1)
  }

  /** The value of a digit string read most significant digit first. */
  function HexValue(s: string): (v: nat)
    requires AllHexDigits(s)
    ensures v < Pow16(|s|)
  {
    if |s| == 0 then 0 else 16 * HexValue(s[..|s| - 1]) + DigitValue(s[|s| - 1])
  }

  /** Two strings of hex digits, one after the other, are hex digits. */
  lemma AllHexDigitsAppend(x: string, y: string)
    requires AllHexDigits(x) && AllHexDigits(y)
    ensures AllHexDigits(x + y)
  {
  }

  /** Reading `x + y` is reading `x`, shifted by the width of `y`, plus `y`. */
  lemma {:induction false} HexValueAppend(x: string, y: string)
    requires AllHexDigits(x) && AllHexDigits(y)
    ensures AllHexDigits(x + y)
    ensures HexValue(x + y) == HexValue(x) * Pow16(|y|) + HexValue(y)
    decreases |y|
  {
    var xy := x + y;
    if |y| > 0 {
      var y' := y[..|y| - 1];
      assert xy[..|xy| - 1] == x + y';
      assert xy[|xy| - 1] == y[|y| - 1];
      HexValueAppend(x, y');
      var d := DigitValue(y[|y| - 1]);
      assert HexValue(xy) == 16 * HexValue(x + y') + d;
      ShiftDigit(HexValue(x), Pow16(|y'|), HexValue(y'), d);
    } else {
      assert xy == x;
    }
  }

  lemma ShiftDigit(hx: int, p: int, hy: int, d: int)
    ensures 16 * (hx * p + hy) + d == hx * (16 * p) + (16 * hy + d)
  {
  }

  /** The two-digit spelling of a byte, as in the byte-count, type, data and checksum fields. */
  function HexPair(b: byte): (s: string)
    ensures |s| == 2 && AllHexDigits(s)
  {
    [HexDigit(b / 16), HexDigit(b % 16)]
  }

  /** A byte's spelling reads back as the byte. */
  lemma HexPairValue(b: byte)
    ensures HexValue(HexPair(b)) == b
  {
    var s := HexPair(b);
    assert s[..1] == [s[0]];
  }

  /** The four-digit spelling of a 16-bit load address: high byte first. */
  function HexQuad(a: nat): (s: string)
    requires a < 0x1_0000
    ensures |s| == 4 && AllHexDigits(s)
  {
    HexPair(a / 256) + HexPair(a % 256)
  }

  /** An address's spelling reads back as the address. */
  lemma HexQuadValue(a: nat)
    requires a < 0x1_0000
    ensures HexValue(HexQuad(a)) == a
  {
    HexPairValue(a / 256);
    HexPairValue(a % 256);
    HexValueAppend(HexPair(a / 256), HexPair(a % 256));
  }
}
