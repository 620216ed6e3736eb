/**
 * Bytes and their hexadecimal text form: `bytes.hex()` (lower-case, two digits
 * per byte, no separators) and `bytes.fromhex(s)` (upper- or lower-case digits,
 * ASCII whitespace allowed between byte pairs).
 */
module Hex {
  import opened Wrappers

  /** One octet. */
  type byte = x: int | 0 <= x < 256

  /** The lower-case hexadecimal digit for a nibble. */
  function HexDigit(n: int): (c: char)
    requires 0 <= n < 16
    ensures IsLowerHexDigit(c)
  {
    if n < 10 then ('0' as int + n) as char else ('a' as int + n - 10) as char
  }

  predicate IsLowerHexDigit(c: char) {
    '0' <= c <= '9' || 'a' <= c <= 'f'
  }

  /** The value of a hexadecimal digit of either case, as `bytes.fromhex` reads it. */
  function DigitValue(c: char): (r: Option<int>)
    ensures r.Some? ==> 0 <= r.value < 16
    ensures r.Some? <==> ('0' <= c <= '9' || 'a' <= c <= 'f' || 'A' <= c <= 'F')
  {
    if '0' <= c <= '9' then Some(c as int - '0' as int)
    else if 'a' <= c <= 'f' then Some(c as int - 'a' as int + 10)
    else if 'A' <= c <= 'F' then Some(c as int - 'A' as int + 10)
    else None
  }

  lemma DigitValueOfHexDigit(n: int)
    requires 0 <= n < 16
    ensures DigitValue(HexDigit(n)) == Some(n)
  {
  }

  /** `bytes.hex()`. */
  function ToHex(b: seq<byte>): (s: string)
    ensures |s| == 2 * |b|
    ensures forall i :: 0 <= i < |s| ==> IsLowerHexDigit(s[i])
  {
    if b == [] then "" else [HexDigit(b[0] / 16), HexDigit(b[0] % 16)] + ToHex(b[1..])
  }

  /** The ASCII whitespace `bytes.fromhex` skips between byte pairs. */
  predicate IsAsciiWhitespace(c: char) {
    c == ' ' || c == '\t' || c == '\n' || c == '\r' || c as int == 0x0B || c as int == 0x0C
  }

  /** `bytes.fromhex(s)`; `None` where Python raises `ValueError`. */
  function FromHex(s: string): (r: Option<seq<byte>>)
    ensures r.Some? ==> 2 * |r.value| <= |s|
    decreases |s|
  {
    if s == [] then Some([])
    else if IsAsciiWhitespace(s[0]) then FromHex(s[1..])
    else if |s| < 2 then None
    else match (DigitValue(s[0]), DigitValue(s[1]), FromHex(s[2..]))
      case (Some(hi), Some(lo), Some(rest)) => Some([hi * 16 + lo] + rest)
      case _ => None
  }

  /** ASCII whitespace before a byte's two digits is skipped. */
  lemma FromHexSkipsWhitespace(c: char, s: string)
    requires IsAsciiWhitespace(c)
    ensures FromHex([c] + s) == FromHex(s)
  {
    assert ([c] + s)[1..] == s;
  }

  /** Two digits of either case, followed by readable text, give one byte: the high digit first. */
  lemma FromHexPair(hi: char, lo: char, s: string)
    requires DigitValue(hi).Some? && DigitValue(lo).Some? && FromHex(s).Some?
    ensures FromHex([hi, lo] + s) == Some([DigitValue(hi).value * 16 + DigitValue(lo).value] + FromHex(s).value)
  {
    assert ([hi, lo] + s)[2..] == s;
  }

  /** Hex text splits at byte boundaries. */
  lemma {:induction false} ToHexAppend(a: seq<byte>, b: seq<byte>)
    ensures ToHex(a + b) == ToHex(a) + ToHex(b)
  {
    if a == [] {
      assert a + b == b;
    } else {
      assert (a + b)[1..] == a[1..] + b;
      ToHexAppend(a[1..], b);
    }
  }

  /** `bytes.fromhex(b.hex()) == b`. */
  lemma {:induction false} FromHexToHex(b: seq<byte>)
    ensures FromHex(ToHex(b)) == Some(b)
  {
    if b != [] {
      var s := ToHex(b);
      assert s[2..] == ToHex(b[1..]);
      DigitValueOfHexDigit(b[0] / 16);
      DigitValueOfHexDigit(b[0] % 16);
      FromHexToHex(b[1..]);
      assert [b[0]] + b[1..] == b;
    }
  }
}
