/**
 * Base 64 with the standard alphabet and `=` padding (section 4 of RFC 4648), as
 * `base64.b64encode` produces it, and a strict decoder (padding only at the end,
 * unused padding bits zero) that undoes it.
 */
module Base64 {
  import opened Wrappers
  import opened Hex

  /** The character for a 6-bit value: `A`-`Z`, `a`-`z`, `0`-`9`, `+`, `/`. */
  function IndexChar(i: int): (c: char)
    requires 0 <= i < 64
    ensures c != '='
  {
    if i < 26 then ('A' as int + i) as char
    else if i < 52 then ('a' as int + i - 26) as char
    else if i < 62 then ('0' as int + i - 52) as char
    else if i == 62 then '+'
    else '/'
  }

  /** The 6-bit value of an alphabet character; `None` for anything else. */
  function CharIndex(c: char): (r: Option<int>)
    ensures r.Some? ==> 0 <= r.value < 64 && IndexChar(r.value) == c
  {
    if 'A' <= c <= 'Z' then Some(c as int - 'A' as int)
    else if 'a' <= c <= 'z' then Some(c as int - 'a' as int + 26)
    else if '0' <= c <= '9' then Some(c as int - '0' as int + 52)
    else if c == '+' then Some(62)
    else if c == '/' then Some(63)
    else None
  }

  lemma CharIndexOfIndexChar(i: int)
    requires 0 <= i < 64
    ensures CharIndex(IndexChar(i)) == Some(i)
  {
  }

  /** The group written for three bytes. */
  function Group3(b0: byte, b1: byte, b2: byte): (g: string)
    ensures |g| == 4
  {
    [IndexChar(b0 / 4), IndexChar((b0 % 4) * 16 + b1 / 16), IndexChar((b1 % 16) * 4 + b2 / 64), IndexChar(b2 % 64)]
  }

  /** The padded group written for two final bytes. */
  function Group2(b0: byte, b1: byte): (g: string)
    ensures |g| == 4
  {
    [IndexChar(b0 / 4), IndexChar((b0 % 4) * 16 + b1 / 16), IndexChar((b1 % 16) * 4), '=']
  }

  /** The padded group written for one final byte. */
  function Group1(b0: byte): (g: string)
    ensures |g| == 4
  {
    [IndexChar(b0 / 4), IndexChar((b0 % 4) * 16), '=', '=']
  }

  /** `base64.b64encode(b).decode()`: four characters per three bytes, the last group padded. */
  function Encode(b: seq<byte>): (s: string)
    ensures |s| == 4 * ((|b| + 2) / 3)
    decreases |b|
  {
    if |b| == 0 then ""
    else if |b| == 1 then Group1(b[0])
    else if |b| == 2 then Group2(b[0], b[1])
    else Group3(b[0], b[1], b[2]) + Encode(b[3..])
  }

  /**
   * Decodes one group of four characters. Padding is accepted only in the last
   * group, and only when the bits it leaves unused are zero, so each byte
   * sequence has exactly one accepted text (`DecodeInjective`).
   */
  function DecodeGroup(c0: char, c1: char, c2: char, c3: char, last: bool): (r: Option<seq<byte>>)
    ensures r.Some? ==> 1 <= |r.value| <= 3
  {
    match (CharIndex(c0), CharIndex(c1), CharIndex(c2), CharIndex(c3))
    case (Some(v0), Some(v1), _, _) =>
      var x0 := v0 * 4 + v1 / 16;
      if c2 == '=' then
        if c3 == '=' && last && v1 % 16 == 0 then Some([x0]) else None
      else if CharIndex(c2).None? then None
      else
        var v2 := CharIndex(c2).value;
        var x1 := (v1 % 16) * 16 + v2 / 4;
        if c3 == '=' then
          if last && v2 % 4 == 0 then Some([x0, x1]) else None
        else if CharIndex(c3).None? then None
        else Some([x0, x1, (v2 % 4) * 64 + CharIndex(c3).value])
    case _ => None
  }

  /** Strict decoding of padded base 64; `None` for any other text. */
  function Decode(s: string): (r: Option<seq<byte>>)
    ensures r.Some? ==> 4 * |r.value| <= 3 * |s|
    decreases |s|
  {
    if |s| == 0 then Some([])
    else if |s| < 4 then None
    else match (DecodeGroup(s[0], s[1], s[2], s[3], |s| == 4), Decode(s[4..]))
      case (Some(g), Some(rest)) => Some(g + rest)
      case _ => None
  }

  /** A `==` group is rejected when its second character leaves non-zero unused bits. */
  lemma OnePadBitsRejected(c0: char, c1: char, last: bool)
    requires CharIndex(c0).Some? && CharIndex(c1).Some? && CharIndex(c1).value % 16 != 0
    ensures DecodeGroup(c0, c1, '=', '=', last) == None
  {
  }

  /** A `=` group is rejected when its third character leaves non-zero unused bits. */
  lemma TwoPadBitsRejected(c0: char, c1: char, c2: char, last: bool)
    requires CharIndex(c0).Some? && CharIndex(c1).Some? && CharIndex(c2).Some? && CharIndex(c2).value % 4 != 0
    ensures DecodeGroup(c0, c1, c2, '=', last) == None
  {
  }

  /** One step of `Decode`: a well-formed leading group followed by decodable text. */
  lemma DecodeStep(s: string, g: seq<byte>, rest: seq<byte>)
    requires |s| >= 4
    requires DecodeGroup(s[0], s[1], s[2], s[3], |s| == 4) == Some(g)
    requires Decode(s[4..]) == Some(rest)
    ensures Decode(s) == Some(g + rest)
  {
  }

  /** A group of four alphabet characters decodes to the three bytes their 6-bit values spell. */
  lemma DecodeFullGroup(c0: char, c1: char, c2: char, c3: char, v0: int, v1: int, v2: int, v3: int, last: bool)
    requires CharIndex(c0) == Some(v0) && CharIndex(c1) == Some(v1)
    requires CharIndex(c2) == Some(v2) && CharIndex(c3) == Some(v3)
    ensures DecodeGroup(c0, c1, c2, c3, last) == Some([v0 * 4 + v1 / 16, (v1 % 16) * 16 + v2 / 4, (v2 % 4) * 64 + v3])
  {
  }

  /** Splitting three bytes into four 6-bit values and joining them again gives the bytes back. */
  lemma RegroupThree(b0: byte, b1: byte, b2: byte)
    ensures (b0 / 4) * 4 + ((b0 % 4) * 16 + b1 / 16) / 16 == b0
    ensures (((b0 % 4) * 16 + b1 / 16) % 16) * 16 + ((b1 % 16) * 4 + b2 / 64) / 4 == b1
    ensures (((b1 % 16) * 4 + b2 / 64) % 4) * 64 + b2 % 64 == b2
  {
    assert ((b0 % 4) * 16 + b1 / 16) / 16 == b0 % 4;
    assert ((b0 % 4) * 16 + b1 / 16) % 16 == b1 / 16;
    assert ((b1 % 16) * 4 + b2 / 64) / 4 == b1 % 16;
    assert ((b1 % 16) * 4 + b2 / 64) % 4 == b2 / 64;
  }

  /** The text written for a final single byte decodes back to it. */
  lemma DecodeLastOne(b0: byte, s: string)
    requires s == Group1(b0)
    ensures Decode(s) == Some([b0])
  {
    CharIndexOfIndexChar(b0 / 4);
    CharIndexOfIndexChar((b0 % 4) * 16);
    assert ((b0 % 4) * 16) / 16 == b0 % 4;
    assert DecodeGroup(s[0], s[1], s[2], s[3], true) == Some([b0]);
    assert s[4..] == [];
    DecodeStep(s, [b0], []);
    assert [b0] + [] == [b0];
  }

  /** The text written for two final bytes decodes back to them. */
  lemma DecodeLastTwo(b0: byte, b1: byte, s: string)
    requires s == Group2(b0, b1)
    ensures Decode(s) == Some([b0, b1])
  {
    var v1 := (b0 % 4) * 16 + b1 / 16;
    var v2 := (b1 % 16) * 4;
    CharIndexOfIndexChar(b0 / 4);
    CharIndexOfIndexChar(v1);
    CharIndexOfIndexChar(v2);
    assert v1 / 16 == b0 % 4 && v1 % 16 == b1 / 16 && v2 / 4 == b1 % 16;
    assert DecodeGroup(s[0], s[1], s[2], s[3], true) == Some([b0, b1]);
    assert s[4..] == [];
    DecodeStep(s, [b0, b1], []);
    assert [b0, b1] + [] == [b0, b1];
  }

  /** The group written for three bytes decodes back to them, whether or not it is the last. */
  lemma DecodeGroupThree(b0: byte, b1: byte, b2: byte, last: bool)
    ensures var g := Group3(b0, b1, b2); DecodeGroup(g[0], g[1], g[2], g[3], last) == Some([b0, b1, b2])
  {
    var v0, v1, v2, v3 := b0 / 4, (b0 % 4) * 16 + b1 / 16, (b1 % 16) * 4 + b2 / 64, b2 % 64;
    var g := Group3(b0, b1, b2);
    CharIndexOfIndexChar(v0);
    CharIndexOfIndexChar(v1);
    CharIndexOfIndexChar(v2);
    CharIndexOfIndexChar(v3);
    DecodeFullGroup(g[0], g[1], g[2], g[3], v0, v1, v2, v3, last);
    RegroupThree(b0, b1, b2);
  }

  /** The group written for three bytes, followed by decodable text, decodes back to them. */
  lemma DecodeThreeThen(b0: byte, b1: byte, b2: byte, s: string, rest: seq<byte>)
    requires |s| >= 4
    requires s[..4] == Group3(b0, b1, b2)
    requires Decode(s[4..]) == Some(rest)
    ensures Decode(s) == Some([b0, b1, b2] + rest)
  {
    DecodeGroupThree(b0, b1, b2, |s| == 4);
    assert s[0] == s[..4][0] && s[1] == s[..4][1] && s[2] == s[..4][2] && s[3] == s[..4][3];
    DecodeStep(s, [b0, b1, b2], rest);
  }

  /** Decoding an encoding gives the bytes back. */
  lemma {:induction false} DecodeEncode(b: seq<byte>)
    ensures Decode(Encode(b)) == Some(b)
    decreases |b|, 1
  {
    if |b| == 1 {
      DecodeEncodeOne(b);
    } else if |b| == 2 {
      DecodeEncodeTwo(b);
    } else if |b| >= 3 {
      DecodeEncodeLong(b);
    }
  }

  /** `DecodeEncode` for a single byte. */
  lemma DecodeEncodeOne(b: seq<byte>)
    requires |b| == 1
    ensures Decode(Encode(b)) == Some(b)
  {
    DecodeLastOne(b[0], Encode(b));
    assert [b[0]] == b;
  }

  /** `DecodeEncode` for two bytes. */
  lemma DecodeEncodeTwo(b: seq<byte>)
    requires |b| == 2
    ensures Decode(Encode(b)) == Some(b)
  {
    DecodeLastTwo(b[0], b[1], Encode(b));
    assert [b[0], b[1]] == b;
  }

  /** Text starting with the group of the first three bytes and going on with the rest's text decodes to all of them. */
  lemma DecodeFirstThree(b: seq<byte>, s: string)
    requires |b| >= 3 && |s| >= 4
    requires s[..4] == Group3(b[0], b[1], b[2]) && Decode(s[4..]) == Some(b[3..])
    ensures Decode(s) == Some(b)
  {
    ConsThree(b);
    DecodeThreeThen(b[0], b[1], b[2], s, b[3..]);
  }

  /** A sequence of three or more is its first three elements followed by the rest. */
  lemma ConsThree(b: seq<byte>)
    requires |b| >= 3
    ensures [b[0], b[1], b[2]] + b[3..] == b
  {
  }

  /** The encoding of three bytes or more is the first group followed by the encoding of the rest. */
  lemma EncodeSplit(b: seq<byte>)
    requires |b| >= 3
    ensures |Encode(b)| >= 4
    ensures Encode(b)[..4] == Group3(b[0], b[1], b[2]) && Encode(b)[4..] == Encode(b[3..])
  {
    assert Encode(b) == Group3(b[0], b[1], b[2]) + Encode(b[3..]);
  }

  /** `DecodeEncode` for three bytes or more: the first group, then the rest by induction. */
  lemma {:induction false} DecodeEncodeLong(b: seq<byte>)
    requires |b| >= 3
    ensures Decode(Encode(b)) == Some(b)
    decreases |b|, 0
  {
    EncodeSplit(b);
    DecodeEncode(b[3..]);
    DecodeFirstThree(b, Encode(b));
  }

  /** Four 6-bit values joined into three bytes and split again give the values back. */
  lemma SplitThree(v0: int, v1: int, v2: int, v3: int)
    requires 0 <= v0 < 64 && 0 <= v1 < 64 && 0 <= v2 < 64 && 0 <= v3 < 64
    ensures (v0 * 4 + v1 / 16) / 4 == v0
    ensures ((v0 * 4 + v1 / 16) % 4) * 16 + ((v1 % 16) * 16 + v2 / 4) / 16 == v1
    ensures (((v1 % 16) * 16 + v2 / 4) % 16) * 4 + ((v2 % 4) * 64 + v3) / 64 == v2
    ensures ((v2 % 4) * 64 + v3) % 64 == v3
  {
    assert (v0 * 4 + v1 / 16) % 4 == v1 / 16;
    assert ((v1 % 16) * 16 + v2 / 4) / 16 == v1 % 16;
    assert ((v1 % 16) * 16 + v2 / 4) % 16 == v2 / 4;
    assert ((v2 % 4) * 64 + v3) / 64 == v2 % 4;
  }

  /** A group that decodes to three bytes holds four alphabet characters, and the bytes are their 6-bit values joined. */
  lemma DecodedFullGroup(c0: char, c1: char, c2: char, c3: char, last: bool, g: seq<byte>)
    requires DecodeGroup(c0, c1, c2, c3, last) == Some(g) && |g| == 3
    ensures CharIndex(c0).Some? && CharIndex(c1).Some? && CharIndex(c2).Some? && CharIndex(c3).Some?
    ensures var v0, v1, v2, v3 := CharIndex(c0).value, CharIndex(c1).value, CharIndex(c2).value, CharIndex(c3).value;
      g == [v0 * 4 + v1 / 16, (v1 % 16) * 16 + v2 / 4, (v2 % 4) * 64 + v3]
  {
  }

  /** The group written for the bytes that four 6-bit values join into spells those values. */
  lemma GroupOfValues(v0: int, v1: int, v2: int, v3: int, b0: byte, b1: byte, b2: byte)
    requires 0 <= v0 < 64 && 0 <= v1 < 64 && 0 <= v2 < 64 && 0 <= v3 < 64
    requires b0 == v0 * 4 + v1 / 16 && b1 == (v1 % 16) * 16 + v2 / 4 && b2 == (v2 % 4) * 64 + v3
    ensures Group3(b0, b1, b2) == [IndexChar(v0), IndexChar(v1), IndexChar(v2), IndexChar(v3)]
  {
    SplitThree(v0, v1, v2, v3);
  }

  /** A group of four alphabet characters is what `Encode` writes for the three bytes it decodes to. */
  lemma EncodeFullGroup(c0: char, c1: char, c2: char, c3: char, last: bool, g: seq<byte>)
    requires DecodeGroup(c0, c1, c2, c3, last) == Some(g) && |g| == 3
    ensures Group3(g[0], g[1], g[2]) == [c0, c1, c2, c3]
  {
    DecodedFullGroup(c0, c1, c2, c3, last, g);
    GroupOfValues(CharIndex(c0).value, CharIndex(c1).value, CharIndex(c2).value, CharIndex(c3).value, g[0], g[1], g[2]);
  }

  /** An accepted `=` group is the last, its third character leaves zero unused bits, and it decodes to two bytes. */
  lemma DecodedTwoGroup(c0: char, c1: char, c2: char, c3: char, last: bool, g: seq<byte>)
    requires DecodeGroup(c0, c1, c2, c3, last) == Some(g) && |g| == 2
    ensures last && c3 == '=' && CharIndex(c0).Some? && CharIndex(c1).Some? && CharIndex(c2).Some?
    ensures var v0, v1, v2 := CharIndex(c0).value, CharIndex(c1).value, CharIndex(c2).value;
      v2 % 4 == 0 && g == [v0 * 4 + v1 / 16, (v1 % 16) * 16 + v2 / 4]
  {
  }

  /** An accepted `=` group is what `Encode` writes for its two final bytes. */
  lemma EncodeTwoGroup(c0: char, c1: char, c2: char, c3: char, last: bool, g: seq<byte>)
    requires DecodeGroup(c0, c1, c2, c3, last) == Some(g) && |g| == 2
    ensures last && Group2(g[0], g[1]) == [c0, c1, c2, c3]
  {
    DecodedTwoGroup(c0, c1, c2, c3, last, g);
    var v0, v1, v2 := CharIndex(c0).value, CharIndex(c1).value, CharIndex(c2).value;
    SplitThree(v0, v1, v2, 0);
  }

  /** An accepted `==` group is what `Encode` writes for its final byte. */
  lemma EncodeOneGroup(c0: char, c1: char, c2: char, c3: char, last: bool, g: seq<byte>)
    requires DecodeGroup(c0, c1, c2, c3, last) == Some(g) && |g| == 1
    ensures last && Group1(g[0]) == [c0, c1, c2, c3]
  {
    var v0, v1 := CharIndex(c0).value, CharIndex(c1).value;
    SplitThree(v0, v1, 0, 0);
  }

  /** The encoding of a full group followed by more bytes. */
  lemma EncodeThreeThen(g: seq<byte>, rest: seq<byte>)
    requires |g| == 3
    ensures Encode(g + rest) == Group3(g[0], g[1], g[2]) + Encode(rest)
  {
    assert (g + rest)[3..] == rest;
  }

  /**
   * Every accepted text is the encoding of what it decodes to, so each byte
   * sequence has exactly one accepted text.
   */
  lemma {:induction false} EncodeDecode(s: string)
    requires Decode(s).Some?
    ensures Encode(Decode(s).value) == s
    decreases |s|
  {
    if |s| > 0 {
      var g := DecodeGroup(s[0], s[1], s[2], s[3], |s| == 4).value;
      var rest := Decode(s[4..]).value;
      EncodeDecode(s[4..]);
      EncodeGroupThen(s, g, rest);
    }
  }

  /** A decoded leading group followed by text that is already the encoding of the rest. */
  lemma EncodeGroupThen(s: string, g: seq<byte>, rest: seq<byte>)
    requires |s| >= 4 && DecodeGroup(s[0], s[1], s[2], s[3], |s| == 4) == Some(g)
    requires Decode(s[4..]) == Some(rest) && Encode(rest) == s[4..]
    ensures Encode(g + rest) == s
  {
    if |g| == 3 {
      EncodeFullGroupThen(s, g, rest);
    } else {
      EncodeLastGroup(s, g);
      assert s[4..] == [];
      assert g + rest == g;
    }
  }

  /** A full leading group followed by the encoding of the rest. */
  lemma EncodeFullGroupThen(s: string, g: seq<byte>, rest: seq<byte>)
    requires |s| >= 4 && DecodeGroup(s[0], s[1], s[2], s[3], |s| == 4) == Some(g) && |g| == 3
    requires Encode(rest) == s[4..]
    ensures Encode(g + rest) == s
  {
    EncodeFullGroup(s[0], s[1], s[2], s[3], |s| == 4, g);
    EncodeThreeThen(g, rest);
    ConsFour(s);
  }

  /** A padded group is the whole text, and it is the encoding of its bytes. */
  lemma EncodeLastGroup(s: string, g: seq<byte>)
    requires |s| >= 4 && DecodeGroup(s[0], s[1], s[2], s[3], |s| == 4) == Some(g) && |g| < 3
    ensures |s| == 4 && Encode(g) == s
  {
    if |g| == 2 {
      EncodeTwoGroup(s[0], s[1], s[2], s[3], |s| == 4, g);
    } else {
      EncodeOneGroup(s[0], s[1], s[2], s[3], |s| == 4, g);
    }
    ConsFour(s);
  }

  /** Text of four characters or more is its first four followed by the rest. */
  lemma ConsFour(s: string)
    requires |s| >= 4
    ensures [s[0], s[1], s[2], s[3]] + s[4..] == s
  {
  }

  /** Two accepted texts that decode to the same bytes are the same text. */
  lemma DecodeInjective(s: string, t: string)
    requires Decode(s).Some? && Decode(s) == Decode(t)
    ensures s == t
  {
    EncodeDecode(s);
    EncodeDecode(t);
  }
}
