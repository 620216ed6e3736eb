/**
 * The ZATCA Phase 1 QR payload: each value becomes a TLV record (one tag byte,
 * one length byte holding the UTF-8 byte count, then the UTF-8 bytes); the
 * records are joined as hex text, turned back into bytes and base 64 encoded.
 */
module Tlv {
  import opened Wrappers
  import opened Hex
  import Utf8
  import Base64

  /** The `ValueError`s the encoder can raise. */
  datatype EncodeError =
    | TagOutOfRange(tag: int)                  // `bytes(tag)` with a tag outside 0..255
    | ValueTooLong(tag: int, byteLength: nat)  // `bytes([n])` with a UTF-8 length n above 255
    | InvalidHex                               // `bytes.fromhex` on text that is not hex

  /** One decoded TLV record. */
  datatype Field = Field(tag: byte, value: seq<byte>)

  /** Every value fits the one-byte length field. */
  predicate Representable(fs: seq<Field>) {
    forall i :: 0 <= i < |fs| ==> |fs[i].value| < 256
  }

  /** The TLV byte layout of a list of records. */
  function Serialize(fs: seq<Field>): (b: seq<byte>)
    requires Representable(fs)
    ensures |b| >= 2 * |fs|
  {
    if fs == [] then [] else [fs[0].tag, |fs[0].value|] + fs[0].value + Serialize(fs[1..])
  }

  /** Reads TLV records back: tag, length, then that many value bytes, until the input ends. */
  function Parse(b: seq<byte>): (r: Option<seq<Field>>)
    ensures r.Some? ==> 2 * |r.value| <= |b| && Representable(r.value)
    decreases |b|
  {
    if b == [] then Some([])
    else if |b| < 2 then None
    else
      var n := b[1] as int;
      if |b| < 2 + n then None
      else match Parse(b[2 + n..])
        case None => None
        case Some(rest) => Some([Field(b[0], b[2..2 + n])] + rest)
  }

  /** Parsing the layout of a list of records gives the records back. */
  lemma {:induction false} ParseSerialize(fs: seq<Field>)
    requires Representable(fs)
    ensures Parse(Serialize(fs)) == Some(fs)
  {
    if fs != [] {
      var f := fs[0];
      var b := Serialize(fs);
      assert b[1] == |f.value|;
      assert b[2..2 + |f.value|] == f.value;
      assert b[2 + |f.value|..] == Serialize(fs[1..]);
      ParseSerialize(fs[1..]);
      assert [f] + fs[1..] == fs;
    }
  }

  lemma {:induction false} SerializeAppend(fs: seq<Field>, gs: seq<Field>)
    requires Representable(fs) && Representable(gs)
    ensures Representable(fs + gs)
    ensures Serialize(fs + gs) == Serialize(fs) + Serialize(gs)
  {
    if fs == [] {
      assert fs + gs == gs;
    } else {
      assert (fs + gs)[1..] == fs[1..] + gs;
      SerializeAppend(fs[1..], gs);
    }
  }

  /**
   * `_encode_input(value, [tag])`: the record for one value as lower-case hex.
   * The tag is checked before the length, and nothing is ever truncated.
   */
  function EncodeInput(value: string, tag: int): (r: Result<string, EncodeError>)
    ensures r.Ok? <==> 0 <= tag < 256 && |Utf8.Encode(value)| < 256
    ensures !(0 <= tag < 256) ==> r == Err(TagOutOfRange(tag))
    ensures 0 <= tag < 256 && |Utf8.Encode(value)| >= 256 ==> r == Err(ValueTooLong(tag, |Utf8.Encode(value)|))
    ensures r.Ok? ==>
      var u := Utf8.Encode(value);
      && |r.value| == 2 * (2 + |u|)
      && FromHex(r.value) == Some([tag, |u|] + u)
      && r.value == ToHex(Serialize([Field(tag, u)]))
  {
    if !(0 <= tag < 256) then Err(TagOutOfRange(tag))
    else
      var u := Utf8.Encode(value);
      if |u| >= 256 then Err(ValueTooLong(tag, |u|))
      else
        RecordHex(tag, u);
        Ok(ToHex([tag]) + ToHex([|u|]) + ToHex(u))
  }

  /** The three hex pieces of a record spell the record's TLV layout. */
  lemma RecordHex(tag: byte, u: seq<byte>)
    requires |u| < 256
    ensures var text := ToHex([tag]) + ToHex([|u|]) + ToHex(u);
      && |text| == 2 * (2 + |u|)
      && text == ToHex(Serialize([Field(tag, u)]))
      && FromHex(text) == Some([tag, |u|] + u)
  {
    ToHexAppend([tag], [|u|]);
    ToHexAppend([tag] + [|u|], u);
    assert [tag] + [|u|] + u == [tag, |u|] + u;
    assert Serialize([Field(tag, u)]) == [tag, |u|] + u + Serialize([]);
    assert [tag, |u|] + u + [] == [tag, |u|] + u;
    FromHexToHex([tag, |u|] + u);
  }

  /** `encoded_text` once the loop of `_generate_decoded_string` has seen all values (tags 1, 2, ...). */
  function EncodedText(values: seq<string>): (r: Result<string, EncodeError>)
    decreases |values|
  {
    if values == [] then Ok("")
    else
      match EncodedText(values[..|values| - 1])
      case Err(e) => Err(e)
      case Ok(prefix) =>
        (match EncodeInput(values[|values| - 1], |values|)
         case Err(e) => Err(e)
         case Ok(record) => Ok(prefix + record))
  }

  /** `_generate_decoded_string(values)`: base 64 of the bytes the hex text spells. */
  function Payload(values: seq<string>): (r: Result<string, EncodeError>)
    ensures EncodedText(values).Err? ==> r == EncodedText(values)
    ensures r.Ok? ==> EncodedText(values).Ok? && Base64.Decode(r.value) == FromHex(EncodedText(values).value)
  {
    match EncodedText(values)
    case Err(e) => Err(e)
    case Ok(text) =>
      (match FromHex(text)
       case None => Err(InvalidHex)
       case Some(raw) => Base64.DecodeEncode(raw); Ok(Base64.Encode(raw)))
  }

  /** The values can be encoded: at most 255 of them, each at most 255 UTF-8 bytes. */
  predicate Fits(values: seq<string>) {
    |values| < 256 && forall i :: 0 <= i < |values| ==> |Utf8.Encode(values[i])| < 256
  }

  /** The records the payload must hold: tags 1..n in list order, UTF-8 values. */
  function Fields(values: seq<string>): (fs: seq<Field>)
    requires Fits(values)
    ensures |fs| == |values| && Representable(fs)
  {
    seq(|values|, i requires 0 <= i < |values| => Field(i + 1, Utf8.Encode(values[i])))
  }

  /** A list fits exactly when its prefix fits and its last value fits under the next tag. */
  lemma FitsSnoc(values: seq<string>)
    requires values != []
    ensures Fits(values) <==>
      Fits(values[..|values| - 1]) && |values| < 256 && |Utf8.Encode(values[|values| - 1])| < 256
  {
    var init := values[..|values| - 1];
    assert forall i :: 0 <= i < |init| ==> init[i] == values[i];
  }

  /** Adding a value at the end adds the record with the next tag. */
  lemma FieldsSnoc(values: seq<string>)
    requires values != [] && Fits(values)
    ensures Fits(values[..|values| - 1])
    ensures Fields(values) == Fields(values[..|values| - 1]) + [Field(|values|, Utf8.Encode(values[|values| - 1]))]
  {
    var init := values[..|values| - 1];
    assert forall i :: 0 <= i < |init| ==> init[i] == values[i];
  }

  /** The hex text is exactly the TLV layout of tags 1..n, and it fails exactly when a value does not fit. */
  lemma {:induction false} EncodedTextIsRecords(values: seq<string>)
    ensures EncodedText(values).Ok? <==> Fits(values)
    ensures Fits(values) ==> EncodedText(values) == Ok(ToHex(Serialize(Fields(values))))
  {
    if values != [] {
      var n := |values|;
      var init := values[..n - 1];
      var u := Utf8.Encode(values[n - 1]);
      EncodedTextIsRecords(init);
      FitsSnoc(values);
      if !Fits(init) {
        assert EncodedText(init).Err?;
      } else if n < 256 && |u| < 256 {
        FieldsSnoc(values);
        SerializeAppend(Fields(init), [Field(n, u)]);
        ToHexAppend(Serialize(Fields(init)), Serialize([Field(n, u)]));
      } else {
        assert EncodeInput(values[n - 1], n).Err?;
      }
    }
  }

  /** Once a prefix of the values fails, the whole encoding fails with the same error. */
  lemma {:induction false} EncodedTextErrorSticks(values: seq<string>, k: nat)
    requires k <= |values|
    requires EncodedText(values[..k]).Err?
    ensures EncodedText(values) == EncodedText(values[..k])
    decreases |values|
  {
    if k < |values| {
      var init := values[..|values| - 1];
      assert init[..k] == values[..k];
      EncodedTextErrorSticks(init, k);
    } else {
      assert values[..k] == values;
    }
  }

  /** Text the encoding loop completes is always valid hex, so `bytes.fromhex` never raises on it. */
  lemma HexTextIsHex(values: seq<string>)
    requires EncodedText(values).Ok?
    ensures FromHex(EncodedText(values).value).Some?
    ensures Payload(values) == Ok(Base64.Encode(FromHex(EncodedText(values).value).value))
  {
    EncodedTextIsRecords(values);
    FromHexToHex(Serialize(Fields(values)));
  }

  /** One more turn of the encoding loop: the record of value i, tagged i + 1, is appended. */
  lemma EncodedTextStep(values: seq<string>, i: nat)
    requires i < |values|
    ensures EncodedText(values[..i + 1]) ==
      match (EncodedText(values[..i]), EncodeInput(values[i], i + 1))
      case (Err(e), _) => Err(e)
      case (Ok(_), Err(e)) => Err(e)
      case (Ok(prefix), Ok(record)) => Ok(prefix + record)
  {
    assert values[..i + 1][..i] == values[..i];
    assert values[..i + 1][i] == values[i];
  }

  /** Splits text into base 64, TLV records and UTF-8 values: what a ZATCA scanner reads. */
  function DecodePayload(s: string): (r: Option<seq<(int, string)>>)
  {
    match Base64.Decode(s)
    case None => None
    case Some(raw) =>
      (match Parse(raw)
       case None => None
       case Some(fs) =>
         if forall i :: 0 <= i < |fs| ==> Utf8.Decode(fs[i].value).Some? then
           Some(seq(|fs|, i requires 0 <= i < |fs| && Utf8.Decode(fs[i].value).Some? =>
             (fs[i].tag as int, Utf8.Decode(fs[i].value).value)))
         else None)
  }

  /** Each value paired with its 1-based position. */
  function Numbered(values: seq<string>): (r: seq<(int, string)>)
    ensures |r| == |values|
  {
    seq(|values|, i requires 0 <= i < |values| => (i + 1, values[i]))
  }

  /**
   * The payload succeeds exactly when the values fit, and then reading it back
   * yields the TLV layout of tags 1..n and, from that, the original values.
   */
  lemma PayloadRoundTrip(values: seq<string>)
    ensures Payload(values).Ok? <==> Fits(values)
    ensures Payload(values).Ok? ==>
      && Base64.Decode(Payload(values).value) == Some(Serialize(Fields(values)))
      && DecodePayload(Payload(values).value) == Some(Numbered(values))
  {
    EncodedTextIsRecords(values);
    if Fits(values) {
      var fs := Fields(values);
      var raw := Serialize(fs);
      FromHexToHex(raw);
      assert Payload(values) == Ok(Base64.Encode(raw));
      Base64.DecodeEncode(raw);
      ParseSerialize(fs);
      forall i | 0 <= i < |fs|
        ensures Utf8.Decode(fs[i].value) == Some(values[i])
      {
        Utf8.DecodeEncode(values[i]);
      }
      DecodeFieldsOfValues(values, Base64.Encode(raw));
    }
  }

  /** Decoding the records of tags 1..n gives each value back with its position. */
  lemma DecodeFieldsOfValues(values: seq<string>, s: string)
    requires Fits(values)
    requires forall i :: 0 <= i < |values| ==> Utf8.Decode(Fields(values)[i].value) == Some(values[i])
    requires Base64.Decode(s) == Some(Serialize(Fields(values)))
    ensures DecodePayload(s) == Some(Numbered(values))
  {
    var fs := Fields(values);
    ParseSerialize(fs);
    var decoded := seq(|fs|, i requires 0 <= i < |fs| && Utf8.Decode(fs[i].value).Some? =>
      (fs[i].tag as int, Utf8.Decode(fs[i].value).value));
    assert |decoded| == |Numbered(values)|;
    assert forall i :: 0 <= i < |decoded| ==> decoded[i] == Numbered(values)[i];
    assert decoded == Numbered(values);
  }

  /** `_generate_decoded_string`: appends each record's hex to `encoded_text`, then converts. */
  method GenerateDecodedString(values: seq<string>) returns (r: Result<string, EncodeError>)
    ensures r == Payload(values)
    ensures r.Ok? <==> Fits(values)
    ensures r.Ok? ==> DecodePayload(r.value) == Some(Numbered(values))
  {
    var encoded := "";
    var i := 0;
    while i < |values|
      invariant 0 <= i <= |values|
      invariant EncodedText(values[..i]) == Ok(encoded)
    {
      var record := EncodeInput(values[i], i + 1);
      EncodedTextStep(values, i);
      if record.Err? {
        EncodedTextErrorSticks(values, i + 1);
        r := Err(record.error);
        PayloadRoundTrip(values);
        return;
      }
      encoded := encoded + record.value;
      i := i + 1;
    }
    assert values[..i] == values;
    HexTextIsHex(values);
    var raw := FromHex(encoded).value;
    r := Ok(Base64.Encode(raw));
    PayloadRoundTrip(values);
  }
}
