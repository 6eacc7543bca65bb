/** `makeSegments`: texts as segments, and segments read back by mode. */
module QrSegment {
  import opened Wrappers
  import opened BitBuffer
  import opened QrText
  import opened QrNumeric
  import opened QrAlphanumeric

  function ToChar(n: nat): CChar
    requires n < 256 && n != 0
  {
    if n < 128 then n else n - 256
  }

  /** The conversion of a `char` to `uint8_t`. */
  function ToUint8(c: int): nat {
    c % 256
  }

  function ByteOf(c: CChar): Byte {
    Bits(ToUint8(c), 8)
  }

  function DecodeBytes(data: seq<Byte>): Option<seq<CChar>> {
    if data == [] then Some([])
    else if Number(data[0]) == 0 || Number(data[0]) >= 256 then None
    else
      match DecodeBytes(data[1..])
      case None => None
      case Some(rest) => Some([ToChar(Number(data[0]))] + rest)
  }

  /** The characters of a segment. */
  function Decode(s: Segment): Option<seq<CChar>> {
    if !WellSized(s) then None
    else
      match s.mode
      case Numeric =>
        (match DecodeNumeric(SegmentBits(s), s.numChars)
         case None => None
         case Some(digits) => Some(seq(|digits|, i requires 0 <= i < |digits| => FromDigit(digits[i]))))
      case Alphanumeric =>
        (match DecodeAlphanumeric(SegmentBits(s), s.numChars)
         case None => None
         case Some(values) => if Codes(values) then Some(Characters(values)) else None)
      case ByteMode => if |s.data| == s.numChars then DecodeBytes(s.data) else None
  }

  function FromDigit(d: Digit): CChar {
    d + 48
  }

  function DecodeAll(segments: seq<Segment>): Option<seq<CChar>> {
    if segments == [] then Some([])
    else if Decode(segments[0]).None? || DecodeAll(segments[1..]).None? then None
    else Some(Decode(segments[0]).value + DecodeAll(segments[1..]).value)
  }

  lemma {:induction false} NumericDecodes(s: Segment, text: seq<CChar>)
    requires AllDigits(text) && Packed(s, Numeric, |text|, NumericBits(Digits(text)))
    ensures Decode(s) == Some(text)
  {
    var digits := Digits(text);
    NumericRoundTrip(digits);
    assert seq(|digits|, i requires 0 <= i < |digits| => FromDigit(digits[i])) == text;
  }

  lemma {:induction false} AlphanumericDecodes(s: Segment, text: seq<CChar>)
    requires AllEncodable(text) && Encoding(text).Some? && Packed(s, Alphanumeric, |text|, Encoding(text).value)
    ensures Decode(s) == Some(text)
  {
    var values := TableValues(text);
    forall i | 0 <= i < |text| ensures 0 <= values[i] < 45 && Inverse(values[i]) == text[i] {
      assert IsEncodable(text[i]);
      CodeInverse(text[i]);
    }
    AlphanumericRoundTrip(values);
    assert Characters(values) == text;
  }

  lemma {:induction false} EncodableHasEncoding(text: seq<CChar>)
    requires AllEncodable(text)
    ensures Encoding(text).Some?
  {
    assert forall i | 0 <= i < |text| :: IsEncodable(text[i]) ==> InTable(text[i]);
    var values := TableValues(text);
    forall i | 0 <= i < |text| ensures 0 <= values[i] < 45 {
      assert IsEncodable(text[i]);
    }
    AlphanumericRoundTrip(values);
  }

  /**
   * On its own `makeAlphanumeric` is right exactly for the texts `isAlphanumeric` accepts: others it rejects or turns
   * into a segment that reads as something else.
   */
  lemma {:induction false} AlphanumericRightIff(s: Segment, text: seq<CChar>)
    requires Encoding(text).Some? && Packed(s, Alphanumeric, |text|, Encoding(text).value)
    ensures Decode(s) == Some(text) <==> AllEncodable(text)
  {
    if AllEncodable(text) {
      AlphanumericDecodes(s, text);
    } else if Decode(s).Some? {
      var values := DecodeAlphanumeric(SegmentBits(s), s.numChars).value;
      var i :| 0 <= i < |text| && !IsEncodable(text[i]);
      DecodedAreCodes(SegmentBits(s), s.numChars);
      InverseIsEncodable(values[i]);
      assert Decode(s).value[i] == Inverse(values[i]);
    }
  }

  lemma {:induction false} SamePairSameBits(a: Value, b: Value, c: Value, d: Value)
    requires Pair(a, b) == Pair(c, d) >= 0
    ensures AlphanumericBits([a, b]) == AlphanumericBits([c, d]) && AlphanumericBits([a, b]).Some?
  {
    assert [a, b][2..] == [] && [c, d][2..] == [];
  }

  lemma {:induction false} TwoCharacters(c: CChar, d: CChar)
    requires InTable(c) && InTable(d)
    ensures AllInTable([c, d]) && TableValues([c, d]) == [Code(c), Code(d)]
  {
  }

  /** A pair whose second character has no code is accepted when it comes out like another pair. */
  lemma {:induction false} PairsReadAlike(c: CChar, d: CChar, e: CChar, f: CChar)
    requires InTable(c) && InTable(d) && InTable(e) && InTable(f)
    requires Code(d) == -1 && Pair(Code(c), Code(d)) == Pair(Code(e), Code(f)) >= 0
    ensures !AllEncodable([c, d]) && Encoding([c, d]) == Encoding([e, f]) && Encoding([c, d]).Some?
  {
    assert !IsEncodable([c, d][1]);
    TwoCharacters(c, d);
    TwoCharacters(e, f);
    SamePairSameBits(Code(c), Code(d), Code(e), Code(f));
  }

  /** "1!" is accepted and gives the bits of "0:". */
  lemma {:induction false} BangReadsAsColon()
    ensures !AllEncodable([49, 33]) && Encoding([49, 33]) == Encoding([48, 58]) && Encoding([49, 33]).Some?
  {
    PairsReadAlike(49, 33, 48, 58);
  }

  lemma {:induction false} CharReadsBack(c: CChar)
    ensures var n := Number(ByteOf(c)); 0 < n < 256 && ToChar(n) == c
  {
    SmallPowers();
    Uint8ReadsBack(c);
    NumberOfBits(ToUint8(c), 8);
  }

  lemma {:induction false} Uint8ReadsBack(c: CChar)
    ensures 0 < ToUint8(c) < 256 && ToChar(ToUint8(c)) == c
  {
  }

  lemma {:induction false} BytesDecode(text: seq<CChar>, data: seq<Byte>)
    requires |data| == |text| && forall i | 0 <= i < |text| :: data[i] == ByteOf(text[i])
    ensures DecodeBytes(data) == Some(text)
  {
    if text != [] {
      CharReadsBack(text[0]);
      BytesDecode(text[1..], data[1..]);
      assert [text[0]] + text[1..] == text;
    }
  }

  /** `makeBytes`. */
  method MakeBytes(data: seq<Byte>) returns (s: Segment)
    ensures s == Segment(ByteMode, |data|, data, |data| * 8) && WellSized(s)
  {
    s := Segment(ByteMode, |data|, data, |data| * 8);
  }

  /** The first mode that can hold the text, all its characters, and no more bits than they need. */
  ghost predicate Holds(s: Segment, text: seq<CChar>) {
    && s.mode == (if AllDigits(text) then Numeric else if AllEncodable(text) then Alphanumeric else ByteMode)
    && s.numChars == |text| && s.bitLength == BitsNeeded(s.mode, |text|)
  }

  /** `makeSegments`: it never fails, and reading the segments gives the text back. */
  method MakeSegments(text: seq<CChar>) returns (result: Option<seq<Segment>>)
    ensures result.Some? && DecodeAll(result.value) == Some(text)
    ensures |result.value| == if text == [] then 0 else 1
    ensures text != [] ==> Holds(result.value[0], text)
  {
    if text == [] {
      return Some([]);
    }
    var s := MakeSegment(text);
    if s.None? {
      return None;
    }
    assert [s.value][1..] == [] && text + [] == text;
    result := Some([s.value]);
  }

  /** The one segment of a text that is not empty. */
  method MakeSegment(text: seq<CChar>) returns (s: Option<Segment>)
    ensures s.Some? && Decode(s.value) == Some(text) && Holds(s.value, text)
  {
    var numeric := IsNumeric(text);
    if numeric {
      s := MakeNumeric(text);
      NumericDecodes(s.value, text);
      NumericLength(Digits(text));
      return;
    }
    var alphanumeric := IsAlphanumeric(text);
    if alphanumeric {
      s := MakeAlphanumeric(text);
      EncodableHasEncoding(text);
      AlphanumericDecodes(s.value, text);
      AlphanumericLength(TableValues(text));
      return;
    }
    var bytes: seq<Byte> := [];
    for i := 0 to |text|
      invariant |bytes| == i && forall j | 0 <= j < i :: bytes[j] == ByteOf(text[j])
    {
      bytes := bytes + [ByteOf(text[i])];
    }
    var segment := MakeBytes(bytes);
    BytesDecode(text, bytes);
    s := Some(segment);
  }
}
