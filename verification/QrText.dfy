/** Segments of a QR code and the characters they can hold (`QrSegment`). */
module QrText {
  import opened BitBuffer

  /** A character of a C string: signed, and not the terminator. */
  type CChar = c: int | -128 <= c < 128 && c != 0 witness 1

  datatype Mode = Numeric | Alphanumeric | ByteMode

  datatype Segment = Segment(mode: Mode, numChars: nat, data: seq<Byte>, bitLength: nat)

  /** What the constructor checks. */
  predicate WellSized(s: Segment) {
    |s.data| == BytesFor(s.bitLength)
  }

  function SegmentBits(s: Segment): seq<bool>
    requires WellSized(s)
  {
    Prefix(s.data, s.bitLength)
  }

  /** A finished segment: as many bytes as its bits need, with zeros behind the last bit. */
  ghost predicate Packed(s: Segment, mode: Mode, numChars: nat, bits: seq<bool>) {
    && s.mode == mode && s.numChars == numChars
    && WellSized(s) && Clean(s.data, s.bitLength) && SegmentBits(s) == bits
  }

  /** The bits of `n` characters, by section 7.4 of ISO/IEC 18004:2015. */
  function BitsNeeded(mode: Mode, n: nat): nat {
    match mode
    case Numeric => n / 3 * 10 + (if n % 3 == 0 then 0 else if n % 3 == 1 then 4 else 7)
    case Alphanumeric => n / 2 * 11 + n % 2 * 6
    case ByteMode => n * 8
  }

  /** The modes in the order in which they are tried, shortest first. */
  lemma {:induction false} ShortestFirst(n: nat)
    ensures BitsNeeded(Numeric, n) <= BitsNeeded(Alphanumeric, n) <= BitsNeeded(ByteMode, n)
  {
    var a, b := n / 3, n / 2;
    assert n == 3 * a + n % 3 && n == 2 * b + n % 2;
  }

  predicate IsDigit(c: int) {
    48 <= c <= 57
  }

  predicate InTable(c: int) {
    32 <= c <= 90
  }

  /** `ALPHANUMERIC_ENCODING_TABLE`, by the character. */
  function Code(c: int): (v: int)
    requires InTable(c)
    ensures -1 <= v < 45
  {
    if 48 <= c <= 57 then c - 48
    else if 65 <= c <= 90 then c - 55
    else
      match c
      case 32 => 36
      case 36 => 37
      case 37 => 38
      case 42 => 39
      case 43 => 40
      case 45 => 41
      case 46 => 42
      case 47 => 43
      case 58 => 44
      case _ => -1
  }

  predicate IsEncodable(c: int) {
    InTable(c) && Code(c) != -1
  }

  predicate AllDigits(text: seq<CChar>) {
    forall i | 0 <= i < |text| :: IsDigit(text[i])
  }

  predicate AllInTable(text: seq<CChar>) {
    forall i | 0 <= i < |text| :: InTable(text[i])
  }

  predicate AllEncodable(text: seq<CChar>) {
    forall i | 0 <= i < |text| :: IsEncodable(text[i])
  }

  /** `isNumeric`. */
  method IsNumeric(text: seq<CChar>) returns (b: bool)
    ensures b <==> AllDigits(text)
  {
    for i := 0 to |text|
      invariant AllDigits(text[..i])
    {
      if text[i] < 48 || text[i] > 57 {
        return false;
      }
    }
    assert text[..|text|] == text;
    b := true;
  }

  /** `isAlphanumeric`. */
  method IsAlphanumeric(text: seq<CChar>) returns (b: bool)
    ensures b <==> AllEncodable(text)
  {
    for i := 0 to |text|
      invariant AllEncodable(text[..i])
    {
      if text[i] < 32 || text[i] > 90 || Code(text[i]) == -1 {
        return false;
      }
    }
    assert text[..|text|] == text;
    b := true;
  }

  lemma {:induction false} SmallPowers()
    ensures Pow2(4) == 16 && Pow2(6) == 64 && Pow2(7) == 128 && Pow2(8) == 256 && Pow2(10) == 1024 && Pow2(11) == 2048
  {
    assert Pow2(4) == 16;
    assert Pow2(7) == 8 * Pow2(4);
    assert Pow2(10) == 8 * Pow2(7);
  }

  lemma {:induction false} Multiples(n: nat)
    ensures (3 * n) % 3 == 0 && (2 * n) % 2 == 0
  {
  }
}
