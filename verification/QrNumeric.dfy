/** Numeric mode, with the decoder of section 7.4.3 of ISO/IEC 18004:2015. */
module QrNumeric {
  import opened Wrappers
  import opened BitBuffer
  import opened QrText

  type Digit = d: int | 0 <= d < 10

  function Decimal(n: int, d: int): int {
    n * 10 + d
  }

  function DigitsValue(digits: seq<Digit>): (v: int)
    ensures v >= 0
  {
    if digits == [] then 0 else Decimal(DigitsValue(digits[..|digits| - 1]), digits[|digits| - 1])
  }

  /** Groups of three digits as ten bits each, one or two left over as four or seven. */
  function NumericBits(digits: seq<Digit>): seq<bool> {
    if |digits| >= 3 then Bits(DigitsValue(digits[..3]), 10) + NumericBits(digits[3..])
    else if digits == [] then []
    else Bits(DigitsValue(digits), 3 * |digits| + 1)
  }

  lemma {:induction false} NumericLength(digits: seq<Digit>)
    ensures |NumericBits(digits)| == BitsNeeded(Numeric, |digits|)
  {
    if |digits| >= 3 {
      NumericLength(digits[3..]);
      assert |digits| / 3 == (|digits| - 3) / 3 + 1;
    }
  }

  lemma {:induction false} NumericBitsConcat(a: seq<Digit>, b: seq<Digit>)
    requires |a| % 3 == 0
    ensures NumericBits(a + b) == NumericBits(a) + NumericBits(b)
  {
    if a == [] {
      assert a + b == b;
    } else {
      assert (a + b)[..3] == a[..3] && (a + b)[3..] == a[3..] + b;
      NumericBitsConcat(a[3..], b);
    }
  }

  lemma {:induction false} ShortDigits(digits: seq<Digit>)
    requires |digits| <= 3
    ensures |digits| == 0 ==> DigitsValue(digits) == 0
    ensures |digits| == 1 ==> DigitsValue(digits) == digits[0]
    ensures |digits| == 2 ==> DigitsValue(digits) == Decimal(digits[0], digits[1])
    ensures |digits| == 3 ==> DigitsValue(digits) == Decimal(Decimal(digits[0], digits[1]), digits[2])
  {
    if |digits| > 0 {
      ShortDigits(digits[..|digits| - 1]);
    }
  }

  lemma {:induction false} DigitsFit(digits: seq<Digit>)
    requires 1 <= |digits| <= 3
    ensures DigitsValue(digits) < Pow2(if |digits| == 3 then 10 else 3 * |digits| + 1)
  {
    ShortDigits(digits);
    SmallPowers();
  }

  /** The decoder of a numeric segment of `count` characters. */
  function DecodeNumeric(bits: seq<bool>, count: nat): Option<seq<Digit>> {
    if count >= 3 then
      if |bits| < 10 || Number(bits[..10]) >= 1000 then None
      else
        var n := Number(bits[..10]);
        match DecodeNumeric(bits[10..], count - 3)
        case None => None
        case Some(rest) => Some([n / 100, n / 10 % 10, n % 10] + rest)
    else if count == 2 then
      if |bits| != 7 || Number(bits) >= 100 then None else Some([Number(bits) / 10, Number(bits) % 10])
    else if count == 1 then
      if |bits| != 4 || Number(bits) >= 10 then None else Some([Number(bits)])
    else if bits == [] then Some([])
    else None
  }

  /** A group of three digits reads back. */
  lemma {:induction false} GroupDigits(a: int, b: int, c: int)
    requires 0 <= a < 10 && 0 <= b < 10 && 0 <= c < 10
    ensures var n := Decimal(Decimal(a, b), c); n < 1000 && n / 100 == a && n / 10 % 10 == b && n % 10 == c
    ensures Decimal(a, b) < 100 && Decimal(a, b) / 10 == a && Decimal(a, b) % 10 == b
  {
  }

  lemma {:induction false} NumericRoundTrip(digits: seq<Digit>)
    ensures DecodeNumeric(NumericBits(digits), |digits|) == Some(digits)
  {
    if |digits| >= 3 {
      var head := digits[..3];
      var bits := NumericBits(digits);
      assert bits[..10] == Bits(DigitsValue(head), 10) && bits[10..] == NumericBits(digits[3..]);
      NumericRoundTrip(digits[3..]);
      HeadReadsBack(head);
      assert digits == head + digits[3..];
    } else if digits != [] {
      TailReadsBack(digits);
    }
  }

  lemma {:induction false} TailReadsBack(digits: seq<Digit>)
    requires 1 <= |digits| <= 2
    ensures DecodeNumeric(Bits(DigitsValue(digits), 3 * |digits| + 1), |digits|) == Some(digits)
  {
    ShortDigits(digits);
    DigitsFit(digits);
    var bits := Bits(DigitsValue(digits), 3 * |digits| + 1);
    NumberOfBits(DigitsValue(digits), 3 * |digits| + 1);
    if |digits| == 2 {
      GroupDigits(digits[0], digits[1], 0);
      assert [Number(bits) / 10, Number(bits) % 10] == digits;
    } else {
      assert [Number(bits)] == digits;
    }
  }

  lemma {:induction false} HeadReadsBack(head: seq<Digit>)
    requires |head| == 3
    ensures var n := Number(Bits(DigitsValue(head), 10));
            n < 1000 && [n / 100, n / 10 % 10, n % 10] == head
  {
    ShortDigits(head);
    DigitsFit(head);
    NumberOfBits(DigitsValue(head), 10);
    GroupDigits(head[0], head[1], head[2]);
  }

  function ToDigit(c: int): Digit
    requires IsDigit(c)
  {
    c - 48
  }

  function Digits(text: seq<CChar>): (digits: seq<Digit>)
    requires AllDigits(text)
    ensures |digits| == |text|
  {
    seq(|text|, i requires 0 <= i < |text| => ToDigit(text[i]))
  }

  /** One more digit in the group that is being collected. */
  lemma {:induction false} GroupStep(done: seq<Digit>, group: seq<Digit>, d: Digit)
    requires |done| % 3 == 0 && |group| < 3
    ensures DigitsValue(group + [d]) == Decimal(DigitsValue(group), d)
    ensures |group| == 2 ==> DigitsValue(group + [d]) < Pow2(10)
    ensures |group| == 2 ==> NumericBits(done + (group + [d])) == NumericBits(done) + Bits(DigitsValue(group + [d]), 10)
  {
    var b := group + [d];
    assert b[..|group|] == group;
    DigitsFit(b);
    NumericBitsConcat(done, b);
    if |group| == 2 {
      assert b[..3] == b && b[3..] == [];
      assert Bits(DigitsValue(b), 10) + [] == Bits(DigitsValue(b), 10);
    }
  }

  lemma {:induction false} DigitsStep(text: seq<CChar>, i: nat, d: Digit, done: seq<Digit>, group: seq<Digit>)
    requires i < |text| && AllDigits(text[..i]) && IsDigit(text[i]) && d == ToDigit(text[i])
    requires Digits(text[..i]) == done + group
    ensures AllDigits(text[..i + 1]) && Digits(text[..i + 1]) == done + (group + [d])
  {
    var more := text[..i + 1];
    assert more == text[..i] + [text[i]];
    forall j | 0 <= j < i + 1 ensures Digits(more)[j] == (done + (group + [d]))[j] {
      if j < i {
        assert Digits(text[..i])[j] == ToDigit(text[..i][j]);
      }
    }
  }

  /** `makeNumeric`; no result stands for the exception. */
  method MakeNumeric(text: seq<CChar>) returns (r: Option<Segment>)
    ensures r.Some? <==> AllDigits(text)
    ensures r.Some? ==> Packed(r.value, Numeric, |text|, NumericBits(Digits(text)))
  {
    var bb := new Buffer();
    var accumData, accumCount := 0, 0;
    ghost var done: seq<Digit>, group: seq<Digit>, n := [], [], 0;
    for i := 0 to |text|
      invariant bb.Valid() && AllDigits(text[..i]) && Digits(text[..i]) == done + group
      invariant |done| == 3 * n && |group| == accumCount < 3
      invariant accumData == DigitsValue(group) && bb.Contents() == NumericBits(done)
    {
      var c := text[i];
      if c < 48 || c > 57 {
        assert !IsDigit(text[i]);
        return None;
      }
      var d: Digit := ToDigit(c);
      DigitsStep(text, i, d, done, group);
      Multiples(n);
      GroupStep(done, group, d);
      accumData := Decimal(accumData, d);
      accumCount := accumCount + 1;
      group := group + [d];
      if accumCount == 3 {
        var ok := bb.AppendBits(accumData, 10);
        accumData, accumCount := 0, 0;
        done, group, n := done + group, [], n + 1;
      }
    }
    assert text[..|text|] == text;
    Multiples(n);
    NumericBitsConcat(done, group);
    if accumCount > 0 {
      DigitsFit(group);
      var ok := bb.AppendBits(accumData, accumCount * 3 + 1);
    }
    r := Some(Segment(Numeric, |text|, bb.data, bb.bitLength));
  }
}
