/** Alphanumeric mode, with the decoder of section 7.4.4 of ISO/IEC 18004:2015. */
module QrAlphanumeric {
  import opened Wrappers
  import opened BitBuffer
  import opened QrText

  /** A code of the table, or its -1. */
  type Value = v: int | -1 <= v < 45

  function Pair(a: int, b: int): int {
    a * 45 + b
  }

  /** Pairs as eleven bits each, a single value left over as six; nothing if something negative comes out. */
  function AlphanumericBits(values: seq<Value>): Option<seq<bool>> {
    if |values| >= 2 then
      var v := Pair(values[0], values[1]);
      if v < 0 then None
      else
        match AlphanumericBits(values[2..])
        case None => None
        case Some(rest) => Some(Bits(v, 11) + rest)
    else if values == [] then Some([])
    else if values[0] < 0 then None
    else Some(Bits(values[0], 6))
  }

  lemma {:induction false} AlphanumericLength(values: seq<Value>)
    ensures AlphanumericBits(values).Some? ==> |AlphanumericBits(values).value| == BitsNeeded(Alphanumeric, |values|)
  {
    if |values| >= 2 {
      AlphanumericLength(values[2..]);
      assert |values| / 2 == (|values| - 2) / 2 + 1;
    }
  }

  function Joined(a: Option<seq<bool>>, b: Option<seq<bool>>): Option<seq<bool>> {
    if a.None? || b.None? then None else Some(a.value + b.value)
  }

  lemma {:induction false} AlphanumericBitsConcat(a: seq<Value>, b: seq<Value>)
    requires |a| % 2 == 0
    ensures AlphanumericBits(a + b) == Joined(AlphanumericBits(a), AlphanumericBits(b))
  {
    if a == [] {
      assert a + b == b;
      assert AlphanumericBits(b).Some? ==> [] + AlphanumericBits(b).value == AlphanumericBits(b).value;
    } else {
      assert (a + b)[2..] == a[2..] + b;
      AlphanumericBitsConcat(a[2..], b);
      if Pair(a[0], a[1]) >= 0 && AlphanumericBits(a[2..]).Some? && AlphanumericBits(b).Some? {
        var first := Bits(Pair(a[0], a[1]), 11);
        assert first + (AlphanumericBits(a[2..]).value + AlphanumericBits(b).value)
            == (first + AlphanumericBits(a[2..]).value) + AlphanumericBits(b).value;
      }
    }
  }

  /** The decoder of an alphanumeric segment of `count` characters. */
  function DecodeAlphanumeric(bits: seq<bool>, count: nat): Option<seq<nat>> {
    if count >= 2 then
      if |bits| < 11 || Number(bits[..11]) >= 45 * 45 then None
      else
        var n := Number(bits[..11]);
        match DecodeAlphanumeric(bits[11..], count - 2)
        case None => None
        case Some(rest) => Some([n / 45, n % 45] + rest)
    else if count == 1 then
      if |bits| != 6 || Number(bits) >= 45 then None else Some([Number(bits)])
    else if bits == [] then Some([])
    else None
  }

  predicate Codes(values: seq<int>) {
    forall i | 0 <= i < |values| :: 0 <= values[i] < 45
  }

  lemma {:induction false} DecodedAreCodes(bits: seq<bool>, count: nat)
    ensures DecodeAlphanumeric(bits, count).Some? ==> Codes(DecodeAlphanumeric(bits, count).value)
    ensures DecodeAlphanumeric(bits, count).Some? ==> |DecodeAlphanumeric(bits, count).value| == count
  {
    if count >= 2 && |bits| >= 11 {
      DecodedAreCodes(bits[11..], count - 2);
    }
  }

  lemma {:induction false} PairReadsBack(a: int, b: int)
    requires 0 <= a < 45 && 0 <= b < 45
    ensures 0 <= Pair(a, b) < 45 * 45 && Number(Bits(Pair(a, b), 11)) == Pair(a, b)
    ensures Pair(a, b) / 45 == a && Pair(a, b) % 45 == b
  {
    SmallPowers();
    NumberOfBits(Pair(a, b), 11);
  }

  lemma {:induction false} AlphanumericRoundTrip(values: seq<Value>)
    requires Codes(values)
    ensures AlphanumericBits(values).Some?
    ensures DecodeAlphanumeric(AlphanumericBits(values).value, |values|) == Some(values)
  {
    if |values| >= 2 {
      PairReadsBack(values[0], values[1]);
      AlphanumericRoundTrip(values[2..]);
      var rest := AlphanumericBits(values[2..]).value;
      HeadPairReadsBack(values[0], values[1], rest, values[2..]);
      assert AlphanumericBits(values) == Some(Bits(Pair(values[0], values[1]), 11) + rest);
      assert values == [values[0], values[1]] + values[2..];
    } else if values != [] {
      SingleReadsBack(values[0]);
      assert values == [values[0]];
    }
  }

  lemma {:induction false} HeadPairReadsBack(a: Value, b: Value, rest: seq<bool>, values: seq<Value>)
    requires 0 <= a && 0 <= b && DecodeAlphanumeric(rest, |values|) == Some(values)
    ensures DecodeAlphanumeric(Bits(Pair(a, b), 11) + rest, |values| + 2) == Some([a, b] + values)
  {
    PairReadsBack(a, b);
    var bits := Bits(Pair(a, b), 11) + rest;
    assert bits[..11] == Bits(Pair(a, b), 11) && bits[11..] == rest;
  }

  lemma {:induction false} SingleReadsBack(v: Value)
    requires 0 <= v
    ensures AlphanumericBits([v]) == Some(Bits(v, 6)) && DecodeAlphanumeric(Bits(v, 6), 1) == Some([v])
  {
    SmallPowers();
    NumberOfBits(v, 6);
  }

  /** The conversion of an `int` to `uint32_t`. */
  function ToUint32(v: int): (u: nat)
    ensures u < 0x1_0000_0000
  {
    v % 0x1_0000_0000
  }

  function TableValues(text: seq<CChar>): (values: seq<Value>)
    requires AllInTable(text)
    ensures |values| == |text|
  {
    seq(|text|, i requires 0 <= i < |text| => Code(text[i]))
  }

  /** A value to append fits exactly when it is not negative. */
  lemma {:induction false} FitsWhenPositive(v: int, len: nat)
    requires -46 <= v && ((len == 11 && v < 2048) || (len == 6 && v < 64))
    ensures 0 <= v <==> ToUint32(v) < Pow2(len)
    ensures 0 <= v ==> ToUint32(v) == v
  {
    SmallPowers();
  }

  lemma {:induction false} BadPrefix(values: seq<Value>, i: nat)
    requires i <= |values| && i % 2 == 0 && AlphanumericBits(values[..i]).None?
    ensures AlphanumericBits(values).None?
  {
    assert values == values[..i] + values[i..];
    AlphanumericBitsConcat(values[..i], values[i..]);
  }

  /** What `makeAlphanumeric` makes of a text, if anything. */
  function Encoding(text: seq<CChar>): Option<seq<bool>> {
    if AllInTable(text) then AlphanumericBits(TableValues(text)) else None
  }

  lemma {:induction false} RejectedPrefix(text: seq<CChar>, i: nat)
    requires i <= |text| && i % 2 == 0 && Encoding(text[..i]).None?
    ensures Encoding(text).None?
  {
    if AllInTable(text) {
      assert AllInTable(text[..i]);
      assert TableValues(text[..i]) == TableValues(text)[..i];
      BadPrefix(TableValues(text), i);
    }
  }

  /** `makeAlphanumeric`; it does not look for -1 in the table. */
  method MakeAlphanumeric(text: seq<CChar>) returns (r: Option<Segment>)
    ensures r.Some? <==> Encoding(text).Some?
    ensures r.Some? ==> Packed(r.value, Alphanumeric, |text|, Encoding(text).value)
  {
    var bb := new Buffer();
    var accumData, accumCount := 0, 0;
    ghost var done: seq<Value>, group: seq<Value>, n := [], [], 0;
    for i := 0 to |text|
      invariant bb.Valid() && AllInTable(text[..i]) && TableValues(text[..i]) == done + group
      invariant |done| == 2 * n && |group| == accumCount < 2
      invariant accumData == (if accumCount == 0 then 0 else group[0]) && AlphanumericBits(done) == Some(bb.Contents())
    {
      var c := text[i];
      if c < 32 || c > 90 {
        assert !InTable(text[i]);
        return None;
      }
      var v: Value := Code(c);
      TableStep(text, i, v, done, group);
      accumData := Pair(accumData, v);
      accumCount := accumCount + 1;
      group := group + [v];
      if accumCount == 2 {
        Multiples(n);
        Multiples(n + 1);
        assert group == [group[0], group[1]];
        assert i + 1 == 2 * (n + 1) && TableValues(text[..i + 1]) == done + group;
        var ok := AppendPair(bb, accumData, done, group[0], group[1]);
        if !ok {
          RejectedPrefix(text, i + 1);
          return None;
        }
        accumData, accumCount := 0, 0;
        done, group, n := done + group, [], n + 1;
        assert done + group == done;
      }
    }
    assert text[..|text|] == text;
    Multiples(n);
    if accumCount > 0 {
      assert group == [group[0]];
      var ok := AppendSingle(bb, accumData, done);
      if !ok {
        return None;
      }
    } else {
      assert done + group == done;
    }
    r := Some(Segment(Alphanumeric, |text|, bb.data, bb.bitLength));
  }

  /** The value of a pair is appended, unless it does not fit. */
  method AppendPair(bb: Buffer, data: int, ghost done: seq<Value>, ghost a: Value, ghost b: Value) returns (ok: bool)
    requires bb.Valid() && data == Pair(a, b) && |done| % 2 == 0 && AlphanumericBits(done) == Some(bb.Contents())
    modifies bb
    ensures bb.Valid() && ok == AlphanumericBits(done + [a, b]).Some?
    ensures ok ==> AlphanumericBits(done + [a, b]) == Some(bb.Contents())
  {
    AlphanumericBitsConcat(done, [a, b]);
    FitsWhenPositive(data, 11);
    assert [a, b][2..] == [];
    ok := bb.AppendBits(ToUint32(data), 11);
    if ok {
      assert Bits(data, 11) + [] == Bits(data, 11);
    }
  }

  /** The value of a single character is appended, unless it does not fit. */
  method AppendSingle(bb: Buffer, v: Value, ghost done: seq<Value>) returns (ok: bool)
    requires bb.Valid() && |done| % 2 == 0 && AlphanumericBits(done) == Some(bb.Contents())
    modifies bb
    ensures bb.Valid() && ok == AlphanumericBits(done + [v]).Some?
    ensures ok ==> AlphanumericBits(done + [v]) == Some(bb.Contents())
  {
    AlphanumericBitsConcat(done, [v]);
    FitsWhenPositive(v, 6);
    ok := bb.AppendBits(ToUint32(v), 6);
  }

  lemma {:induction false} TableStep(text: seq<CChar>, i: nat, v: Value, done: seq<Value>, group: seq<Value>)
    requires i < |text| && AllInTable(text[..i]) && InTable(text[i]) && v == Code(text[i])
    requires TableValues(text[..i]) == done + group
    ensures AllInTable(text[..i + 1]) && TableValues(text[..i + 1]) == done + (group + [v])
  {
    var more := text[..i + 1];
    assert more == text[..i] + [text[i]];
    forall j | 0 <= j < i + 1 ensures TableValues(more)[j] == (done + (group + [v]))[j] {
      if j < i {
        assert TableValues(text[..i])[j] == Code(text[..i][j]);
      }
    }
  }

  function Inverse(v: nat): CChar
    requires v < 45
  {
    if v < 10 then v + 48
    else if v < 36 then v + 55
    else
      match v
      case 36 => 32
      case 37 => 36
      case 38 => 37
      case 39 => 42
      case 40 => 43
      case 41 => 45
      case 42 => 46
      case 43 => 47
      case _ => 58
  }

  /** The characters behind the letters in table 5 of ISO/IEC 18004:2015. */
  const SIGNS := " $%*+-./:"

  /** The order of that table: the digits from 0 on, the letters from 10 on, the signs from 36 on, and nothing else. */
  lemma {:induction false} TableOrder(c: CChar, v: nat)
    requires v < 45
    ensures IsEncodable(c) && Code(c) == v
            <==> c == if v < 10 then '0' as int + v else if v < 36 then 'A' as int + (v - 10) else SIGNS[v - 36] as int
  {
    assert SIGNS[0] == ' ' && SIGNS[1] == '$' && SIGNS[2] == '%' && SIGNS[3] == '*' && SIGNS[4] == '+';
    assert SIGNS[5] == '-' && SIGNS[6] == '.' && SIGNS[7] == '/' && SIGNS[8] == ':';
    assert v < 36 || v in [36, 37, 38, 39, 40, 41, 42, 43, 44];
  }

  lemma {:induction false} InverseIsEncodable(v: nat)
    requires v < 45
    ensures IsEncodable(Inverse(v)) && Code(Inverse(v)) == v
  {
  }

  lemma {:induction false} CodeInverse(c: int)
    requires IsEncodable(c)
    ensures 0 <= Code(c) < 45 && Inverse(Code(c)) == c
  {
  }

  function Characters(values: seq<nat>): (text: seq<CChar>)
    requires Codes(values)
    ensures |text| == |values|
  {
    seq(|values|, i requires 0 <= i < |values| => Inverse(values[i]))
  }
}
