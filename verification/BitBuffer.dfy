/** `BitBuffer`: bits packed into bytes, most significant bit first. */
module BitBuffer {

  /** A `uint8_t` as its eight bits from the most significant one; `|=` with one bit sets it in place. */
  type Byte = b: seq<bool> | |b| == 8 witness [false, false, false, false, false, false, false, false]

  const ZERO: Byte := [false, false, false, false, false, false, false, false]

  function Pow2(n: nat): (p: nat)
    ensures p >= 1
  {
    if n == 0 then 1 else 2 * Pow2(n - 1)
  }

  /** The lowest `len` bits of a number, most significant first. */
  function Bits(val: nat, len: nat): (bits: seq<bool>)
    ensures |bits| == len
  {
    if len == 0 then [] else Bits(val / 2, len - 1) + [val % 2 == 1]
  }

  function Number(bits: seq<bool>): nat {
    if bits == [] then 0 else 2 * Number(bits[..|bits| - 1]) + if bits[|bits| - 1] then 1 else 0
  }

  lemma {:induction false} NumberOfBits(val: nat, len: nat)
    requires val < Pow2(len)
    ensures Number(Bits(val, len)) == val
  {
    if len > 0 {
      NumberOfBits(val / 2, len - 1);
      assert Bits(val, len)[..len - 1] == Bits(val / 2, len - 1);
    }
  }

  /** `(val >> i) & 1` is the bit at position `len - 1 - i`. */
  lemma {:induction false} BitsAt(val: nat, len: nat, i: nat)
    requires i < len
    ensures Bits(val, len)[len - 1 - i] == ((val / Pow2(i)) % 2 == 1)
  {
    if i > 0 {
      BitsAt(val / 2, len - 1, i - 1);
      DivideTwice(val, Pow2(i - 1));
    }
  }

  lemma {:induction false} DivideTwice(val: nat, p: nat)
    requires p > 0
    ensures val / 2 / p == val / (2 * p)
  {
    var q := val / (2 * p);
    var r := val - q * (2 * p);
    assert 0 <= r < 2 * p;
    assert val / 2 == q * p + r / 2;
    assert 0 <= r / 2 < p;
    QuotientIs(val / 2, p, q, r / 2);
  }

  lemma {:induction false} QuotientIs(val: int, p: int, q: int, r: int)
    requires 0 <= r < p && val == q * p + r
    ensures val / p == q
  {
    var d := val / p - q;
    assert val == (val / p) * p + val % p;
    assert d * p == r - val % p;
    assert d >= 1 ==> d * p >= p;
    assert d <= -1 ==> d * p <= -p;
  }

  function BitAt(data: seq<Byte>, k: nat): bool
    requires k < 8 * |data|
  {
    data[k / 8][k % 8]
  }

  function Prefix(data: seq<Byte>, n: nat): seq<bool>
    requires n <= 8 * |data|
  {
    seq(n, k requires 0 <= k < n => BitAt(data, k))
  }

  /** All bits from `n` on are zero. */
  ghost predicate Clean(data: seq<Byte>, n: nat) {
    forall k: nat | n <= k < 8 * |data| :: !BitAt(data, k)
  }

  function BytesFor(n: nat): nat {
    (n + 7) / 8
  }

  function SetBit(data: seq<Byte>, n: nat, bit: bool): seq<Byte>
    requires n < 8 * |data|
  {
    data[n / 8 := data[n / 8][n % 8 := data[n / 8][n % 8] || bit]]
  }

  lemma {:induction false} SetBitAppends(data: seq<Byte>, n: nat, bit: bool)
    requires n < 8 * |data| && Clean(data, n)
    ensures Prefix(SetBit(data, n, bit), n + 1) == Prefix(data, n) + [bit]
    ensures Clean(SetBit(data, n, bit), n + 1)
  {
    var after := SetBit(data, n, bit);
    forall k: nat | k < 8 * |data| ensures BitAt(after, k) == if k == n then BitAt(data, n) || bit else BitAt(data, k) {
      if k / 8 == n / 8 && k % 8 == n % 8 {
        assert k == n;
      }
    }
    assert !BitAt(data, n);
  }

  lemma {:induction false} PadKeeps(data: seq<Byte>, n: nat)
    requires n <= 8 * |data| && Clean(data, n)
    ensures Prefix(data + [ZERO], n) == Prefix(data, n) && Clean(data + [ZERO], n)
  {
    forall k: nat | k < 8 * |data| ensures BitAt(data + [ZERO], k) == BitAt(data, k) {
    }
    forall k: nat | 8 * |data| <= k < 8 * |data| + 8 ensures !BitAt(data + [ZERO], k) {
      assert (data + [ZERO])[k / 8] == ZERO;
    }
  }

  class Buffer {
    var data: seq<Byte>
    var bitLength: nat

    constructor ()
      ensures Valid() && Contents() == []
    {
      data, bitLength := [], 0;
    }

    /** No byte more than needed, and zeros after the last bit. */
    ghost predicate Valid()
      reads this
    {
      |data| == BytesFor(bitLength) && Clean(data, bitLength)
    }

    ghost function Contents(): seq<bool>
      reads this
      requires bitLength <= 8 * |data|
    {
      Prefix(data, bitLength)
    }

    method Grow(newBitLen: nat)
      requires Valid() && bitLength <= newBitLen
      modifies this`data
      ensures |data| == BytesFor(newBitLen) && Clean(data, bitLength) && Contents() == old(Contents())
    {
      while |data| * 8 < newBitLen
        invariant |data| <= BytesFor(newBitLen) && bitLength <= 8 * |data|
        invariant Clean(data, bitLength) && Contents() == old(Contents())
        decreases newBitLen - |data| * 8
      {
        PadKeeps(data, bitLength);
        data := data + [ZERO];
      }
    }

    method AppendBit(bit: bool)
      requires bitLength < 8 * |data| && Clean(data, bitLength)
      modifies this
      ensures bitLength == old(bitLength) + 1 && |data| == old(|data|)
      ensures Clean(data, bitLength) && Contents() == old(Contents()) + [bit]
    {
      SetBitAppends(data, bitLength, bit);
      data := SetBit(data, bitLength, bit);
      bitLength := bitLength + 1;
    }

    /** `appendBits`; false stands for the exception. */
    method AppendBits(val: nat, len: int) returns (ok: bool)
      requires Valid() && val < 0x1_0000_0000
      modifies this
      ensures Valid()
      ensures ok <==> 0 <= len <= 32 && val < Pow2(len)
      ensures Contents() == if ok then old(Contents()) + Bits(val, len) else old(Contents())
    {
      if len < 0 || len > 32 {
        return false;
      }
      FitsMeansShiftedOut(val, len);
      if len < 32 && val / Pow2(len) != 0 {
        return false;
      }
      Grow(bitLength + len);
      var i := len - 1;
      while i >= 0
        invariant -1 <= i < len && bitLength == old(bitLength) + (len - 1 - i)
        invariant |data| == BytesFor(old(bitLength) + len) && Clean(data, bitLength)
        invariant Contents() == old(Contents()) + Bits(val, len)[..len - 1 - i]
      {
        BitsAt(val, len, i);
        assert Bits(val, len)[..len - i] == Bits(val, len)[..len - 1 - i] + [Bits(val, len)[len - 1 - i]];
        AppendBit((val / Pow2(i)) % 2 == 1);
        i := i - 1;
      }
      assert Bits(val, len)[..len] == Bits(val, len);
      ok := true;
    }

    /** `appendData`. */
    method AppendData(segData: seq<Byte>, segLength: nat)
      requires Valid() && |segData| == BytesFor(segLength)
      modifies this
      ensures Valid() && Contents() == old(Contents()) + Prefix(segData, segLength)
    {
      Grow(bitLength + segLength);
      for i := 0 to segLength
        invariant bitLength == old(bitLength) + i
        invariant |data| == BytesFor(old(bitLength) + segLength) && Clean(data, bitLength)
        invariant Contents() == old(Contents()) + Prefix(segData, i)
      {
        assert Prefix(segData, i + 1) == Prefix(segData, i) + [BitAt(segData, i)];
        AppendBit(segData[i / 8][i % 8]);
      }
    }
  }

  lemma {:induction false} FitsMeansShiftedOut(val: nat, len: nat)
    requires val < 0x1_0000_0000 && len <= 32
    ensures val < Pow2(len) <==> (len == 32 || val / Pow2(len) == 0)
  {
    if len == 32 {
      Pow2Of32();
    } else {
      ZeroQuotient(val, Pow2(len));
    }
  }

  lemma {:induction false} ZeroQuotient(val: nat, p: nat)
    requires p > 0
    ensures val < p <==> val / p == 0
  {
    if val < p {
      QuotientIs(val, p, 0, val);
    }
  }

  lemma {:induction false} Pow2Of32()
    ensures Pow2(32) == 0x1_0000_0000
  {
    assert Pow2(8) == 256;
    Pow2Sum(8, 8);
    Pow2Sum(16, 16);
  }

  lemma {:induction false} Pow2Sum(a: nat, b: nat)
    ensures Pow2(a + b) == Pow2(a) * Pow2(b)
  {
    if a > 0 {
      Pow2Sum(a - 1, b);
    }
  }
}
