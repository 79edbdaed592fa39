/**
 Bit sequences packed into octets, most significant bit first: the layout of BIT STRING
 values, of the OER preamble and of the OER extension bitmap.
 */
module Bits {
  import opened Common

  /** The weight of bit `i` of an octet, bit 0 being the most significant. */
  function Weight(i: nat): (w: nat)
    requires i < 8
    ensures w >= 1
  {
    match i
    case 0 => 128
    case 1 => 64
    case 2 => 32
    case 3 => 16
    case 4 => 8
    case 5 => 4
    case 6 => 2
    case 7 => 1
  }

  predicate BitAt(b: Byte, i: nat)
    requires i < 8
  {
    (b / Weight(i)) % 2 == 1
  }

  /** The number of octets that hold `n` bits. */
  function Octets(n: nat): nat {
    (n + 7) / 8
  }

  /** Bit `i` of a bit sequence read past its end as zero. */
  predicate Padded(bits: seq<bool>, i: nat) {
    i < |bits| && bits[i]
  }

  /** The first `n` bits from position `k`, read as a binary number. */
  function PrefixValue(bits: seq<bool>, k: nat, n: nat): (r: nat)
    requires n <= 8
    ensures n < 8 ==> r < Weight(7 - n)
    ensures r < 256
  {
    if n == 0 then 0 else 2 * PrefixValue(bits, k, n - 1) + if Padded(bits, k + n - 1) then 1 else 0
  }

  /** The octet whose bits are the eight bits from position `k`. */
  function PackByte(bits: seq<bool>, k: nat): Byte {
    PrefixValue(bits, k, 8)
  }

  function PackBits(bits: seq<bool>): (bytes: Bytes)
    ensures |bytes| == Octets(|bits|)
  {
    seq(Octets(|bits|), j requires 0 <= j => PackByte(bits, 8 * j))
  }

  lemma {:induction false} PrefixLocal(a: seq<bool>, k: nat, b: seq<bool>, l: nat, n: nat)
    requires n <= 8 && k + 8 <= |a| && l + 8 <= |b| && a[k..k + 8] == b[l..l + 8]
    ensures PrefixValue(a, k, n) == PrefixValue(b, l, n)
  {
    if n > 0 {
      PrefixLocal(a, k, b, l, n - 1);
      assert a[k..k + 8][n - 1] == b[l..l + 8][n - 1];
    }
  }

  /** Whole octets are packed one after the other. */
  lemma PackJoin(a: seq<bool>, b: seq<bool>)
    requires |a| % 8 == 0 && |b| % 8 == 0
    ensures PackBits(a + b) == PackBits(a) + PackBits(b)
  {
    hide PrefixValue;
    var all := a + b;
    forall j | 0 <= j < |all| / 8
      ensures PackBits(all)[j] == (PackBits(a) + PackBits(b))[j]
    {
      if j < |a| / 8 {
        PrefixLocal(all, 8 * j, a, 8 * j, 8);
      } else {
        var k := j - |a| / 8;
        assert all[8 * j..8 * j + 8] == b[8 * k..8 * k + 8];
        PrefixLocal(all, 8 * j, b, 8 * k, 8);
      }
    }
  }

  /** The first `n` bits of `bytes`. */
  function BitsOf(bytes: Bytes, n: nat): (bits: seq<bool>)
    requires n <= 8 * |bytes|
    ensures |bits| == n
  {
    seq(n, i requires 0 <= i < n => BitAt(bytes[i / 8], i % 8))
  }

  /** All bits of `bytes` from position `n` on are zero. */
  predicate ZeroFrom(bytes: Bytes, n: nat) {
    forall i :: n <= i < 8 * |bytes| ==> !BitAt(bytes[i / 8], i % 8)
  }

  lemma HalvePrefix(b: Byte, i: nat)
    requires i < 7
    ensures b / Weight(i) == b / Weight(i + 1) / 2
  {
    match i
    case 0 =>
    case 1 =>
    case 2 =>
    case 3 =>
    case 4 =>
    case 5 =>
    case 6 =>
  }

  lemma PackBytePrefix(bits: seq<bool>, k: nat, i: nat)
    requires i < 8
    ensures PackByte(bits, k) / Weight(i) == PrefixValue(bits, k, i + 1)
    decreases 8 - i
  {
    if i < 7 {
      PackBytePrefix(bits, k, i + 1);
      HalvePrefix(PackByte(bits, k), i);
    }
  }

  lemma PackByteBit(bits: seq<bool>, k: nat, i: nat)
    requires i < 8
    ensures BitAt(PackByte(bits, k), i) == Padded(bits, k + i)
  {
    PackBytePrefix(bits, k, i);
  }

  /** Reading the bits of a packed sequence gives the sequence back, and the padding is zero. */
  lemma BitsOfPackBits(bits: seq<bool>)
    ensures BitsOf(PackBits(bits), |bits|) == bits
    ensures ZeroFrom(PackBits(bits), |bits|)
  {
    var bytes := PackBits(bits);
    forall i | 0 <= i < 8 * |bytes|
      ensures BitAt(bytes[i / 8], i % 8) == Padded(bits, i)
    {
      PackByteBit(bits, 8 * (i / 8), i % 8);
    }
  }

  function BitValue(b: Byte, i: nat): nat
    requires i < 8
  {
    if BitAt(b, i) then 1 else 0
  }

  lemma ByteSum(a: Byte)
    ensures a == 128 * BitValue(a, 0) + 64 * BitValue(a, 1) + 32 * BitValue(a, 2) + 16 * BitValue(a, 3) +
                 8 * BitValue(a, 4) + 4 * BitValue(a, 5) + 2 * BitValue(a, 6) + BitValue(a, 7)
  {
    assert a / 128 == BitValue(a, 0);
    assert a / 64 == 2 * (a / 128) + BitValue(a, 1);
    assert a / 32 == 2 * (a / 64) + BitValue(a, 2);
    assert a / 16 == 2 * (a / 32) + BitValue(a, 3);
    assert a / 8 == 2 * (a / 16) + BitValue(a, 4);
    assert a / 4 == 2 * (a / 8) + BitValue(a, 5);
    assert a / 2 == 2 * (a / 4) + BitValue(a, 6);
    assert a == 2 * (a / 2) + BitValue(a, 7);
  }

  /** An octet is determined by its eight bits. */
  lemma ByteExtensional(a: Byte, b: Byte)
    requires forall i :: 0 <= i < 8 ==> BitAt(a, i) == BitAt(b, i)
    ensures a == b
  {
    ByteSum(a);
    ByteSum(b);
  }

  /** Octets whose trailing bits are zero are the packing of their leading bits. */
  lemma PackBitsOf(bytes: Bytes, n: nat)
    requires Octets(n) == |bytes|
    requires ZeroFrom(bytes, n)
    ensures PackBits(BitsOf(bytes, n)) == bytes
  {
    var bits := BitsOf(bytes, n);
    var packed := PackBits(bits);
    forall j | 0 <= j < |bytes|
      ensures packed[j] == bytes[j]
    {
      forall i | 0 <= i < 8
        ensures BitAt(packed[j], i) == BitAt(bytes[j], i)
      {
        PackByteBit(bits, 8 * j, i);
        assert (8 * j + i) / 8 == j && (8 * j + i) % 8 == i;
      }
      ByteExtensional(packed[j], bytes[j]);
    }
  }
}
