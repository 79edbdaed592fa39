/**
 Tags as the OER encoder writes them. A number from 63 on is written in groups of seven binary digits,
 least significant first, while the decoder takes the digits it reads first for the most significant.
 */
module OerTag {
  import opened Common
  import opened Bits
  import opened Decoding

  function PowerOfTwo(n: nat): (p: nat)
    ensures p > 0
  {
    if n == 0 then 1 else 2 * PowerOfTwo(n - 1)
  }

  /** The binary digits of a number, least significant first. */
  function Digits(n: nat): seq<bool> {
    if n == 0 then [] else [n % 2 == 1] + Digits(n / 2)
  }

  /** Binary digits, most significant first, behind those of `acc`. */
  function Number(bits: seq<bool>, acc: nat): nat {
    if bits == [] then acc else Number(bits[1..], 2 * acc + if bits[0] then 1 else 0)
  }

  /** The number with the binary digits of `n` in the reverse order. */
  function Mirror(n: nat): nat {
    Number(Digits(n), 0)
  }

  /** One to seven zeros before the digits make groups of seven. */
  function Filled(bits: seq<bool>): (r: seq<bool>)
    ensures |r| % 7 == 0 && |r| == 7 * (|bits| / 7 + 1)
  {
    seq(7 - |bits| % 7, _ => false) + bits
  }

  /** One octet for each seven digits, all marked as continued. */
  function Continued(bits: seq<bool>): (b: Bytes)
    requires |bits| % 7 == 0
    ensures |b| == |bits| / 7
  {
    if bits == [] then []
    else
      var rest := |bits| - 7;
      NumberBound(bits[rest..]);
      Continued(bits[..rest]) + [128 + Number(bits[rest..], 0)]
  }

  /** The last octet is not marked. */
  function Septets(bits: seq<bool>): (b: Bytes)
    requires |bits| % 7 == 0 && bits != []
    ensures |b| == |bits| / 7
  {
    var rest := |bits| - 7;
    NumberBound(bits[rest..]);
    Continued(bits[..rest]) + [Number(bits[rest..], 0)]
  }

  function EncTag(tag: Tag): (b: Bytes)
    ensures |b| == TagSize(tag.value)
  {
    if tag.value < 63 then [64 * tag.cls + tag.value]
    else [64 * tag.cls + 63] + Septets(Filled(Digits(tag.value)))
  }

  function TagSize(n: U32): nat {
    if n < 63 then 1 else 2 + |Digits(n)| / 7
  }

  /** The tags that are read as they were written. */
  predicate TagReturns(tag: Tag) {
    tag.value < 63 || (Mirror(tag.value) == tag.value && |Digits(tag.value)| % 7 != 0)
  }

  // ----- Numbers and digits -----

  lemma {:induction false} NumberLinear(bits: seq<bool>, acc: nat)
    ensures Number(bits, acc) == PowerOfTwo(|bits|) * acc + Number(bits, 0)
    ensures Number(bits, 0) < PowerOfTwo(|bits|)
  {
    if bits != [] {
      var digit := if bits[0] then 1 else 0;
      var p := PowerOfTwo(|bits| - 1);
      NumberLinear(bits[1..], 2 * acc + digit);
      NumberLinear(bits[1..], digit);
      assert p * (2 * acc + digit) == 2 * p * acc + p * digit;
    }
  }

  lemma NumberBound(bits: seq<bool>)
    ensures |bits| == 7 ==> Number(bits, 0) < 128
  {
    hide Number;
    if |bits| == 7 {
      NumberLinear(bits, 0);
      assert PowerOfTwo(4) == 16;
      assert PowerOfTwo(7) == 128;
    }
  }

  lemma {:induction false} NumberJoin(a: seq<bool>, b: seq<bool>, acc: nat)
    ensures Number(a + b, acc) == Number(b, Number(a, acc))
  {
    if a == [] {
      assert [] + b == b;
    } else {
      assert (a + b)[1..] == a[1..] + b;
      NumberJoin(a[1..], b, 2 * acc + if a[0] then 1 else 0);
    }
  }

  lemma {:induction false} NumberOfZeros(bits: seq<bool>)
    requires forall i :: 0 <= i < |bits| ==> !bits[i]
    ensures Number(bits, 0) == 0
  {
    if bits != [] {
      NumberOfZeros(bits[1..]);
    }
  }

  lemma {:induction false} NumberPositive(bits: seq<bool>, i: nat, acc: nat)
    requires i < |bits| && (bits[i] || acc > 0)
    ensures Number(bits, acc) > 0
  {
    if i > 0 {
      NumberPositive(bits[1..], i - 1, 2 * acc + if bits[0] then 1 else 0);
    } else {
      NumberGrows(bits[1..], 2 * acc + if bits[0] then 1 else 0);
    }
  }

  lemma {:induction false} NumberGrows(bits: seq<bool>, acc: nat)
    ensures Number(bits, acc) >= acc
  {
    if bits != [] {
      NumberGrows(bits[1..], 2 * acc + if bits[0] then 1 else 0);
    }
  }

  lemma {:induction false} DigitCount(n: nat, k: nat)
    requires n < PowerOfTwo(k)
    ensures |Digits(n)| <= k
    ensures n > 0 ==> PowerOfTwo(|Digits(n)| - 1) <= n
  {
    if n > 1 {
      DigitCount(n / 2, k - 1);
    }
  }

  lemma ThirtyTwo()
    ensures PowerOfTwo(32) == TWO_32
  {
    assert PowerOfTwo(8) == 0x100 by {
      assert PowerOfTwo(4) == 0x10;
    }
    assert PowerOfTwo(12) == 0x1000;
    assert PowerOfTwo(16) == 0x1_0000;
    assert PowerOfTwo(20) == 0x10_0000;
    assert PowerOfTwo(24) == 0x100_0000;
    assert PowerOfTwo(28) == 0x1000_0000;
  }

  lemma {:induction false} PowerGrows(j: nat, k: nat)
    requires j <= k
    ensures PowerOfTwo(j) <= PowerOfTwo(k)
  {
    if j < k {
      PowerGrows(j, k - 1);
    }
  }

  lemma MirrorFits(n: U32)
    ensures Mirror(n) < TWO_32 && |Digits(n)| <= 32
  {
    hide Number, PowerOfTwo, Digits;
    ThirtyTwo();
    DigitCount(n, 32);
    NumberLinear(Digits(n), 0);
    PowerGrows(|Digits(n)|, 32);
  }

  /** A number that is its own mirror image is odd. */
  lemma MirrorOdd(n: U32)
    requires n > 0 && Mirror(n) == n
    ensures n % 2 == 1
  {
    ThirtyTwo();
    DigitCount(n, 32);
    assert Digits(n)[1..] == Digits(n / 2);
    NumberLinear(Digits(n / 2), 0);
  }

  lemma FilledNumber(bits: seq<bool>)
    ensures Number(Filled(bits), 0) == Number(bits, 0)
  {
    hide Number;
    var zeros := seq(7 - |bits| % 7, _ => false);
    NumberJoin(zeros, bits, 0);
    NumberOfZeros(zeros);
  }

  // ----- Writing bit by bit -----

  /** The digits in groups of seven behind markers that are all set. */
  function Marked(bits: seq<bool>): (r: seq<bool>)
    requires |bits| % 7 == 0
    ensures |r| == |bits| / 7 * 8
  {
    if bits == [] then [] else Marked(bits[..|bits| - 7]) + ([true] + bits[|bits| - 7..])
  }

  lemma {:induction false} PrefixNumber(bits: seq<bool>, n: nat)
    requires n <= 8 && n <= |bits|
    ensures PrefixValue(bits, 0, n) == Number(bits[..n], 0)
  {
    hide Number;
    if n == 0 {
      Nothing(0);
    } else {
      PrefixNumber(bits, n - 1);
      assert bits[..n] == bits[..n - 1] + [bits[n - 1]];
      NumberJoin(bits[..n - 1], [bits[n - 1]], 0);
      Digit(bits[n - 1], Number(bits[..n - 1], 0));
    }
  }

  lemma Digit(bit: bool, acc: nat)
    ensures Number([bit], acc) == 2 * acc + if bit then 1 else 0
  {
    Nothing(2 * acc + if bit then 1 else 0);
  }

  /** A marker and seven digits as an octet. */
  lemma MarkedOctet(marker: bool, group: seq<bool>)
    requires |group| == 7
    ensures Number(group, 0) < 128
    ensures PackBits([marker] + group) == [Number(group, 0) + if marker then 128 else 0]
  {
    hide Number, PrefixValue;
    NumberBound(group);
    var bits := [marker] + group;
    PrefixNumber(bits, 8);
    assert bits[..8] == bits;
    NumberJoin([marker], group, 0);
    Digit(marker, 0);
    NumberLinear(group, if marker then 1 else 0);
    assert PowerOfTwo(4) == 16;
    assert PowerOfTwo(7) == 128;
  }

  lemma {:induction false} MarkedOctets(bits: seq<bool>)
    requires |bits| % 7 == 0
    ensures PackBits(Marked(bits)) == Continued(bits)
    decreases |bits|
  {
    hide Number, PrefixValue, PackBits;
    if bits != [] {
      var rest := |bits| - 7;
      MarkedOctets(bits[..rest]);
      PackJoin(Marked(bits[..rest]), [true] + bits[rest..]);
      MarkedOctet(true, bits[rest..]);
    }
  }

  /** With the last marker cleared the bits are those of the written number. */
  lemma LastCleared(bits: seq<bool>)
    requires |bits| % 7 == 0 && bits != []
    ensures PackBits(Marked(bits)[|Marked(bits)| - 8 := false]) == Septets(bits)
  {
    hide Number, PrefixValue, PackBits;
    var rest := |bits| - 7;
    var front, group := Marked(bits[..rest]), bits[rest..];
    MarkedOctets(bits[..rest]);
    PackJoin(front, [false] + group);
    MarkedOctet(false, group);
    Clear(front, group);
  }

  lemma Clear(front: seq<bool>, group: seq<bool>)
    requires |group| == 7
    ensures (front + ([true] + group))[|front| := false] == front + ([false] + group)
  {
  }

  // ----- Reading -----

  /** What the decoder makes of the groups: the digits read first are the most significant. */
  lemma {:induction false} ContinuedBack(bits: seq<bool>, acc: nat, s: Bytes)
    requires |bits| % 7 == 0 && Number(bits, acc) < TWO_32
    ensures acc < TWO_32 && DecBase128(Continued(bits) + s, acc) == DecBase128(s, Number(bits, acc))
    decreases |bits|
  {
    hide Number, DecBase128;
    NumberGrows(bits, acc);
    if bits == [] {
      assert [] + s == s;
      assert Number([], acc) == acc by {
        Nothing(acc);
      }
    } else {
      var rest := |bits| - 7;
      var group := bits[rest..];
      Group(bits, acc);
      NumberBound(group);
      ContinuedBack(bits[..rest], acc, [128 + Number(group, 0)] + s);
      assert Continued(bits) + s == Continued(bits[..rest]) + ([128 + Number(group, 0)] + s);
      Base128Step(128 + Number(group, 0), s, Number(bits[..rest], acc));
    }
  }

  lemma Nothing(acc: nat)
    ensures Number([], acc) == acc
  {
  }

  lemma Group(bits: seq<bool>, acc: nat)
    requires |bits| >= 7
    ensures var rest := |bits| - 7;
            Number(bits, acc) == 128 * Number(bits[..rest], acc) + Number(bits[rest..], 0)
  {
    hide Number;
    var rest := |bits| - 7;
    assert bits[..rest] + bits[rest..] == bits;
    NumberJoin(bits[..rest], bits[rest..], acc);
    NumberLinear(bits[rest..], Number(bits[..rest], acc));
    assert PowerOfTwo(4) == 16;
    assert PowerOfTwo(7) == 128;
  }

  lemma {:induction false} SeptetsBack(bits: seq<bool>, t: Bytes)
    requires |bits| % 7 == 0 && bits != [] && Number(bits, 0) < TWO_32
    ensures DecBase128(Septets(bits) + t, 0) == Ok(Number(bits, 0), t)
  {
    hide Number, DecBase128, Continued;
    var rest := |bits| - 7;
    var group := bits[rest..];
    Group(bits, 0);
    NumberBound(group);
    ContinuedBack(bits[..rest], 0, [Number(group, 0)] + t);
    assert Septets(bits) + t == Continued(bits[..rest]) + ([Number(group, 0)] + t);
    Base128Step(Number(group, 0), t, Number(bits[..rest], 0));
  }

  /** The first octet behind the initial one holds the first group. */
  lemma {:induction false} FirstGroup(bits: seq<bool>)
    requires |bits| % 7 == 0 && bits != []
    ensures Septets(bits)[0] % 128 == Number(bits[..7], 0)
    ensures |bits| > 7 ==> Continued(bits)[0] == 128 + Number(bits[..7], 0)
    decreases |bits|
  {
    hide Number;
    NumberBound(bits[..7]);
    if |bits| == 7 {
      assert bits[0..] == bits[..7];
    } else {
      var rest := |bits| - 7;
      FirstGroup(bits[..rest]);
      assert bits[..rest][..7] == bits[..7];
      if rest == 7 {
        assert bits[..7][0..] == bits[..7];
        assert Continued(bits[..7]) == Continued([]) + [128 + Number(bits[..7][0..], 0)];
      }
    }
  }

  /** The first group of a number that is read back is not zero, exactly if it is not all filling. */
  lemma FirstGroupOf(n: U32)
    requires n > 0 && Mirror(n) == n
    ensures Number(Filled(Digits(n))[..7], 0) == 0 <==> |Digits(n)| % 7 == 0
  {
    hide Number;
    var bits := Filled(Digits(n));
    var k := |Digits(n)| % 7;
    if k == 0 {
      NumberOfZeros(bits[..7]);
    } else {
      MirrorOdd(n);
      assert Digits(n)[0];
      assert bits[..7][7 - k] == Digits(n)[0];
      NumberPositive(bits[..7], 7 - k, 0);
    }
  }
}
