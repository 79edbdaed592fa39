/** The COER encodings of values that are not SEQUENCE or SEQUENCE OF: the only one, or two of them. */
module OerForms {
  import opened Common
  import opened Bits
  import opened BigEndian
  import opened OerTypes
  import opened OerEncode
  import opened Decoding
  import opened OerDecode
  import opened OerLocality
  import opened OerLoose
  import OerCanonical
  import OerRoundTrip

  predicate IsPrimitive(ty: Type) {
    !ty.SequenceType? && !ty.SequenceOfType? && !ty.ChoiceType?
  }

  // ----- The only form -----

  /** The encoding of a primitive value that has one. */
  function Only(ty: Type, v: Value): Bytes {
    match ty
    case BooleanType => if v.BooleanValue? then [if v.b then 0xFF else 0] else []
    case IntegerType(bounds, extensible) => if v.IntegerValue? then Given(EncInteger(v.i, bounds, extensible)) else []
    case OctetStringType(size) =>
      if !v.OctetStringValue? then [] else if size.Fixed? then v.octets else Given(EncOpen(Some(v.octets)))
    case BitStringType(size) =>
      if !v.BitStringValue? then []
      else if size.Fixed? then PackBits(v.bits) else Given(EncOpen(Some([0] + PackBits(v.bits))))
    case EnumeratedType(discriminants) =>
      if v.EnumeratedValue? && v.index < |discriminants| then Given(EncEnumerated(discriminants[v.index])) else []
    case _ => []
  }

  function Given(b: Option<Bytes>): Bytes {
    if b.Some? then b.value else []
  }

  /** A signed INTEGER at the limit of length determinants has its minimal form only. */
  lemma LongestInteger(s: Bytes, bounds: Option<Bounds>, extensible: bool)
    requires Form(bounds, extensible) == (true, None) && DecInteger(s, bounds, extensible, true).Ok?
    requires |SignedBytes(DecInteger(s, bounds, extensible, true).value.i)| + 1 >= TWO_64
    ensures var r := DecInteger(s, bounds, extensible, true);
            EncInteger(r.value.i, bounds, extensible).Some? && s == EncInteger(r.value.i, bounds, extensible).value + r.rest
  {
    hide SignedBytes, SignedValue, DecOpen, EncOpen, InBounds, EncLength;
    var data := DecOpen(s, true);
    var i := SignedValue(data.value);
    OerCanonical.OpenCanonical(s);
    OerRoundTrip.EncLengthBound(|data.value|);
    OpenLength(data.value);
    SignedShortest(data.value);
    SignedRoundTrip(i);
    SignedInjective(SignedBytes(i), data.value);
  }

  lemma OpenLength(b: Bytes)
    requires EncOpen(Some(b)).Some?
    ensures |b| < TWO_64
  {
    OerRoundTrip.EncLengthBound(|b|);
  }

  lemma IntegerOnly(s: Bytes, bounds: Option<Bounds>, extensible: bool)
    requires DecInteger(s, bounds, extensible, true).Ok?
    requires !Loose(IntegerType(bounds, extensible), DecInteger(s, bounds, extensible, true).value, 0, false)
    ensures var r := DecInteger(s, bounds, extensible, true);
            EncInteger(r.value.i, bounds, extensible).Some? && s == EncInteger(r.value.i, bounds, extensible).value + r.rest
  {
    hide DecIntegerBytes, EncInteger, SignedBytes, InBounds;
    if Form(bounds, extensible) == (true, None) {
      LongestInteger(s, bounds, extensible);
    } else {
      OerCanonical.IntegerCanonical(s, bounds, extensible);
    }
  }

  lemma BitStringOnly(s: Bytes, size: Size)
    requires DecBitString(s, size, true).Ok?
    requires !Loose(BitStringType(size), DecBitString(s, size, true).value, 0, false)
    ensures var r := DecBitString(s, size, true); s == Only(BitStringType(size), r.value) + r.rest
  {
    hide PackBits, BitsOf, DecLength, EncLength;
    var r := DecBitString(s, size, true);
    if size.Fixed? {
      var data := Take(s, Octets(size.n));
      PackBitsOf(data.value, size.n);
      assert s == data.value + data.rest;
    } else {
      var n := DecLength(s, true);
      OerCanonical.LengthCanonical(s);
      var unused := DecByte(n.rest);
      var data := Take(unused.rest, n.value - 1);
      assert unused.value == 0;
      PackBitsOf(data.value, 8 * (n.value - 1));
      assert n.rest == [0] + data.value + data.rest;
      assert |[0] + PackBits(r.value.bits)| == n.value;
    }
  }

  lemma EnumeratedOnly(s: Bytes, discriminants: seq<int>)
    requires DecEnumerated(s, discriminants, true).Ok?
    requires !Loose(EnumeratedType(discriminants), DecEnumerated(s, discriminants, true).value, 0, false)
    ensures var r := DecEnumerated(s, discriminants, true); s == Only(EnumeratedType(discriminants), r.value) + r.rest
  {
    hide SignedValue, SignedBytes;
    assert s == [s[0]] + s[1..];
    if s[0] >= 128 {
      var data := Take(s[1..], s[0] - 128);
      var d := SignedValue(data.value);
      SignedShortest(data.value);
      SignedRoundTrip(d);
      SignedInjective(SignedBytes(d), data.value);
      assert s == [s[0]] + data.value + data.rest;
    }
  }

  lemma OctetStringOnly(s: Bytes, size: Size)
    requires DecOctetString(s, size, true).Ok?
    ensures var r := DecOctetString(s, size, true); s == Only(OctetStringType(size), r.value) + r.rest
  {
    hide DecOpen, EncOpen;
    if size.Fixed? {
      assert s == s[..size.n] + s[size.n..];
    } else {
      OerCanonical.OpenCanonical(s);
    }
  }

  /** A primitive value that is not loose is accepted in one form only. */
  lemma OnlyForm(ty: Type, v: Value, depth: nat, b: Bytes, t: Bytes)
    requires IsPrimitive(ty) && Accepts(ty, v, depth, b, t) && !Loose(ty, v, depth, t == [])
    ensures b == Only(ty, v)
  {
    hide DecIntegerBytes, DecOctetString, DecBitString, DecEnumerated, EncInteger, EncOpen, PackBits, EncEnumerated, InBounds, SignedBytes;
    var s := b + t;
    match ty {
      case BooleanType => assert s == [s[0]] + s[1..];
      case NullType => assert |b| == 0;
      case IntegerType(bounds, extensible) => IntegerOnly(s, bounds, extensible);
      case OctetStringType(size) => OctetStringOnly(s, size);
      case BitStringType(size) => BitStringOnly(s, size);
      case EnumeratedType(discriminants) => EnumeratedOnly(s, discriminants);
    }
    assert s == Only(ty, v) + t;
    SamePrefix(b, Only(ty, v), t);
  }

  // ----- Two forms -----

  /** Both `f` and `g` are encodings of `v`, whatever follows. */
  ghost predicate TwoForms(ty: Type, v: Value, depth: nat, f: Bytes, g: Bytes) {
    f != g && forall t :: Accepts(ty, v, depth, f, t) && Accepts(ty, v, depth, g, t)
  }

  lemma OpenForm(b: Bytes, t: Bytes)
    requires |b| < TWO_64
    ensures EncOpen(Some(b)).Some? && DecOpen(EncOpen(Some(b)).value + t, true) == Ok(b, t)
  {
    hide DecOpen, EncLength;
    OerRoundTrip.EncLengthBound(|b|);
    OerRoundTrip.OpenBack(b, t, true);
  }

  lemma OpenDiffers(a: Bytes, b: Bytes)
    requires |a| < TWO_64 && |b| < TWO_64 && a != b
    ensures EncOpen(Some(a)).Some? && EncOpen(Some(b)).Some? && EncOpen(Some(a)).value != EncOpen(Some(b)).value
  {
    hide EncOpen, DecOpen;
    OpenForm(a, []);
    OpenForm(b, []);
  }

  lemma IntegerForms(bounds: Option<Bounds>, extensible: bool, i: int, depth: nat) returns (f: Bytes, g: Bytes)
    requires Loose(IntegerType(bounds, extensible), IntegerValue(i), depth, false) && Admitted(i, bounds)
    ensures TwoForms(IntegerType(bounds, extensible), IntegerValue(i), depth, f, g)
  {
    hide SignedBytes, SignedValue, DecOpen, EncOpen, Admitted;
    var ty := IntegerType(bounds, extensible);
    var b := SignedBytes(i);
    SignedRoundTrip(i);
    SignedExtend(b);
    var b' := [SignOctet(i < 0)] + b;
    OpenDiffers(b, b');
    f, g := EncOpen(Some(b)).value, EncOpen(Some(b')).value;
    forall t
      ensures Accepts(ty, IntegerValue(i), depth, f, t) && Accepts(ty, IntegerValue(i), depth, g, t)
    {
      OpenForm(b, t);
      OpenForm(b', t);
    }
  }

  /** The octets of a padded bit string with the last bit set. */
  function Padded1(bits: seq<bool>): Bytes
    requires |bits| % 8 != 0
  {
    var b := PackBits(bits);
    var x := b[|b| - 1];
    b[|b| - 1 := if x % 2 == 0 then x + 1 else x - 1]
  }

  lemma PaddedBits(bits: seq<bool>)
    requires |bits| % 8 != 0
    ensures Padded1(bits) != PackBits(bits) && BitsOf(Padded1(bits), |bits|) == bits
  {
    hide PackBits;
    var b, g, n := PackBits(bits), Padded1(bits), |bits|;
    BitsOfPackBits(bits);
    assert g[|b| - 1] != b[|b| - 1];
    forall i | 0 <= i < n
      ensures BitAt(g[i / 8], i % 8) == BitAt(b[i / 8], i % 8)
    {
      if i / 8 == |b| - 1 {
        LowBit(b[i / 8], i % 8);
      }
    }
    assert BitsOf(g, n) == BitsOf(b, n);
  }

  lemma LowBit(x: Byte, i: nat)
    requires i < 7
    ensures BitAt(if x % 2 == 0 then x + 1 else x - 1, i) == BitAt(x, i)
  {
    UpperBits(x, if x % 2 == 0 then x + 1 else x - 1, i);
  }

  /** All bits but the last are those of the half. */
  lemma {:induction false} UpperBits(x: Byte, y: Byte, i: nat)
    requires i < 7 && x / 2 == y / 2
    ensures x / Weight(i) == y / Weight(i)
    decreases 7 - i
  {
    if i < 6 {
      UpperBits(x, y, i + 1);
      HalvePrefix(x, i);
      HalvePrefix(y, i);
    }
  }

  lemma BitStringForms(size: Size, bits: seq<bool>, depth: nat) returns (f: Bytes, g: Bytes)
    requires Loose(BitStringType(size), BitStringValue(bits), depth, false)
    requires if size.Fixed? then |bits| == size.n else 8 * Octets(|bits|) < TWO_64
    ensures TwoForms(BitStringType(size), BitStringValue(bits), depth, f, g)
  {
    hide PackBits, BitsOf, DecBitString;
    var ty, v := BitStringType(size), BitStringValue(bits);
    if bits == [] {
      f, g := [0], [1, 0];
      forall t
        ensures Accepts(ty, v, depth, f, t) && Accepts(ty, v, depth, g, t)
      {
        EmptyForms(size, t);
      }
    } else {
      PaddedBits(bits);
      BitsOfPackBits(bits);
      var b, b' := PackBits(bits), Padded1(bits);
      f, g := b, b';
      if !size.Fixed? {
        var m := Missing(|bits|);
        OpenDiffers([m] + b, [m] + b') by {
          assert ([m] + b)[1..] == b && ([m] + b')[1..] == b';
        }
        f, g := EncOpen(Some([m] + b)).value, EncOpen(Some([m] + b')).value;
      }
      forall t
        ensures Accepts(ty, v, depth, f, t) && Accepts(ty, v, depth, g, t)
      {
        BitStringForm(size, bits, b, t);
        BitStringForm(size, bits, b', t);
      }
    }
  }

  lemma EmptyForms(size: Size, t: Bytes)
    requires !size.Fixed?
    ensures DecBitString([0] + t, size, true) == Ok(BitStringValue([]), t)
    ensures DecBitString([1, 0] + t, size, true) == Ok(BitStringValue([]), t)
  {
    assert ([0] + t)[1..] == t;
    assert ([1, 0] + t)[1..] == [0] + t;
    assert t[..0] == [] && t[0..] == t;
    assert BitsOf([], 0) == [];
  }

  lemma BitStringForm(size: Size, bits: seq<bool>, b: Bytes, t: Bytes)
    requires |b| == Octets(|bits|) && bits != [] && BitsOf(b, |bits|) == bits
    requires if size.Fixed? then |bits| == size.n else 8 * |b| < TWO_64
    ensures var f := if size.Fixed? then b else Given(EncOpen(Some([Missing(|bits|)] + b)));
            DecBitString(f + t, size, true) == Ok(BitStringValue(bits), t)
  {
    hide BitsOf, DecLength, EncLength, Take;
    TakeBack(b, t);
    if !size.Fixed? {
      var contents := [Missing(|bits|)] + b;
      OerRoundTrip.EncLengthBound(|contents|);
      OerRoundTrip.LengthBack(|contents|, contents + t, true);
      assert Given(EncOpen(Some(contents))) + t == EncLength(|contents|).value + (contents + t);
      assert DecByte(contents + t) == Ok(Missing(|bits|), b + t) by {
        assert (contents + t)[1..] == b + t;
      }
    }
  }

  lemma EnumeratedForms(discriminants: seq<int>, index: nat, depth: nat) returns (f: Bytes, g: Bytes)
    requires Loose(EnumeratedType(discriminants), EnumeratedValue(index), depth, false) && Distinct(discriminants)
    ensures TwoForms(EnumeratedType(discriminants), EnumeratedValue(index), depth, f, g)
  {
    hide SignedBytes, SignedValue;
    var ty := EnumeratedType(discriminants);
    var d := discriminants[index];
    var b := SignedBytes(d);
    SignedRoundTrip(d);
    SignedExtend(b);
    var b' := [SignOctet(d < 0)] + b;
    f, g := [128 + |b|] + b, [128 + |b'|] + b';
    assert f[0] != g[0];
    forall t
      ensures Accepts(ty, EnumeratedValue(index), depth, f, t) && Accepts(ty, EnumeratedValue(index), depth, g, t)
    {
      LongForm(discriminants, index, b, t);
      LongForm(discriminants, index, b', t);
    }
  }

  lemma LongForm(discriminants: seq<int>, index: nat, b: Bytes, t: Bytes)
    requires index < |discriminants| && Distinct(discriminants) && 1 <= |b| <= 8
    requires SignedValue(b) == discriminants[index] && !(0 <= discriminants[index] < 128)
    ensures DecEnumerated([128 + |b|] + b + t, discriminants, true) == Ok(EnumeratedValue(index), t)
  {
    hide SignedValue, Take;
    var s := [128 + |b|] + b + t;
    assert s[1..] == b + t;
    TakeBack(b, t);
    assert FindDiscriminant(discriminants, discriminants[index]) == index;
  }

  /** A loose primitive value that is accepted at all has two forms. */
  lemma PrimitiveForms(ty: Type, v: Value, depth: nat, b: Bytes, t: Bytes) returns (f: Bytes, g: Bytes)
    requires IsPrimitive(ty) && Regular(ty) && Accepts(ty, v, depth, b, t) && Loose(ty, v, depth, t == [])
    ensures TwoForms(ty, v, depth, f, g)
  {
    hide DecIntegerBytes, DecLength, BitsOf, DecEnumerated, TwoForms, SignedBytes;
    match ty
    case IntegerType(bounds, extensible) => f, g := IntegerForms(bounds, extensible, v.i, depth);
    case BitStringType(size) => f, g := BitStringForms(size, v.bits, depth);
    case EnumeratedType(discriminants) => f, g := EnumeratedForms(discriminants, v.index, depth);
  }

  // ----- CHOICE -----

  /** A tag in long form, its number behind a group that is shifted out of 32 bits. */
  function WrappedTag(tag: Tag, k: nat): Bytes
    requires 1 <= k <= 2
  {
    [64 * tag.cls + 63] + WrappedNumber(tag.value, k)
  }

  function WrappedNumber(n: U32, k: nat): Bytes
    requires 1 <= k <= 2
  {
    [128 + 16 * k, 128 + n / 0x1000_0000, 128 + n / 0x20_0000 % 128, 128 + n / 0x4000 % 128, 128 + n / 0x80 % 128, n % 128]
  }

  lemma {:induction false} WrappedGroups(k: nat, a4: nat, a3: nat, a2: nat, a1: nat, a0: nat, t: Bytes)
    requires 1 <= k <= 2 && a4 < 16 && a3 < 128 && a2 < 128 && a1 < 128 && a0 < 128
    ensures DecBase128([128 + 16 * k, 128 + a4, 128 + a3, 128 + a2, 128 + a1, a0] + t, 0) ==
            Ok(128 * (128 * (0x4000 * a4 + 0x80 * a3 + a2) + a1) + a0, t)
  {
    hide DecBase128;
    var s1 := [a0] + t;
    var s2 := [128 + a1] + s1;
    var s3 := [128 + a2] + s2;
    var s4 := [128 + a3] + s3;
    var s5 := [128 + a4] + s4;
    assert [128 + 16 * k, 128 + a4, 128 + a3, 128 + a2, 128 + a1, a0] + t == [128 + 16 * k] + s5;
    var high := 0x4000 * a4 + 0x80 * a3 + a2;
    Step(0, 16 * k, s5);
    Step(16 * k, a4, s4);
    Step(0x800 * k + a4, a3, s3);
    Step(0x4_0000 * k + 0x80 * a4 + a3, a2, s2);
    Wraps(k, high);
    assert (128 + a1) % 128 == a1;
    Base128Step(128 + a1, s1, 0x200_0000 * k + high);
    Base128Step(a0, t, 128 * high + a1);
    assert ((128 * high + a1) * 128) % TWO_32 == (128 * high + a1) * 128;
  }

  /** Every 32-bit number is read from longer numbers as well: what is beyond 32 bits vanishes. */
  lemma {:induction false} WrapAround(n: U32, k: nat, t: Bytes)
    requires 1 <= k <= 2
    ensures DecBase128(WrappedNumber(n, k) + t, 0) == Ok(n, t)
  {
    hide DecBase128;
    Groups(n);
    WrappedGroups(k, n / 0x1000_0000, n / 0x20_0000 % 128, n / 0x4000 % 128, n / 0x80 % 128, n % 128, t);
  }

  lemma Groups(n: U32)
    ensures n / 0x1000_0000 < 16
    ensures n == 128 * (128 * (0x4000 * (n / 0x1000_0000) + 0x80 * (n / 0x20_0000 % 128) + n / 0x4000 % 128) + n / 0x80 % 128) + n % 128
  {
    assert n / 0x4000 == n / 0x80 / 0x80;
    assert n / 0x20_0000 == n / 0x4000 / 0x80;
    assert n / 0x1000_0000 == n / 0x20_0000 / 0x80;
  }

  lemma Wraps(k: nat, rest: nat)
    requires 1 <= k <= 2 && rest < 0x200_0000
    ensures ((0x200_0000 * k + rest) * 128) % TWO_32 == 128 * rest
  {
    assert (0x200_0000 * k + rest) * 128 == TWO_32 * k + 128 * rest;
  }

  /** A group that is read without loss. */
  lemma Step(acc: nat, group: nat, s: Bytes)
    requires acc < 0x200_0000 && group < 128
    ensures DecBase128([128 + group] + s, acc) == DecBase128(s, 128 * acc + group)
  {
    hide DecBase128;
    Base128Step(128 + group, s, acc);
    assert (128 + group) % 128 == group;
  }

  lemma {:induction false} WrappedTagBack(tag: Tag, k: nat, t: Bytes)
    requires 1 <= k <= 2
    ensures DecTag(WrappedTag(tag, k) + t) == Ok(tag, t)
  {
    hide DecBase128;
    WrapAround(tag.value, k, t);
    var first: Byte := 64 * tag.cls + 63;
    assert first / 64 == tag.cls && first % 64 == 63;
    var s := WrappedNumber(tag.value, k) + t;
    assert WrappedTag(tag, k) + t == [first] + s;
    assert ([first] + s)[1..] == s;
    assert s[0] == 128 + 16 * k;
  }

  /** Every CHOICE value has a second encoding: its tag with other groups that vanish. */
  lemma {:induction false} ChoiceAlternative(ty: Type, v: Value, depth: nat, t: Bytes, b: Bytes) returns (b': Bytes)
    requires ty.ChoiceType? && Regular(ty) && Accepts(ty, v, depth, b, t)
    ensures b' != b && Accepts(ty, v, depth, b', t)
  {
    hide DecTag, DecAlternative, IsSuffix, Onto, Regular;
    var s := b + t;
    assert depth > 0;
    assert Dec(ty, s, true, depth) == DecChoice(ty.alternatives, s, true, depth - 1);
    var tag := DecTag(s);
    var a := ty.alternatives[FindTag(ty.alternatives, tag.value)];
    TagMoves(s, []);
    AlternativeMoves(a, tag.rest, true, depth - 1, []);
    var p, w := Apart(b, t, tag.rest);
    var q := if p == WrappedTag(tag.value, 1) then WrappedTag(tag.value, 2) else WrappedTag(tag.value, 1);
    WrappedTagBack(tag.value, 1, tag.rest);
    WrappedTagBack(tag.value, 2, tag.rest);
    b' := q + w;
    assert WrappedTag(tag.value, 1)[1] != WrappedTag(tag.value, 2)[1];
    assert b' + t == q + tag.rest;
    assert b' != b by {
      if b' == b {
        SamePrefix(q, p, w);
      }
    }
    assert Dec(ty, b' + t, true, depth) == DecChoice(ty.alternatives, b' + t, true, depth - 1);
  }
}
