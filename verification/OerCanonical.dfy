/**
 Canonicality of COER. On the types of `Canonical` the decoder accepts nothing but what the encoder
 writes, and for an OCTET STRING outside its size range what it would write.
 */
module OerCanonical {
  import opened Common
  import opened Bits
  import opened BigEndian
  import opened OerTypes
  import opened OerEncode
  import opened Decoding
  import opened OerDecode
  import OerRoundTrip

  /** Types whose every value has one COER encoding that the decoder accepts. */
  ghost predicate Canonical(ty: Type)
    decreases ty, 0
  {
    match ty
    case BooleanType => true
    case NullType => true
    case IntegerType(bounds, extensible) => Form(bounds, extensible) != (true, None)
    case OctetStringType(_) => true
    case BitStringType(size) => size.Fixed? && size.n % 8 == 0
    case EnumeratedType(discriminants) =>
      forall i :: 0 <= i < |discriminants| ==> 0 <= discriminants[i] < 128 || |SignedBytes(discriminants[i])| == 8
    case SequenceType(root, extensible, _) =>
      !extensible && (root == [] || !AllOptional(root)) && ComponentsCanonical(root)
    case SequenceOfType(element) => Canonical(element)
    case ChoiceType(_) => false
  }

  ghost predicate ComponentsCanonical(components: seq<Component>)
    decreases components, 0
  {
    components != [] ==> ComponentCanonical(components[0]) && ComponentsCanonical(components[1..])
  }

  ghost predicate ComponentCanonical(c: Component)
    decreases c, 0
  {
    !c.presence.Default? && Canonical(c.ty)
  }

  /** Every OCTET STRING that is encoded has a size its type allows, which the decoder does not check. */
  ghost predicate SizesAllow(ty: Type, v: Value)
    requires Matches(v, ty)
    decreases ty, 0
  {
    match ty
    case OctetStringType(size) => SizeAllows(size, |v.octets|)
    case SequenceType(root, _, _) => FieldsAllow(root, v.root)
    case SequenceOfType(element) => forall i :: 0 <= i < |v.items| ==> SizesAllow(element, v.items[i])
    case _ => true
  }

  ghost predicate FieldsAllow(components: seq<Component>, fields: seq<Option<Value>>)
    requires FieldsMatch(fields, components)
    decreases components, 0
  {
    components != [] ==> FieldAllows(components[0], fields[0]) && FieldsAllow(components[1..], fields[1..])
  }

  ghost predicate FieldAllows(c: Component, field: Option<Value>)
    requires FieldMatches(field, c)
    decreases c, 0
  {
    !Omitted(c, field) ==> SizesAllow(c.ty, field.value)
  }

  /**
   The octets consumed from `s` are the encoding `b`. There is one exactly if the sizes are `allowed`,
   unless an octet string is longer than the encoder's limit.
   */
  ghost predicate Written(b: Option<Bytes>, s: Bytes, rest: Bytes, allowed: bool) {
    (b.Some? ==> allowed && s == b.value + rest) && (|s| <= MAX_PERMITTED_LENGTH && allowed ==> b.Some?)
  }

  lemma WrittenAppend(b1: Option<Bytes>, b2: Option<Bytes>, s: Bytes, middle: Bytes, rest: Bytes, allowed1: bool, allowed2: bool)
    requires Written(b1, s, middle, allowed1) && Written(b2, middle, rest, allowed2)
    ensures Written(Append(b1, b2), s, rest, allowed1 && allowed2)
  {
    if b1.Some? && b2.Some? {
      assert b1.value + (b2.value + rest) == (b1.value + b2.value) + rest;
    }
  }

  lemma NothingWritten(s: Bytes)
    ensures Written(Some([]), s, s, true)
  {
    assert [] + s == s;
  }

  lemma LengthCanonical(s: Bytes)
    requires DecLength(s, true).Ok?
    ensures var n := DecLength(s, true); EncLength(n.value).Some? && s == EncLength(n.value).value + n.rest
  {
    hide UnsignedBytes, UnsignedValue;
    var n := DecLength(s, true);
    if s[0] < 128 {
      assert s == [s[0]] + s[1..];
    } else {
      var data := Take(s[1..], s[0] - 128).value;
      UnsignedCanonical(data);
      UsizeLength(n.value);
      assert s[1..] == data + n.rest;
      assert s == [s[0]] + data + n.rest;
    }
  }

  lemma OpenCanonical(s: Bytes)
    requires DecOpen(s, true).Ok?
    ensures var data := DecOpen(s, true); EncOpen(Some(data.value)).Some? && s == EncOpen(Some(data.value)).value + data.rest
    ensures |DecOpen(s, true).value| <= |s|
  {
    hide DecLength, EncLength;
    LengthCanonical(s);
    var n := DecLength(s, true);
    var data := DecOpen(s, true);
    assert n.rest == data.value + data.rest;
  }

  lemma {:induction false} SignedFixedCanonical(data: Bytes)
    requires data != []
    ensures EncFixed(SignedValue(data), true, |data|) == Some(data)
  {
    hide SignedValue, SignedBytes, Repeat, SignOctet;
    var i := SignedValue(data);
    var b := SignedBytes(i);
    SignedShortest(data);
    SignedRoundTrip(i);
    var padded := Repeat(SignOctet(i < 0), |data| - |b|) + b;
    assert SignedValue(padded) == i by {
      SignedPad(b, |data| - |b|);
    }
    SignedInjective(padded, data);
    assert EncFixed(i, true, |data|) == Some(padded);
  }

  lemma {:induction false} UnsignedFixedCanonical(data: Bytes)
    requires data != []
    ensures EncFixed(UnsignedValue(data), false, |data|) == Some(data)
  {
    hide UnsignedValue, UnsignedBytes, Repeat;
    var i := UnsignedValue(data);
    var b := UnsignedBytes(i);
    UnsignedShortest(data);
    UnsignedRoundTrip(i);
    var padded := Repeat(0, |data| - |b|) + b;
    assert UnsignedValue(padded) == i by {
      UnsignedPad(b, |data| - |b|);
    }
    UnsignedInjective(padded, data);
    assert EncFixed(i, false, |data|) == Some(padded);
  }

  lemma IntegerCanonical(s: Bytes, bounds: Option<Bounds>, extensible: bool)
    requires Form(bounds, extensible) != (true, None) && DecInteger(s, bounds, extensible, true).Ok?
    ensures var r := DecInteger(s, bounds, extensible, true);
            && r.value.IntegerValue? && EncInteger(r.value.i, bounds, extensible).Some?
            && Written(EncInteger(r.value.i, bounds, extensible), s, r.rest, true)
  {
    hide DecOpen, EncOpen, EncFixed, InBounds;
    var (signed, octets) := Form(bounds, extensible);
    var data := if octets.Some? then Take(s, octets.value) else DecOpen(s, true);
    if octets.Some? {
      if signed {
        SignedFixedCanonical(data.value);
      } else {
        UnsignedFixedCanonical(data.value);
      }
      assert s == data.value + data.rest;
    } else {
      OpenCanonical(s);
      UnsignedCanonical(data.value);
    }
  }

  lemma OctetStringCanonical(s: Bytes, size: Size)
    requires DecOctetString(s, size, true).Ok?
    ensures var r := DecOctetString(s, size, true);
            r.value.OctetStringValue? && Written(EncOctetString(r.value.octets, size), s, r.rest, SizeAllows(size, |r.value.octets|))
  {
    hide DecOpen, EncOpen;
    if size.Fixed? {
      assert s == s[..size.n] + s[size.n..];
    } else {
      OpenCanonical(s);
    }
  }

  lemma BitStringCanonical(s: Bytes, size: Size)
    requires size.Fixed? && size.n % 8 == 0 && DecBitString(s, size, true).Ok?
    ensures var r := DecBitString(s, size, true);
            r.value.BitStringValue? && Written(EncBitString(r.value.bits, size), s, r.rest, true)
  {
    hide PackBits, BitsOf;
    var data := Take(s, Octets(size.n));
    PackBitsOf(data.value, size.n);
    assert s == data.value + data.rest;
  }

  lemma EnumeratedCanonical(s: Bytes, discriminants: seq<int>)
    requires Canonical(EnumeratedType(discriminants)) && DecEnumerated(s, discriminants, true).Ok?
    ensures var r := DecEnumerated(s, discriminants, true);
            r.value.EnumeratedValue? && r.value.index < |discriminants| &&
            Written(EncEnumerated(discriminants[r.value.index]), s, r.rest, true)
  {
    hide SignedValue, SignedBytes, FindDiscriminant;
    assert s == [s[0]] + s[1..];
    if s[0] >= 128 {
      var data := Take(s[1..], s[0] - 128);
      var d := SignedValue(data.value);
      SignedShortest(data.value);
      SignedRoundTrip(d);
      SignedInjective(SignedBytes(d), data.value);
      assert s == [s[0]] + data.value + data.rest;
    }
  }

  lemma {:induction false} FieldCanonical(c: Component, present: bool, s: Bytes, depth: nat)
    requires ComponentWellFormed(c) && ComponentCanonical(c) && DecField(c, present, s, true, depth).Ok?
    requires !present ==> IsOptional(c)
    ensures var r := DecField(c, present, s, true, depth);
            FieldMatches(r.value, c) && Written(EncField(c, r.value), s, r.rest, FieldAllows(c, r.value)) &&
            (IsOptional(c) ==> present == !Omitted(c, r.value))
    decreases c, 0, 0
  {
    hide Enc, Dec, Canonical, Matches, WellFormed, SizesAllow;
    if present {
      Accepted(c.ty, s, depth);
    } else {
      assert [] + s == s;
    }
  }

  lemma {:induction false} FieldsCanonical(components: seq<Component>, bits: seq<bool>, s: Bytes, depth: nat)
    requires ComponentsWellFormed(components) && ComponentsCanonical(components)
    requires |bits| == OptionalCount(components) && DecFields(components, bits, s, true, depth).Ok?
    ensures var r := DecFields(components, bits, s, true, depth);
            FieldsMatch(r.value, components) && Written(EncFields(components, r.value), s, r.rest, FieldsAllow(components, r.value)) &&
            PresenceBits(components, r.value) == bits
    decreases components, 0, 0
  {
    hide DecField, EncField, FieldMatches, ComponentWellFormed, ComponentCanonical, Omitted, Written, Append, FieldsMatch, EncFields, PresenceBits, FieldsAllow, FieldAllows;
    if components == [] {
      EmptyFields();
      NothingWritten(s);
    } else {
      var c := components[0];
      var present := IsOptional(c) ==> bits[0];
      FieldCanonical(c, present, s, depth);
      var first := DecField(c, present, s, true, depth);
      var bits' := if IsOptional(c) then bits[1..] else bits;
      FieldsCanonical(components[1..], bits', first.rest, depth);
      var rest := DecFields(components[1..], bits', first.rest, true, depth);
      FieldsWritten(components, first.value, rest.value, bits);
      WrittenAppend(EncField(c, first.value), EncFields(components[1..], rest.value), s, first.rest, rest.rest,
                    FieldAllows(c, first.value), FieldsAllow(components[1..], rest.value));
    }
  }

  lemma {:induction false} FieldsWritten(components: seq<Component>, first: Option<Value>, rest: seq<Option<Value>>, bits: seq<bool>)
    requires components != [] && ComponentsWellFormed(components)
    requires FieldMatches(first, components[0]) && FieldsMatch(rest, components[1..]) && |rest| == |components| - 1
    requires |bits| == OptionalCount(components)
    requires IsOptional(components[0]) ==> bits[0] == !Omitted(components[0], first)
    requires PresenceBits(components[1..], rest) == if IsOptional(components[0]) then bits[1..] else bits
    ensures FieldsMatch([first] + rest, components)
    ensures EncFields(components, [first] + rest) == Append(EncField(components[0], first), EncFields(components[1..], rest))
    ensures PresenceBits(components, [first] + rest) == bits
    ensures FieldsAllow(components, [first] + rest) == (FieldAllows(components[0], first) && FieldsAllow(components[1..], rest))
  {
    hide EncField, FieldAllows, FieldMatches, Append, Omitted, ComponentWellFormed;
    var fields := [first] + rest;
    assert fields[1..] == rest;
    assert IsOptional(components[0]) ==> bits == [bits[0]] + bits[1..];
  }

  lemma {:induction false} SequenceCanonical(ty: Type, s: Bytes, depth: nat)
    requires ty.SequenceType? && WellFormed(ty) && Canonical(ty) && DecSequence(ty, s, true, depth).Ok?
    ensures var r := DecSequence(ty, s, true, depth);
            Matches(r.value, ty) && Written(EncSequence(ty, r.value), s, r.rest, SizesAllow(ty, r.value))
    decreases ty, 0, 0
  {
    hide DecFields, EncFields, PackBits, BitsOf, AllOptional, ZeroFrom, ComponentsWellFormed, ComponentsCanonical, FieldsMatch, FieldsAllow;
    var r := DecSequence(ty, s, true, depth);
    EmptyFields();
    if ty.root == [] {
      var v := r.value;
      assert v == SequenceValue([], []);
      assert Preamble(ty, v) == [];
      assert PackBits([]) == [];
      assert EncSequence(ty, v) == Some([]);
      assert [] + s == s;
    } else {
      var bits := DecPreamble(ty, s);
      var data := Take(s, Octets(|bits.value|)).value;
      PackBitsOf(data, |bits.value|);
      assert s == PackBits(bits.value) + bits.rest;
      FieldsCanonical(ty.root, bits.value, bits.rest, depth);
      assert Preamble(ty, r.value) == bits.value;
      var b := EncFields(ty.root, r.value.root);
      assert EncExtension(ty, r.value) == Some([]);
      assert b.Some? ==> PackBits(bits.value) + (b.value + r.rest) == (PackBits(bits.value) + (b.value + [])) + r.rest;
    }
  }

  lemma EmptyFields()
    ensures FieldsMatch([], []) && EncFields([], []) == Some([]) && PresenceBits([], []) == [] && FieldsAllow([], [])
  {
  }

  lemma {:induction false} ItemsCanonical(element: Type, n: nat, s: Bytes, depth: nat)
    requires WellFormed(element) && Canonical(element) && DecItems(element, n, s, true, depth).Ok?
    ensures var r := DecItems(element, n, s, true, depth);
            (forall i :: 0 <= i < |r.value| ==> Matches(r.value[i], element)) &&
            Written(EncItems(element, r.value), s, r.rest, forall i :: 0 <= i < |r.value| ==> SizesAllow(element, r.value[i]))
    decreases element, 2, n
  {
    hide Enc, Dec, Canonical, Matches, WellFormed, Written, Append, SizesAllow;
    if n == 0 {
      NothingWritten(s);
    } else {
      Accepted(element, s, depth);
      var first := Dec(element, s, true, depth);
      ItemsCanonical(element, n - 1, first.rest, depth);
      var rest := DecItems(element, n - 1, first.rest, true, depth);
      var r := DecItems(element, n, s, true, depth);
      assert r.value[1..] == rest.value;
      WrittenAppend(Enc(element, first.value), EncItems(element, rest.value), s, first.rest, rest.rest,
                    SizesAllow(element, first.value), forall i :: 0 <= i < |rest.value| ==> SizesAllow(element, rest.value[i]));
      assert forall i :: 1 <= i < |r.value| ==> r.value[i] == rest.value[i - 1];
    }
  }

  lemma {:induction false} SequenceOfCanonical(ty: Type, s: Bytes, depth: nat)
    requires ty.SequenceOfType? && WellFormed(ty) && Canonical(ty) && DecSequenceOf(ty.element, s, true, depth).Ok?
    ensures var r := DecSequenceOf(ty.element, s, true, depth);
            Matches(r.value, ty) && Written(Enc(ty, r.value), s, r.rest, SizesAllow(ty, r.value))
    decreases ty, 0, 0
  {
    hide DecOpen, EncOpen, DecItems, EncItems;
    OpenCanonical(s);
    var quantity := DecOpen(s, true);
    UnsignedCanonical(quantity.value);
    var n := Usize(quantity.value).value;
    UsizeLength(n);
    ItemsCanonical(ty.element, n, quantity.rest, depth);
    var r := DecSequenceOf(ty.element, s, true, depth);
    var q, b := EncQuantity(n).value, EncItems(ty.element, r.value.items);
    assert b.Some? ==> q + (b.value + r.rest) == (q + b.value) + r.rest;
  }

  /**
   Whatever the COER decoder accepts has the shape of the type, and is its encoding followed by the
   remainder; there is an encoding exactly if the sizes allow it.
   */
  lemma {:induction false} Accepted(ty: Type, s: Bytes, depth: nat)
    requires WellFormed(ty) && Canonical(ty) && Dec(ty, s, true, depth).Ok?
    ensures var r := Dec(ty, s, true, depth);
            Matches(r.value, ty) && Written(Enc(ty, r.value), s, r.rest, SizesAllow(ty, r.value))
    decreases ty, 1, 0
  {
    hide DecSequence, DecSequenceOf, DecInteger, DecOctetString, DecBitString, DecEnumerated, EncSequence;
    match ty
    case BooleanType => assert s == [s[0]] + s[1..];
    case NullType => assert [] + s == s;
    case IntegerType(bounds, extensible) => IntegerCanonical(s, bounds, extensible);
    case OctetStringType(size) => OctetStringCanonical(s, size);
    case BitStringType(size) => BitStringCanonical(s, size);
    case EnumeratedType(discriminants) => EnumeratedCanonical(s, discriminants);
    case SequenceType(_, _, _) => SequenceCanonical(ty, s, depth - 1);
    case SequenceOfType(_) => SequenceOfCanonical(ty, s, depth - 1);
  }

  /** An OCTET STRING whose size is only bounded: the decoder accepts sizes that are not encoded. */
  lemma SizeUnchecked(least: nat, most: nat, octets: Bytes, depth: nat) returns (s: Bytes)
    requires |octets| < TWO_64 && !(least <= |octets| <= most)
    ensures Dec(OctetStringType(Ranged(least, most)), s, true, depth) == Ok(OctetStringValue(octets), [])
    ensures Enc(OctetStringType(Ranged(least, most)), OctetStringValue(octets)) == None
  {
    hide DecOpen;
    s := Opened(octets);
  }

  lemma Opened(b: Bytes) returns (s: Bytes)
    requires |b| < TWO_64
    ensures DecOpen(s, true) == Ok(b, [])
  {
    hide DecOpen, EncLength;
    OerRoundTrip.EncLengthBound(|b|);
    s := EncOpen(Some(b)).value;
    OerRoundTrip.OpenBack(b, [], true);
    assert s + [] == s;
  }
}
