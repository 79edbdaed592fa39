/**
 Decoding an OER encoding. An encoded value followed by any tail decodes to the value and leaves
 the tail, exactly if the decoder carries it (`Carries`); otherwise decoding fails or gives another value.
 */
module OerRoundTrip {
  import opened Common
  import opened Bits
  import opened BigEndian
  import opened OerTypes
  import opened OerTag
  import opened OerEncode
  import opened Decoding
  import opened OerDecode

  /**
   What the decoder demands beyond what the encoder checks: nesting within `depth`, alternatives with tags
   that it reads as they are written, OPTIONAL and DEFAULT root components it recognizes when they are present, an INTEGER with an extensible constraint inside
   the root range, an INTEGER with any constraint within 128 bits, and under COER no zero in an INTEGER
   that is unsigned without a fixed width.
   */
  ghost predicate Carries(ty: Type, v: Value, coer: bool, depth: nat)
    requires Encodable(v, ty)
    decreases ty, 1, 0
  {
    match ty
    case IntegerType(bounds, extensible) =>
      Admitted(v.i, bounds) && !(coer && v.i == 0 && Form(bounds, extensible) == (false, None))
    case SequenceType(root, _, additions) =>
      depth > 0 && FieldsCarry(root, v.root, coer, depth - 1) && AdditionsCarry(additions, v.additions, coer, depth - 1)
    case SequenceOfType(element) =>
      depth > 0 && forall i :: 0 <= i < |v.items| ==> Carries(element, v.items[i], coer, depth - 1)
    case ChoiceType(alternatives) =>
      depth > 0 && TagReturns(alternatives[v.chosen].tag) && Carries(alternatives[v.chosen].ty, v.inner, coer, depth - 1)
    case _ => true
  }

  ghost predicate FieldsCarry(components: seq<Component>, fields: seq<Option<Value>>, coer: bool, depth: nat)
    requires FieldsEncodable(fields, components)
    decreases components, 0, 0
  {
    components != [] ==>
      FieldCarries(components[0], fields[0], coer, depth) && FieldsCarry(components[1..], fields[1..], coer, depth)
  }

  ghost predicate FieldCarries(c: Component, field: Option<Value>, coer: bool, depth: nat)
    requires ComponentWellFormed(c) && FieldMatches(field, c)
    decreases c, 0, 0
  {
    !Omitted(c, field) ==> (IsOptional(c) ==> Recognized(c)) && Carries(c.ty, field.value, coer, depth)
  }

  ghost predicate AdditionsCarry(components: seq<Component>, fields: seq<Option<Value>>, coer: bool, depth: nat)
    requires FieldsEncodable(fields, components)
    decreases components, 0, 0
  {
    components != [] ==>
      AdditionCarries(components[0], fields[0], coer, depth) && AdditionsCarry(components[1..], fields[1..], coer, depth)
  }

  ghost predicate AdditionCarries(c: Component, field: Option<Value>, coer: bool, depth: nat)
    requires ComponentWellFormed(c) && FieldMatches(field, c)
    decreases c, 0, 0
  {
    field.Some? ==> Carries(c.ty, field.value, coer, depth)
  }

  // ----- The other values -----

  /** Every tag of a type is read as it was written. */
  ghost predicate TagsReturn(ty: Type)
    decreases ty, 0
  {
    match ty
    case SequenceType(root, _, additions) => ComponentTagsReturn(root) && ComponentTagsReturn(additions)
    case SequenceOfType(element) => TagsReturn(element)
    case ChoiceType(alternatives) =>
      forall i :: 0 <= i < |alternatives| ==> TagReturns(alternatives[i].tag) && TagsReturn(alternatives[i].ty)
    case _ => true
  }

  ghost predicate ComponentTagsReturn(components: seq<Component>)
    decreases components, 0
  {
    components != [] ==> FieldTagsReturn(components[0]) && ComponentTagsReturn(components[1..])
  }

  ghost predicate FieldTagsReturn(c: Component)
    decreases c, 0
  {
    TagsReturn(c.ty)
  }

  /**
   A carried value comes back with the tail left. In place of another there is an error, or a different value
   where a tag is not read as it was written.
   */
  predicate Back<T(==)>(r: Decoded<T>, v: T, t: Bytes, carried: bool, returning: bool) {
    if carried then r == Ok(v, t) else r.Err? || (!returning && r.value != v)
  }

  // ----- Primitive encodings -----

  lemma LengthBack(n: nat, t: Bytes, coer: bool)
    requires n < TWO_64
    ensures EncLength(n).Some? && DecLength(EncLength(n).value + t, coer) == Ok(n, t)
  {
    if n >= 128 {
      UsizeLength(n);
      UnsignedRoundTrip(n);
      UnsignedMinimal(n);
      var b := UnsignedBytes(n);
      var s := EncLength(n).value + t;
      assert s[1..] == b + t;
      assert (b + t)[..|b|] == b && (b + t)[|b|..] == t;
    } else {
      assert ([n] + t)[1..] == t;
    }
  }

  lemma OpenBack(b: Bytes, t: Bytes, coer: bool)
    requires EncOpen(Some(b)).Some?
    ensures DecOpen(EncOpen(Some(b)).value + t, coer) == Ok(b, t)
  {
    hide EncLength, DecLength;
    EncLengthBound(|b|);
    LengthBack(|b|, b + t, coer);
    var s := EncOpen(Some(b)).value + t;
    assert s == EncLength(|b|).value + (b + t);
    assert (b + t)[..|b|] == b && (b + t)[|b|..] == t;
  }

  lemma EncLengthBound(n: nat)
    ensures EncLength(n).Some? <==> n < TWO_64
  {
  }

  lemma FixedBack(i: int, signed: bool, octets: nat, t: Bytes, coer: bool)
    requires !signed ==> i >= 0
    requires EncFixed(i, signed, octets).Some? && octets > 0
    ensures DecIntegerBytes(EncFixed(i, signed, octets).value + t, signed, Some(octets), coer) == Ok(i, t)
  {
    var b := IntegerBytes(i, signed);
    var data := EncFixed(i, signed, octets).value;
    assert (data + t)[..octets] == data && (data + t)[octets..] == t;
    if signed {
      SignedRoundTrip(i);
      SignedPad(b, octets - |b|);
    } else {
      UnsignedRoundTrip(i);
      UnsignedPad(b, octets - |b|);
    }
  }

  lemma FreeBack(i: int, signed: bool, t: Bytes, coer: bool)
    requires !signed ==> i >= 0
    requires EncOpen(Some(IntegerBytes(i, signed))).Some?
    ensures DecIntegerBytes(EncOpen(Some(IntegerBytes(i, signed))).value + t, signed, None, coer) ==
            if coer && !signed && i == 0 then Err else Ok(i, t)
  {
    hide EncOpen, DecOpen;
    OpenBack(IntegerBytes(i, signed), t, coer);
    if signed {
      SignedRoundTrip(i);
    } else {
      UnsignedRoundTrip(i);
      UnsignedMinimal(i);
    }
  }

  lemma IntegerBack(i: int, bounds: Option<Bounds>, extensible: bool, t: Bytes, coer: bool)
    requires EncInteger(i, bounds, extensible).Some?
    ensures DecInteger(EncInteger(i, bounds, extensible).value + t, bounds, extensible, coer) ==
            if Admitted(i, bounds) && !(coer && i == 0 && Form(bounds, extensible) == (false, None))
            then Ok(IntegerValue(i), t) else Err
  {
    hide EncFixed, EncOpen, DecIntegerBytes;
    var (signed, octets) := Form(bounds, extensible);
    if octets.Some? {
      FixedBack(i, signed, octets.value, t, coer);
    } else {
      FreeBack(i, signed, t, coer);
    }
  }

  /** INTEGER (0..10, ...): the value 11 outside the root range is encoded, and rejected by the decoder. */
  lemma OutsideRoot(coer: bool, depth: nat)
    ensures var bounds := Some(Bounds(Some(0), Some(10)));
            EncInteger(11, bounds, true) == Some([1, 11]) && Dec(IntegerType(bounds, true), [1, 11], coer, depth) == Err
  {
    var bounds := Some(Bounds(Some(0), Some(10)));
    var b := [1, 11];
    assert SignedBytes(11) == [11];
    assert EncLength(1) == Some([1]) && [1] + [11] == b;
    assert b + [] == b;
    IntegerBack(11, bounds, true, [], coer);
  }

  /** INTEGER (0..MAX): the encoding of zero is rejected under COER, and accepted by basic OER. */
  lemma ZeroRejected(depth: nat)
    ensures var bounds := Some(Bounds(Some(0), None));
            && EncInteger(0, bounds, false) == Some([1, 0])
            && Dec(IntegerType(bounds, false), [1, 0], true, depth) == Err
            && Dec(IntegerType(bounds, false), [1, 0], false, depth) == Ok(IntegerValue(0), [])
  {
    var bounds := Some(Bounds(Some(0), None));
    var b := [1, 0];
    assert UnsignedBytes(0) == [0];
    assert EncLength(1) == Some([1]) && [1] + [0] == b;
    assert b + [] == b;
    IntegerBack(0, bounds, false, [], true);
    IntegerBack(0, bounds, false, [], false);
  }

  lemma OctetStringBack(octets: Bytes, size: Size, t: Bytes, coer: bool)
    requires EncOctetString(octets, size).Some?
    ensures DecOctetString(EncOctetString(octets, size).value + t, size, coer) == Ok(OctetStringValue(octets), t)
  {
    hide EncOpen, DecOpen;
    if size.Fixed? {
      assert (octets + t)[..|octets|] == octets && (octets + t)[|octets|..] == t;
    } else {
      OpenBack(octets, t, coer);
    }
  }

  lemma BitStringBack(bits: seq<bool>, size: Size, t: Bytes, coer: bool)
    requires EncBitString(bits, size).Some?
    ensures DecBitString(EncBitString(bits, size).value + t, size, coer) == Ok(BitStringValue(bits), t)
  {
    hide EncLength, DecLength, PackBits, BitsOf, Take, Missing, Octets;
    var b := PackBits(bits);
    BitsOfPackBits(bits);
    TakeBack(b, t);
    if !size.Fixed? {
      var m := Missing(|bits|);
      var contents := [m] + b;
      OctetsBound(|bits|);
      LengthBack(|contents|, contents + t, coer);
      assert EncBitString(bits, size).value + t == EncLength(|contents|).value + (contents + t);
      assert DecByte(contents + t) == Ok(m, b + t);
    }
  }

  lemma OctetsBound(n: nat)
    requires n <= MAX_PERMITTED_LENGTH
    ensures 8 * Octets(n) < TWO_64 && 8 * Octets(n) - Missing(n) == n
    ensures Octets(n) == 0 ==> Missing(n) == 0
  {
  }

  lemma EnumeratedBack(discriminants: seq<int>, index: nat, t: Bytes, coer: bool)
    requires WellFormed(EnumeratedType(discriminants)) && index < |discriminants|
    ensures EncEnumerated(discriminants[index]).Some?
    ensures DecEnumerated(EncEnumerated(discriminants[index]).value + t, discriminants, coer) == Ok(EnumeratedValue(index), t)
  {
    var d := discriminants[index];
    assert FindDiscriminant(discriminants, d) == index;
    if 0 <= d < 128 {
      assert ([d] + t)[1..] == t;
    } else {
      EightOctets();
      SignedLength(d, 8);
      SignedRoundTrip(d);
      var b := SignedBytes(d);
      var s := [128 + |b|] + b + t;
      assert s[1..] == b + t;
      assert (b + t)[..|b|] == b && (b + t)[|b|..] == t;
    }
  }

  /** A number from 63 on is read mirrored, or rejected when the first group of its digits is zero. */
  lemma {:induction false} LargeTag(tag: Tag, t: Bytes)
    requires tag.value >= 63
    ensures Mirror(tag.value) < TWO_32
    ensures DecTag(EncTag(tag) + t) ==
            if Number(Filled(Digits(tag.value))[..7], 0) == 0 then Err else Ok(Tag(tag.cls, Mirror(tag.value)), t)
  {
    hide DecBase128, Number, Digits, Filled, Septets;
    var first: Byte := 64 * tag.cls + 63;
    assert first / 64 == tag.cls && first % 64 == 63;
    var bits := Filled(Digits(tag.value));
    var s := Septets(bits) + t;
    assert EncTag(tag) + t == [first] + s;
    assert ([first] + s)[1..] == s;
    FirstGroup(bits);
    MirrorFits(tag.value);
    FilledNumber(Digits(tag.value));
    SeptetsBack(bits, t);
  }

  /**
   A tag comes back exactly if its number is below 63, or has binary digits that read the same both ways and
   whose count is no multiple of seven; otherwise another tag is read, or none.
   */
  lemma {:induction false} TagBack(tag: Tag, t: Bytes)
    ensures var r := DecTag(EncTag(tag) + t);
            if TagReturns(tag) then r == Ok(tag, t) else r.Err? || r.value != tag
  {
    hide DecBase128, Number, Digits, Filled, Septets, Mirror, DecTag;
    if tag.value < 63 {
      SmallTag(tag, t);
    } else {
      LargeTag(tag, t);
      if Mirror(tag.value) == tag.value {
        FirstGroupOf(tag.value);
      }
    }
  }

  lemma SmallTag(tag: Tag, t: Bytes)
    requires tag.value < 63
    ensures DecTag(EncTag(tag) + t) == Ok(tag, t)
  {
    hide DecBase128, Septets;
    var b := 64 * tag.cls + tag.value;
    assert b / 64 == tag.cls && b % 64 == tag.value;
    assert ([b] + t)[1..] == t;
  }

  lemma QuantityBack(n: nat, t: Bytes, coer: bool)
    requires EncQuantity(n).Some?
    ensures var q := DecOpen(EncQuantity(n).value + t, coer);
            q == Ok(UnsignedBytes(n), t) && Usize(q.value) == Some(n) && (|q.value| > 1 ==> q.value[0] != 0)
  {
    hide EncOpen, DecOpen;
    OpenBack(UnsignedBytes(n), t, coer);
    UsizeLength(n);
    UnsignedRoundTrip(n);
    UnsignedMinimal(n);
  }

  lemma PreambleBack(ty: Type, v: Value, t: Bytes)
    requires ty.SequenceType? && v.SequenceValue? && |ty.root| == |v.root|
    ensures DecPreamble(ty, PackBits(Preamble(ty, v)) + t) == Ok(Preamble(ty, v), t)
  {
    hide PackBits, BitsOf, ZeroFrom;
    var bits := Preamble(ty, v);
    var b := PackBits(bits);
    BitsOfPackBits(bits);
    assert (b + t)[..|b|] == b && (b + t)[|b|..] == t;
  }

  lemma BitmapBack(fields: seq<Option<Value>>, additions: seq<Component>, t: Bytes, coer: bool)
    requires FieldsMatch(fields, additions) && EncBitmap(AdditionBits(fields)).Some? && AnyAddition(fields)
    ensures DecBitmap(EncBitmap(AdditionBits(fields)).value + t, additions, coer) == Ok(AdditionBits(fields), t)
  {
    hide EncOpen, DecOpen, PackBits, BitmapBits;
    var bits := AdditionBits(fields);
    var b := PackBits(bits);
    var contents := [Missing(|bits|)] + b;
    OpenBack(contents, t, coer);
    assert contents[1..] == b;
    BitmapBitsBack(bits);
    FieldsLength(fields, additions);
    RequiredPresent(fields, additions);
  }

  lemma BitmapBitsBack(bits: seq<bool>)
    ensures BitmapBits(PackBits(bits), |bits|) == bits
  {
    hide PackBits;
    var b := PackBits(bits);
    BitsOfPackBits(bits);
    assert BitmapBits(b, |bits|) == BitsOf(b, |bits|);
  }

  lemma {:induction false} RequiredPresent(fields: seq<Option<Value>>, components: seq<Component>)
    requires FieldsMatch(fields, components) && |fields| == |components|
    ensures forall i :: 0 <= i < |components| && !components[i].presence.Optional? ==> fields[i].Some?
  {
    if components != [] {
      FieldsLength(fields[1..], components[1..]);
      RequiredPresent(fields[1..], components[1..]);
      assert forall i :: 1 <= i < |components| ==> components[1..][i - 1] == components[i] && fields[1..][i - 1] == fields[i];
    }
  }

  // ----- The induction -----

  lemma {:induction false} FieldBack(c: Component, field: Option<Value>, coer: bool, depth: nat, t: Bytes)
    requires ComponentWellFormed(c) && FieldMatches(field, c) && EncField(c, field).Some?
    ensures Back(DecField(c, IsOptional(c) ==> !Omitted(c, field), EncField(c, field).value + t, coer, depth), field, t,
                 FieldCarries(c, field, coer, depth), FieldTagsReturn(c))
    decreases c, 0, 0
  {
    hide Enc, Dec, Carries, Matches, WellFormed;
    if Omitted(c, field) {
      assert [] + t == t;
    } else {
      ValueBack(c.ty, field.value, coer, depth, t);
    }
  }

  lemma {:induction false} FieldsBack(components: seq<Component>, fields: seq<Option<Value>>, coer: bool, depth: nat, t: Bytes)
    requires FieldsEncodable(fields, components) && EncFields(components, fields).Some?
    requires |fields| == |components|
    ensures Back(DecFields(components, PresenceBits(components, fields), EncFields(components, fields).value + t, coer, depth), fields, t,
                 FieldsCarry(components, fields, coer, depth), ComponentTagsReturn(components))
    decreases components, 0, 0
  {
    hide EncField, DecField, FieldCarries, FieldMatches, ComponentWellFormed;
    if components == [] {
      assert [] + t == t;
    } else {
      var c := components[0];
      var rest := EncFields(components[1..], fields[1..]).value;
      var first := EncField(c, fields[0]).value;
      assert EncFields(components, fields).value + t == first + (rest + t);
      FieldBack(c, fields[0], coer, depth, rest + t);
      FieldsBack(components[1..], fields[1..], coer, depth, t);
      var bits := PresenceBits(components, fields);
      assert IsOptional(c) ==> bits[1..] == PresenceBits(components[1..], fields[1..]);
      assert !IsOptional(c) ==> bits == PresenceBits(components[1..], fields[1..]);
      assert [fields[0]] + fields[1..] == fields;
    }
  }

  lemma {:induction false} ContainedBack(ty: Type, v: Value, coer: bool, depth: nat, t: Bytes)
    requires Encodable(v, ty) && EncOpen(Enc(ty, v)).Some?
    ensures Back(DecContained(ty, EncOpen(Enc(ty, v)).value + t, coer, depth), v, t,
                 Carries(ty, v, coer, depth), TagsReturn(ty))
    decreases ty, 2, 0
  {
    hide Enc, Dec, Carries, Matches, WellFormed, DecOpen;
    var b := Enc(ty, v).value;
    OpenBack(b, t, coer);
    ValueBack(ty, v, coer, depth, []);
    assert b + [] == b;
  }

  lemma {:induction false} AdditionBack(c: Component, field: Option<Value>, coer: bool, depth: nat, t: Bytes)
    requires ComponentWellFormed(c) && FieldMatches(field, c) && EncAddition(c, field).Some?
    ensures Back(DecAddition(c, field.Some?, EncAddition(c, field).value + t, coer, depth), field, t,
                 AdditionCarries(c, field, coer, depth), FieldTagsReturn(c))
    decreases c, 0, 0
  {
    hide Enc, DecContained, Carries, Matches, WellFormed, EncOpen;
    if field.None? {
      assert [] + t == t;
    } else {
      ContainedBack(c.ty, field.value, coer, depth, t);
    }
  }

  lemma {:induction false} AdditionsBack(components: seq<Component>, fields: seq<Option<Value>>, coer: bool, depth: nat, t: Bytes)
    requires FieldsEncodable(fields, components) && EncAdditions(components, fields).Some?
    requires |fields| == |components|
    ensures Back(DecAdditions(components, AdditionBits(fields), EncAdditions(components, fields).value + t, coer, depth), fields, t,
                 AdditionsCarry(components, fields, coer, depth), ComponentTagsReturn(components))
    decreases components, 0, 0
  {
    hide EncAddition, DecAddition, AdditionCarries, FieldMatches, ComponentWellFormed;
    if components == [] {
      assert [] + t == t;
    } else {
      var c := components[0];
      var rest := EncAdditions(components[1..], fields[1..]).value;
      var first := EncAddition(c, fields[0]).value;
      assert EncAdditions(components, fields).value + t == first + (rest + t);
      AdditionBack(c, fields[0], coer, depth, rest + t);
      AdditionsBack(components[1..], fields[1..], coer, depth, t);
      assert AdditionBits(fields)[1..] == AdditionBits(fields[1..]);
      assert [fields[0]] + fields[1..] == fields;
    }
  }

  lemma {:induction false} NoAddition(components: seq<Component>, fields: seq<Option<Value>>, coer: bool, depth: nat)
    requires FieldsEncodable(fields, components) && |fields| == |components| && !AnyAddition(fields)
    ensures AdditionsCarry(components, fields, coer, depth)
    ensures AllOptional(components) && Initial(components) == fields
  {
    hide Carries;
    RequiredPresent(fields, components);
    if components != [] {
      assert forall i :: 1 <= i < |components| ==> components[1..][i - 1] == components[i] && fields[1..][i - 1] == fields[i];
      NoAddition(components[1..], fields[1..], coer, depth);
    }
  }

  lemma {:induction false} ExtensionBack(ty: Type, v: Value, coer: bool, depth: nat, t: Bytes)
    requires ty.SequenceType? && Encodable(v, ty) && EncExtension(ty, v).Some?
    ensures Back(DecExtension(ty.additions, AnyAddition(v.additions), EncExtension(ty, v).value + t, coer, depth), v.additions, t,
                 AdditionsCarry(ty.additions, v.additions, coer, depth), ComponentTagsReturn(ty.additions))
    decreases ty.additions, 1, 0
  {
    hide EncBitmap, EncAdditions, DecBitmap, DecAdditions, AdditionsCarry;
    FieldsLength(v.additions, ty.additions);
    if AnyAddition(v.additions) {
      var bitmap := EncBitmap(AdditionBits(v.additions)).value;
      var contents := EncAdditions(ty.additions, v.additions).value;
      assert EncExtension(ty, v).value + t == bitmap + (contents + t);
      BitmapBack(v.additions, ty.additions, contents + t, coer);
      AdditionsBack(ty.additions, v.additions, coer, depth, t);
    } else {
      assert [] + t == t;
      NoAddition(ty.additions, v.additions, coer, depth);
    }
  }

  lemma {:induction false} SequenceBack(ty: Type, v: Value, coer: bool, depth: nat, t: Bytes)
    requires ty.SequenceType? && Encodable(v, ty) && EncSequence(ty, v).Some?
    ensures Back(DecSequence(ty, EncSequence(ty, v).value + t, coer, depth), v, t,
                 FieldsCarry(ty.root, v.root, coer, depth) && AdditionsCarry(ty.additions, v.additions, coer, depth), TagsReturn(ty))
    decreases ty, 0, 0
  {
    hide PackBits, EncFields, DecFields, EncExtension, DecExtension, DecPreamble, FieldsCarry, AdditionsCarry;
    FieldsLength(v.root, ty.root);
    FieldsLength(v.additions, ty.additions);
    var bits := Preamble(ty, v);
    var root := EncFields(ty.root, v.root).value;
    var extension := EncExtension(ty, v).value;
    var s := EncSequence(ty, v).value + t;
    if ty.root == [] {
      EmptySequence(ty, v, coer, depth);
      assert s == t;
    } else {
      assert s == PackBits(bits) + (root + (extension + t));
      PreambleBack(ty, v, root + (extension + t));
      NonemptyInput(ty, v);
      FieldsBack(ty.root, v.root, coer, depth, extension + t);
      ExtensionBack(ty, v, coer, depth, t);
      assert ty.extensible ==> bits[1..] == PresenceBits(ty.root, v.root);
      assert !ty.extensible ==> bits == PresenceBits(ty.root, v.root) && !AnyAddition(v.additions);
    }
  }

  lemma EmptySequence(ty: Type, v: Value, coer: bool, depth: nat)
    requires ty.SequenceType? && Encodable(v, ty) && ty.root == []
    ensures ty.additions == [] && v == SequenceValue([], []) && EncSequence(ty, v) == Some([])
    ensures FieldsCarry(ty.root, v.root, coer, depth) && AdditionsCarry(ty.additions, v.additions, coer, depth)
  {
    FieldsLength(v.root, ty.root);
    FieldsLength(v.additions, ty.additions);
    assert PackBits(Preamble(ty, v)) == [];
  }

  /** A SEQUENCE whose root components are all optional has a preamble, so its encoding is not empty. */
  lemma NonemptyInput(ty: Type, v: Value)
    requires ty.SequenceType? && v.SequenceValue? && |ty.root| == |v.root| && ty.root != []
    ensures AllOptional(ty.root) ==> PackBits(Preamble(ty, v)) != []
  {
  }

  lemma {:induction false} ItemsBack(element: Type, items: seq<Value>, coer: bool, depth: nat, t: Bytes)
    requires WellFormed(element) && forall i :: 0 <= i < |items| ==> Matches(items[i], element)
    requires EncItems(element, items).Some?
    ensures Back(DecItems(element, |items|, EncItems(element, items).value + t, coer, depth), items, t,
                 forall i :: 0 <= i < |items| ==> Carries(element, items[i], coer, depth), TagsReturn(element))
    decreases element, 2, |items|
  {
    hide Enc, Dec, Carries, Matches, WellFormed;
    if items == [] {
      assert [] + t == t;
    } else {
      var first := Enc(element, items[0]).value;
      var rest := EncItems(element, items[1..]).value;
      assert EncItems(element, items).value + t == first + (rest + t);
      ValueBack(element, items[0], coer, depth, rest + t);
      ItemsBack(element, items[1..], coer, depth, t);
      assert [items[0]] + items[1..] == items;
      assert forall i :: 1 <= i < |items| ==> items[1..][i - 1] == items[i];
    }
  }

  lemma {:induction false} SequenceOfBack(ty: Type, v: Value, coer: bool, depth: nat, t: Bytes)
    requires ty.SequenceOfType? && Encodable(v, ty) && Enc(ty, v).Some?
    ensures Back(DecSequenceOf(ty.element, Enc(ty, v).value + t, coer, depth), v, t,
                 forall i :: 0 <= i < |v.items| ==> Carries(ty.element, v.items[i], coer, depth), TagsReturn(ty))
    decreases ty, 0, 0
  {
    hide EncQuantity, EncItems, DecItems, DecOpen, Carries, Usize;
    var quantity := EncQuantity(|v.items|).value;
    var items := EncItems(ty.element, v.items).value;
    assert Enc(ty, v).value + t == quantity + (items + t);
    QuantityBack(|v.items|, items + t, coer);
    ItemsBack(ty.element, v.items, coer, depth, t);
  }

  lemma {:induction false} ChoiceBack(ty: Type, v: Value, coer: bool, depth: nat, t: Bytes)
    requires ty.ChoiceType? && Encodable(v, ty) && Enc(ty, v).Some?
    ensures Back(DecChoice(ty.alternatives, Enc(ty, v).value + t, coer, depth), v, t,
                 TagReturns(ty.alternatives[v.chosen].tag) && Carries(ty.alternatives[v.chosen].ty, v.inner, coer, depth),
                 TagsReturn(ty))
    decreases ty, 0, 0
  {
    hide EncTag, DecTag, EncOpen, DecContained, Carries, Dec;
    var a := ty.alternatives[v.chosen];
    var contents := (if a.extension then EncOpen(Enc(a.ty, v.inner)) else Enc(a.ty, v.inner)).value;
    assert Enc(ty, v).value + t == EncTag(a.tag) + (contents + t);
    TagBack(a.tag, contents + t);
    assert FindTag(ty.alternatives, a.tag) == v.chosen;
    if a.extension {
      ContainedBack(a.ty, v.inner, coer, depth, t);
    } else {
      ValueBack(a.ty, v.inner, coer, depth, t);
    }
  }

  /**
   The OER round trip (clauses 8 to 20 of X.696). For every well-formed type, every value the
   encoder accepts and every tail, decoding the encoding followed by the tail gives exactly the value
   and the tail if the decoder carries it. Otherwise there is an error, or another value if a tag of the
   type is not read as it was written.
   */
  lemma {:induction false} ValueBack(ty: Type, v: Value, coer: bool, depth: nat, t: Bytes)
    requires Encodable(v, ty) && Enc(ty, v).Some?
    ensures Back(Dec(ty, Enc(ty, v).value + t, coer, depth), v, t, Carries(ty, v, coer, depth), TagsReturn(ty))
    decreases ty, 1, 0
  {
    hide DecSequence, DecSequenceOf, DecChoice, EncSequence;
    match ty
    case BooleanType =>
      assert (Enc(ty, v).value + t)[1..] == t;
    case NullType =>
      assert [] + t == t;
    case IntegerType(bounds, extensible) => IntegerBack(v.i, bounds, extensible, t, coer);
    case OctetStringType(size) => OctetStringBack(v.octets, size, t, coer);
    case BitStringType(size) => BitStringBack(v.bits, size, t, coer);
    case EnumeratedType(discriminants) => EnumeratedBack(discriminants, v.index, t, coer);
    case SequenceType(_, _, _) =>
      if depth > 0 {
        SequenceBack(ty, v, coer, depth - 1, t);
      }
    case SequenceOfType(_) =>
      if depth > 0 {
        SequenceOfBack(ty, v, coer, depth - 1, t);
      }
    case ChoiceType(_) =>
      if depth > 0 {
        ChoiceBack(ty, v, coer, depth - 1, t);
      }
  }
}
