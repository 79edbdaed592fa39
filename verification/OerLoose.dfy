/**
 Values with more than one COER encoding. `Loose` says of a value which ones have; this module has
 what both directions of the proof need: how an accepted SEQUENCE or SEQUENCE OF comes apart, and how
 its parts are put together again before other octets.
 */
module OerLoose {
  import opened Common
  import opened Bits
  import opened BigEndian
  import opened OerTypes
  import opened OerEncode
  import opened Decoding
  import opened OerDecode
  import opened OerLocality
  import OerCanonical
  import OerRoundTrip

  /** Under COER the octets `b` are an encoding of `v` when `t` follows them. */
  ghost predicate Accepts(ty: Type, v: Value, depth: nat, b: Bytes, t: Bytes) {
    Dec(ty, b + t, true, depth) == Ok(v, t)
  }

  /** `v` is what the decoder makes of an empty input. */
  predicate Vanishes(ty: Type, v: Value, depth: nat) {
    Dec(ty, [], true, depth) == Ok(v, [])
  }

  /** Some encoding of `v` is accepted, where `last` says that nothing follows it. */
  ghost predicate Readable(ty: Type, v: Value, depth: nat, last: bool) {
    exists b :: Accepts(ty, v, depth, b, After(last))
  }

  function After(last: bool): Bytes {
    if last then [] else [0]
  }

  /**
   A second encoding of `v` is accepted: somewhere in what is encoded of it there is a CHOICE, an
   extensible SEQUENCE, a signed INTEGER without a fixed width, a BIT STRING that is padded or empty
   without a fixed size, an ENUMERATED item with a long discriminant below eight octets, a component
   at its DEFAULT that can be read, or, at the end of the input, a SEQUENCE whose components are all
   optional and absent.
   */
  ghost predicate Loose(ty: Type, v: Value, depth: nat, last: bool)
    decreases ty, 1, 0
  {
    match ty
    case IntegerType(bounds, extensible) =>
      v.IntegerValue? && Form(bounds, extensible) == (true, None) && |SignedBytes(v.i)| + 1 < TWO_64
    case BitStringType(size) =>
      if size.Fixed? then size.n % 8 != 0 else v.BitStringValue? && (|v.bits| % 8 != 0 || v.bits == [])
    case EnumeratedType(discriminants) =>
      && v.EnumeratedValue? && v.index < |discriminants|
      && !(0 <= discriminants[v.index] < 128) && |SignedBytes(discriminants[v.index])| < 8
    case SequenceType(root, extensible, _) =>
      || extensible
      || (v.SequenceValue? && |v.root| == |root| && depth > 0 && FieldsLoose(root, v.root, depth - 1, last))
      || (last && v.SequenceValue? && root != [] && AllOptional(root) && v.root == Initial(root))
    case SequenceOfType(element) => v.SequenceOfValue? && depth > 0 && ItemsLoose(element, v.items, depth - 1, last)
    case ChoiceType(_) => true
    case _ => false
  }

  /** Nothing follows a component if nothing follows the SEQUENCE and the components after it vanish. */
  ghost predicate FieldsLoose(components: seq<Component>, fields: seq<Option<Value>>, depth: nat, last: bool)
    requires |fields| == |components|
    decreases components, 0, 0
  {
    components != [] &&
    (|| FieldLoose(components[0], fields[0], depth, last && FieldsVanish(components[1..], fields[1..], depth))
     || FieldsLoose(components[1..], fields[1..], depth, last))
  }

  ghost predicate FieldLoose(c: Component, field: Option<Value>, depth: nat, last: bool)
    decreases c, 0, 0
  {
    if Omitted(c, field) then c.presence.Default? && Recognized(c) && Readable(c.ty, c.presence.value, depth, last)
    else field.Some? && Loose(c.ty, field.value, depth, last)
  }

  ghost predicate FieldsVanish(components: seq<Component>, fields: seq<Option<Value>>, depth: nat)
    requires |fields| == |components|
  {
    components != [] ==> FieldVanishes(components[0], fields[0], depth) && FieldsVanish(components[1..], fields[1..], depth)
  }

  ghost predicate FieldVanishes(c: Component, field: Option<Value>, depth: nat) {
    Omitted(c, field) || (field.Some? && (IsOptional(c) ==> Recognized(c)) && Vanishes(c.ty, field.value, depth))
  }

  ghost predicate ItemsLoose(element: Type, items: seq<Value>, depth: nat, last: bool)
    decreases element, 2, |items|
  {
    items != [] &&
    (|| Loose(element, items[0], depth, last && ItemsVanish(element, items[1..], depth))
     || ItemsLoose(element, items[1..], depth, last))
  }

  ghost predicate ItemsVanish(element: Type, items: seq<Value>, depth: nat) {
    forall i :: 0 <= i < |items| ==> Vanishes(element, items[i], depth)
  }

  // ----- Encodings before other octets -----

  /** An encoding before at least one octet, or of a type decoded in place, is one before any octets. */
  lemma Shift(ty: Type, v: Value, depth: nat, b: Bytes, t: Bytes, u: Bytes)
    requires Accepts(ty, v, depth, b, t) && (InPlace(ty) || t != [])
    ensures Accepts(ty, v, depth, b, u)
  {
    hide Dec, InPlace, Onto, IsSuffix;
    Moves(ty, b + t, true, depth, u);
    OntoParts(b, t, u);
  }

  lemma ReadableBefore(ty: Type, v: Value, depth: nat, b: Bytes, t: Bytes)
    requires Accepts(ty, v, depth, b, t)
    ensures Readable(ty, v, depth, t == [])
  {
    hide Dec;
    if t != [] {
      Shift(ty, v, depth, b, t, [0]);
    }
    assert Accepts(ty, v, depth, b, After(t == []));
  }

  lemma ReadBefore(ty: Type, v: Value, depth: nat, t: Bytes) returns (b: Bytes)
    requires Readable(ty, v, depth, t == [])
    ensures Accepts(ty, v, depth, b, t)
  {
    hide Dec;
    b :| Accepts(ty, v, depth, b, After(t == []));
    if t != [] {
      Shift(ty, v, depth, b, [0], t);
    }
  }

  // ----- Components -----

  ghost predicate FieldAccepts(c: Component, field: Option<Value>, depth: nat, present: bool, b: Bytes, t: Bytes) {
    (present || IsOptional(c)) && DecField(c, present, b + t, true, depth) == Ok(field, t)
  }

  ghost predicate FieldsAccept(components: seq<Component>, fields: seq<Option<Value>>, depth: nat, bits: seq<bool>, b: Bytes, t: Bytes) {
    |bits| == OptionalCount(components) && DecFields(components, bits, b + t, true, depth) == Ok(fields, t)
  }

  function Bit(c: Component, present: bool): seq<bool> {
    if IsOptional(c) then [present] else []
  }

  lemma FieldShift(c: Component, field: Option<Value>, depth: nat, present: bool, b: Bytes, t: Bytes, u: Bytes)
    requires FieldAccepts(c, field, depth, present, b, t) && t != []
    ensures FieldAccepts(c, field, depth, present, b, u)
  {
    hide DecField, Onto, IsSuffix;
    FieldMoves(c, present, b + t, true, depth, u);
    OntoParts(b, t, u);
  }

  lemma FieldsShift(components: seq<Component>, fields: seq<Option<Value>>, depth: nat, bits: seq<bool>, b: Bytes, t: Bytes, u: Bytes)
    requires FieldsAccept(components, fields, depth, bits, b, t) && t != []
    ensures FieldsAccept(components, fields, depth, bits, b, u)
  {
    hide DecFields, Onto, IsSuffix;
    FieldsMove(components, bits, b + t, true, depth, u);
    OntoParts(b, t, u);
  }

  /** A component that is not encoded. */
  lemma FieldAbsent(c: Component, field: Option<Value>, depth: nat, t: Bytes)
    requires IsOptional(c)
    ensures FieldAccepts(c, field, depth, false, [], t) <==> Omitted(c, field)
  {
    hide Dec;
    assert [] + t == t;
  }

  lemma FieldNothing(c: Component, field: Option<Value>, depth: nat, b: Bytes, t: Bytes)
    requires FieldAccepts(c, field, depth, false, b, t)
    ensures b == [] && Omitted(c, field)
  {
    hide Dec;
    assert |b + t| == |t|;
  }

  lemma FieldPresent(c: Component, field: Option<Value>, depth: nat, b: Bytes, t: Bytes)
    ensures FieldAccepts(c, field, depth, true, b, t) <==>
            field.Some? && (IsOptional(c) ==> Recognized(c)) && Accepts(c.ty, field.value, depth, b, t)
  {
    hide Dec;
  }

  /** The first component and the others. */
  lemma {:induction false} FieldsSplit(
      components: seq<Component>, fields: seq<Option<Value>>, depth: nat, bits: seq<bool>, b: Bytes, t: Bytes)
    returns (present: bool, first: Bytes, bits': seq<bool>, rest: Bytes)
    requires components != [] && FieldsAccept(components, fields, depth, bits, b, t)
    ensures |fields| == |components| && b == first + rest && bits == Bit(components[0], present) + bits'
    ensures FieldAccepts(components[0], fields[0], depth, present, first, rest + t)
    ensures FieldsAccept(components[1..], fields[1..], depth, bits', rest, t)
    ensures !IsOptional(components[0]) ==> present
  {
    hide DecField, IsSuffix, Onto;
    var c := components[0];
    present := IsOptional(c) ==> bits[0];
    bits' := if IsOptional(c) then bits[1..] else bits;
    var d := DecField(c, present, b + t, true, depth);
    assert fields[1..] == DecFields(components[1..], bits', d.rest, true, depth).value;
    FieldMoves(c, present, b + t, true, depth, []);
    FieldsMove(components[1..], bits', d.rest, true, depth, []);
    first, rest := Apart(b, t, d.rest);
  }

  /** What is between the suffixes `t` and `u` of `b + t`. */
  lemma Apart(b: Bytes, t: Bytes, u: Bytes) returns (first: Bytes, rest: Bytes)
    requires IsSuffix(u, b + t) && IsSuffix(t, u)
    ensures b == first + rest && u == rest + t && b + t == first + u
  {
    var n := |b| + |t| - |u|;
    first, rest := b[..n], b[n..];
    assert (b + t)[n..] == rest + t;
  }

  lemma {:induction false} FieldsJoin(
      components: seq<Component>, fields: seq<Option<Value>>, depth: nat,
      present: bool, first: Bytes, bits: seq<bool>, rest: Bytes, t: Bytes)
    requires components != [] && |fields| == |components|
    requires FieldAccepts(components[0], fields[0], depth, present, first, rest + t)
    requires FieldsAccept(components[1..], fields[1..], depth, bits, rest, t)
    ensures FieldsAccept(components, fields, depth, Bit(components[0], present) + bits, first + rest, t)
  {
    hide DecField;
    var c := components[0];
    var all := Bit(c, present) + bits;
    assert (IsOptional(c) ==> all[0]) == present;
    assert (if IsOptional(c) then all[1..] else all) == bits;
    assert |all| == OptionalCount(components);
    assert first + rest + t == first + (rest + t);
    assert [fields[0]] + fields[1..] == fields;
  }

  lemma FieldsNone(fields: seq<Option<Value>>, depth: nat, bits: seq<bool>, b: Bytes, t: Bytes)
    ensures FieldsAccept([], fields, depth, bits, b, t) <==> fields == [] && bits == [] && b == []
  {
    if b + t == t {
      assert |b| == 0;
    } else {
      assert b == [] ==> b + t == t;
    }
  }

  lemma {:induction false} EmptyVanishes(components: seq<Component>, fields: seq<Option<Value>>, depth: nat, bits: seq<bool>)
    requires FieldsAccept(components, fields, depth, bits, [], [])
    ensures |fields| == |components| && FieldsVanish(components, fields, depth)
  {
    hide DecField, Dec;
    if components != [] {
      var present, first, bits', rest := FieldsSplit(components, fields, depth, bits, [], []);
      assert first == [] && rest == [];
      EmptyVanishes(components[1..], fields[1..], depth, bits');
      if present {
        FieldPresent(components[0], fields[0], depth, [], []);
      } else {
        FieldNothing(components[0], fields[0], depth, [], []);
      }
    }
  }

  lemma {:induction false} VanishEmpty(components: seq<Component>, fields: seq<Option<Value>>, depth: nat)
    requires |fields| == |components| && FieldsVanish(components, fields, depth)
    ensures FieldsAccept(components, fields, depth, PresenceBits(components, fields), [], [])
  {
    hide DecField, Dec;
    var none: Bytes := [];
    assert none + none == none;
    if components == [] {
      FieldsNone(fields, depth, [], [], []);
    } else {
      var c, field := components[0], fields[0];
      VanishEmpty(components[1..], fields[1..], depth);
      if Omitted(c, field) {
        FieldAbsent(c, field, depth, []);
      } else {
        FieldPresent(c, field, depth, [], []);
      }
      FieldsJoin(components, fields, depth, !Omitted(c, field), none, PresenceBits(components[1..], fields[1..]), none, none);
      assert Bit(c, !Omitted(c, field)) + PresenceBits(components[1..], fields[1..]) == PresenceBits(components, fields);
    }
  }

  // ----- Elements -----

  ghost predicate ItemsAccept(element: Type, items: seq<Value>, depth: nat, b: Bytes, t: Bytes) {
    DecItems(element, |items|, b + t, true, depth) == Ok(items, t)
  }

  lemma {:induction false} ItemsSplit(element: Type, items: seq<Value>, depth: nat, b: Bytes, t: Bytes)
    returns (first: Bytes, rest: Bytes)
    requires items != [] && ItemsAccept(element, items, depth, b, t)
    ensures b == first + rest && Accepts(element, items[0], depth, first, rest + t)
    ensures ItemsAccept(element, items[1..], depth, rest, t)
  {
    hide Dec, IsSuffix, Onto;
    var d := Dec(element, b + t, true, depth);
    assert items[1..] == DecItems(element, |items| - 1, d.rest, true, depth).value;
    Moves(element, b + t, true, depth, []);
    ItemsMove(element, |items| - 1, d.rest, true, depth, []);
    first, rest := Apart(b, t, d.rest);
  }

  lemma {:induction false} ItemsJoin(element: Type, items: seq<Value>, depth: nat, first: Bytes, rest: Bytes, t: Bytes)
    requires items != [] && Accepts(element, items[0], depth, first, rest + t)
    requires ItemsAccept(element, items[1..], depth, rest, t)
    ensures ItemsAccept(element, items, depth, first + rest, t)
  {
    hide Dec;
    assert first + rest + t == first + (rest + t);
    assert [items[0]] + items[1..] == items;
  }

  lemma ItemsNone(element: Type, depth: nat, b: Bytes, t: Bytes)
    ensures ItemsAccept(element, [], depth, b, t) <==> b == []
  {
    if b + t == t {
      assert |b| == 0;
    } else {
      assert b == [] ==> b + t == t;
    }
  }

  lemma {:induction false} EmptyItems(element: Type, items: seq<Value>, depth: nat)
    ensures ItemsAccept(element, items, depth, [], []) <==> ItemsVanish(element, items, depth)
  {
    hide Dec;
    var none: Bytes := [];
    assert none + none == none;
    if items == [] {
      ItemsNone(element, depth, [], []);
    } else {
      EmptyItems(element, items[1..], depth);
      assert forall i :: 1 <= i < |items| ==> items[1..][i - 1] == items[i];
      if ItemsAccept(element, items, depth, [], []) {
        var first, rest := ItemsSplit(element, items, depth, [], []);
        assert first == [] && rest == [];
      } else if ItemsVanish(element, items, depth) {
        assert ItemsVanish(element, items[1..], depth);
        assert Vanishes(element, items[0], depth);
        ItemsJoin(element, items, depth, none, none, none);
      }
    }
  }

  // ----- Constructed values -----

  /** The bits of a preamble that was read, and what follows it. */
  lemma {:induction false} PreambleSplit(ty: Type, s: Bytes)
    requires ty.SequenceType? && DecPreamble(ty, s).Ok?
    ensures var p := DecPreamble(ty, s); s == PackBits(p.value) + p.rest
  {
    hide PackBits, BitsOf, ZeroFrom;
    var p := DecPreamble(ty, s);
    var data := Take(s, Octets(|p.value|));
    PackBitsOf(data.value, |p.value|);
    assert s == data.value + data.rest;
  }

  lemma {:induction false} PreambleJoin(ty: Type, bits: seq<bool>, t: Bytes)
    requires ty.SequenceType? && |bits| == OptionalCount(ty.root) + if ty.extensible then 1 else 0
    ensures DecPreamble(ty, PackBits(bits) + t) == Ok(bits, t)
    ensures ty.root != [] ==> !TakesDefault(ty, PackBits(bits) + t)
  {
    hide PackBits, BitsOf, ZeroFrom;
    BitsOfPackBits(bits);
    TakeBack(PackBits(bits), t);
    if AllOptional(ty.root) && ty.root != [] {
      SomeOptional(ty.root);
    }
  }

  lemma PackInjective(a: seq<bool>, b: seq<bool>)
    requires |a| == |b| && PackBits(a) == PackBits(b)
    ensures a == b
  {
    hide PackBits, BitsOf;
    BitsOfPackBits(a);
    BitsOfPackBits(b);
  }

  /** The preamble and the components of a SEQUENCE that is not extensible. */
  lemma {:induction false} SequenceSplit(ty: Type, v: Value, depth: nat, b: Bytes, t: Bytes) returns (bits: seq<bool>, rest: Bytes)
    requires ty.SequenceType? && !ty.extensible && ty.additions == [] && depth > 0
    requires Accepts(ty, v, depth, b, t) && !TakesDefault(ty, b + t)
    ensures v.SequenceValue? && v.additions == [] && b == PackBits(bits) + rest
    ensures |v.root| == |ty.root| && FieldsAccept(ty.root, v.root, depth - 1, bits, rest, t)
  {
    hide DecPreamble, DecFields, PackBits, AllOptional, IsSuffix, Onto;
    var d := DecSequence(ty, b + t, true, depth - 1);
    assert d == Dec(ty, b + t, true, depth);
    var p := DecPreamble(ty, b + t);
    bits := p.value;
    var root := DecFields(ty.root, bits, p.rest, true, depth - 1);
    assert DecExtension(ty.additions, false, root.rest, true, depth - 1) == Ok([], root.rest);
    assert root.Ok? && root.rest == t && v == SequenceValue(root.value, []);
    PreambleSplit(ty, b + t);
    FieldsMove(ty.root, bits, p.rest, true, depth - 1, []);
    OntoParts(PackBits(bits), p.rest, []);
    var first;
    first, rest := Apart(b, t, p.rest);
    SamePrefix(first, PackBits(bits), p.rest);
  }

  lemma SamePrefix(a: Bytes, b: Bytes, t: Bytes)
    requires a + t == b + t
    ensures a == b
  {
    assert |a| == |b|;
    assert (a + t)[..|a|] == a && (b + t)[..|b|] == b;
  }

  lemma {:induction false} SequenceJoin(ty: Type, fields: seq<Option<Value>>, depth: nat, bits: seq<bool>, b: Bytes, t: Bytes)
    requires ty.SequenceType? && !ty.extensible && ty.additions == [] && ty.root != [] && depth > 0
    requires FieldsAccept(ty.root, fields, depth - 1, bits, b, t)
    ensures Accepts(ty, SequenceValue(fields, []), depth, PackBits(bits) + b, t)
  {
    hide DecPreamble, DecFields, PackBits, AllOptional;
    PreambleJoin(ty, bits, b + t);
    var s := PackBits(bits) + b + t;
    assert s == PackBits(bits) + (b + t);
    assert DecExtension(ty.additions, false, t, true, depth - 1) == Ok([], t);
    assert DecSequence(ty, s, true, depth - 1) == Ok(SequenceValue(fields, []), t);
    assert Dec(ty, s, true, depth) == DecSequence(ty, s, true, depth - 1);
  }

  /** A SEQUENCE decoded to its default: either without components, or from an empty input. */
  lemma DefaultTaken(ty: Type, v: Value, depth: nat, b: Bytes, t: Bytes)
    requires ty.SequenceType? && Accepts(ty, v, depth, b, t) && TakesDefault(ty, b + t)
    ensures depth > 0 && b == [] && v == SequenceValue(Initial(ty.root), Initial(ty.additions)) && (ty.root != [] ==> t == [])
    ensures AllOptional(ty.root) && AllOptional(ty.additions)
  {
    hide AllOptional, DecFields, DecPreamble, DecExtension;
    assert depth > 0;
    var d := DecSequence(ty, b + t, true, depth - 1);
    assert d == Dec(ty, b + t, true, depth);
    assert |b + t| == |t|;
  }

  /** The quantity, in its only form, and the elements of a SEQUENCE OF. */
  lemma {:induction false} SequenceOfSplit(element: Type, v: Value, depth: nat, b: Bytes, t: Bytes) returns (rest: Bytes)
    requires Accepts(SequenceOfType(element), v, depth, b, t)
    ensures depth > 0 && v.SequenceOfValue? && EncQuantity(|v.items|).Some? && b == EncQuantity(|v.items|).value + rest
    ensures ItemsAccept(element, v.items, depth - 1, rest, t)
  {
    hide DecOpen, EncOpen, DecItems, UnsignedValue, UnsignedBytes, IsSuffix, Onto;
    var s := b + t;
    assert depth > 0;
    var d := DecSequenceOf(element, s, true, depth - 1);
    assert d == Dec(SequenceOfType(element), s, true, depth);
    var quantity := DecOpen(s, true);
    OerCanonical.OpenCanonical(s);
    UnsignedCanonical(quantity.value);
    var n := Usize(quantity.value).value;
    UsizeLength(n);
    ItemsMove(element, n, quantity.rest, true, depth - 1, []);
    var q := EncQuantity(n).value;
    OntoParts(q, quantity.rest, []);
    var first;
    first, rest := Apart(b, t, quantity.rest);
    SamePrefix(first, q, quantity.rest);
  }

  lemma {:induction false} SequenceOfJoin(element: Type, items: seq<Value>, depth: nat, b: Bytes, t: Bytes)
    requires depth > 0 && EncQuantity(|items|).Some? && ItemsAccept(element, items, depth - 1, b, t)
    ensures Accepts(SequenceOfType(element), SequenceOfValue(items), depth, EncQuantity(|items|).value + b, t)
  {
    hide DecOpen, EncQuantity, DecItems, Usize;
    OerRoundTrip.QuantityBack(|items|, b + t, true);
    var s := EncQuantity(|items|).value + b + t;
    assert s == EncQuantity(|items|).value + (b + t);
    assert Dec(SequenceOfType(element), s, true, depth) == DecSequenceOf(element, s, true, depth - 1);
  }
}
