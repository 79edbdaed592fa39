/**
 Which values COER accepts in some encoding, told from type and value alone. This decides for a
 component at its DEFAULT whether the default may be written out.
 */
module OerLegible {
  import opened Common
  import opened Bits
  import opened BigEndian
  import opened OerTypes
  import opened OerEncode
  import opened Decoding
  import opened OerDecode
  import opened OerLocality
  import opened OerLoose
  import opened OerForms
  import opened OerAlternative
  import opened OerSize
  import OerCanonical
  import OerRoundTrip

  /**
   Bounds, fixed widths and sizes, lengths and the depth are respected everywhere, the COER decoder does
   not reject a zero, and it recognizes every OPTIONAL or DEFAULT component that has to be present.
   */
  ghost predicate Legible(ty: Type, v: Value, depth: nat)
    decreases ty, 1, 0
  {
    match ty
    case BooleanType => v.BooleanValue?
    case NullType => v.NullValue?
    case IntegerType(bounds, extensible) => v.IntegerValue? && IntegerLegible(v.i, bounds, extensible)
    case OctetStringType(size) => v.OctetStringValue? && if size.Fixed? then |v.octets| == size.n else |v.octets| < TWO_64
    case BitStringType(size) => v.BitStringValue? && if size.Fixed? then |v.bits| == size.n else 8 * Octets(|v.bits|) < TWO_64
    case EnumeratedType(discriminants) =>
      && v.EnumeratedValue? && v.index < |discriminants|
      && (0 <= discriminants[v.index] < 128 || |SignedBytes(discriminants[v.index])| <= 8)
    case SequenceType(root, _, additions) =>
      && v.SequenceValue? && |v.root| == |root| && |v.additions| == |additions| && depth > 0
      && FieldsLegible(root, v.root, depth - 1) && AdditionsLegible(additions, v.additions, depth - 1)
    case SequenceOfType(element) =>
      && v.SequenceOfValue? && depth > 0 && |v.items| < TWO_64
      && forall i :: 0 <= i < |v.items| ==> Legible(element, v.items[i], depth - 1)
    case ChoiceType(alternatives) =>
      && v.ChoiceValue? && v.chosen < |alternatives| && depth > 0
      && AlternativeLegible(alternatives[v.chosen], v.inner, depth - 1)
  }

  predicate IntegerLegible(i: int, bounds: Option<Bounds>, extensible: bool) {
    var (signed, octets) := Form(bounds, extensible);
    && Admitted(i, bounds)
    && FitsOctets(i, signed, if octets.Some? then octets.value else TWO_64 - 1)
    && !(i == 0 && !signed && octets.None?)
  }

  ghost predicate FieldsLegible(components: seq<Component>, fields: seq<Option<Value>>, depth: nat)
    requires |fields| == |components|
    decreases components, 0, 0
  {
    components != [] ==> FieldLegible(components[0], fields[0], depth) && FieldsLegible(components[1..], fields[1..], depth)
  }

  ghost predicate FieldLegible(c: Component, field: Option<Value>, depth: nat)
    decreases c, 0, 0
  {
    Omitted(c, field) || (field.Some? && (IsOptional(c) ==> Recognized(c)) && Legible(c.ty, field.value, depth))
  }

  ghost predicate AdditionsLegible(additions: seq<Component>, fields: seq<Option<Value>>, depth: nat)
    requires |fields| == |additions|
    decreases additions, 0, 0
  {
    additions != [] ==> AdditionLegible(additions[0], fields[0], depth) && AdditionsLegible(additions[1..], fields[1..], depth)
  }

  ghost predicate AdditionLegible(c: Component, field: Option<Value>, depth: nat)
    decreases c, 0, 0
  {
    Dispensable(c, field) || (field.Some? && Legible(c.ty, field.value, depth))
  }

  /** An addition that need not be encoded. */
  predicate Dispensable(c: Component, field: Option<Value>) {
    IsOptional(c) && field == Absent(c)
  }

  ghost predicate AlternativeLegible(a: Alternative, v: Value, depth: nat)
    decreases a, 0, 0
  {
    Legible(a.ty, v, depth)
  }

  // ----- Whatever is accepted is legible -----

  lemma IntegerAccepted(s: Bytes, bounds: Option<Bounds>, extensible: bool)
    requires DecInteger(s, bounds, extensible, true).Ok?
    ensures var r := DecInteger(s, bounds, extensible, true); r.value.IntegerValue? && IntegerLegible(r.value.i, bounds, extensible)
  {
    hide DecOpen, SignedValue, UnsignedValue, Power256, FitsOctets, EncOpen;
    var (signed, octets) := Form(bounds, extensible);
    var data := if octets.Some? then Take(s, octets.value) else DecOpen(s, true);
    if octets.None? {
      OerCanonical.OpenCanonical(s);
      OpenLength(data.value);
      if !signed {
        Positive(data.value);
      }
    }
    BytesFit(data.value, signed, if octets.Some? then octets.value else TWO_64 - 1);
  }

  lemma BytesFit(b: Bytes, signed: bool, k: nat)
    requires b != [] && |b| <= k
    ensures FitsOctets(if signed then SignedValue(b) else UnsignedValue(b), signed, k)
  {
    hide Power256, SignedValue, UnsignedValue;
    PowerMonotone(|b|, k);
    if signed {
      SignedBound(b);
    } else {
      UnsignedBound(b);
    }
  }

  lemma BitStringAccepted(s: Bytes, size: Size)
    requires DecBitString(s, size, true).Ok?
    ensures var r := DecBitString(s, size, true); Legible(BitStringType(size), r.value, 0)
  {
    hide DecLength, BitsOf;
  }

  lemma EnumeratedAccepted(s: Bytes, discriminants: seq<int>)
    requires DecEnumerated(s, discriminants, true).Ok?
    ensures var r := DecEnumerated(s, discriminants, true); Legible(EnumeratedType(discriminants), r.value, 0)
  {
    hide SignedValue, SignedBytes;
    if s[0] >= 128 {
      SignedShortest(Take(s[1..], s[0] - 128).value);
    }
  }

  lemma OctetStringAccepted(s: Bytes, size: Size)
    requires DecOctetString(s, size, true).Ok?
    ensures var r := DecOctetString(s, size, true); Legible(OctetStringType(size), r.value, 0)
  {
    hide DecOpen, EncOpen;
    if !size.Fixed? {
      OerCanonical.OpenCanonical(s);
      OpenLength(DecOpen(s, true).value);
    }
  }

  lemma {:induction false} FieldAccepted(c: Component, present: bool, s: Bytes, depth: nat)
    requires DecField(c, present, s, true, depth).Ok? && (present || IsOptional(c))
    ensures FieldLegible(c, DecField(c, present, s, true, depth).value, depth)
    decreases c, 0, 0
  {
    hide Dec, Legible;
    if present {
      Accepted(c.ty, s, depth);
    }
  }

  lemma {:induction false} FieldsAccepted(components: seq<Component>, bits: seq<bool>, s: Bytes, depth: nat)
    requires |bits| == OptionalCount(components) && DecFields(components, bits, s, true, depth).Ok?
    ensures FieldsLegible(components, DecFields(components, bits, s, true, depth).value, depth)
    decreases components, 0, 0
  {
    hide DecField, FieldLegible;
    if components != [] {
      var c := components[0];
      var present := IsOptional(c) ==> bits[0];
      var bits' := if IsOptional(c) then bits[1..] else bits;
      var first := DecField(c, present, s, true, depth);
      FieldAccepted(c, present, s, depth);
      FieldsAccepted(components[1..], bits', first.rest, depth);
      var rest := DecFields(components[1..], bits', first.rest, true, depth).value;
      assert ([first.value] + rest)[1..] == rest;
    }
  }

  lemma {:induction false} AdditionAccepted(c: Component, present: bool, s: Bytes, depth: nat)
    requires DecAddition(c, present, s, true, depth).Ok? && (present || IsOptional(c))
    ensures AdditionLegible(c, DecAddition(c, present, s, true, depth).value, depth)
    decreases c, 0, 0
  {
    hide Dec, Legible, DecOpen;
    if present {
      Accepted(c.ty, DecOpen(s, true).value, depth);
    }
  }

  lemma {:induction false} AdditionsAccepted(additions: seq<Component>, bits: seq<bool>, s: Bytes, depth: nat)
    requires |bits| == |additions| && DecAdditions(additions, bits, s, true, depth).Ok?
    requires forall i :: 0 <= i < |additions| && !IsOptional(additions[i]) ==> bits[i]
    ensures AdditionsLegible(additions, DecAdditions(additions, bits, s, true, depth).value, depth)
    decreases additions, 0, 0
  {
    hide DecAddition, AdditionLegible;
    if additions != [] {
      var first := DecAddition(additions[0], bits[0], s, true, depth);
      AdditionAccepted(additions[0], bits[0], s, depth);
      assert forall i :: 0 <= i < |additions[1..]| ==> additions[1..][i] == additions[i + 1] && bits[1..][i] == bits[i + 1];
      AdditionsAccepted(additions[1..], bits[1..], first.rest, depth);
      var rest := DecAdditions(additions[1..], bits[1..], first.rest, true, depth).value;
      assert ([first.value] + rest)[1..] == rest;
    }
  }

  lemma {:induction false} InitialLegible(components: seq<Component>, depth: nat)
    requires AllOptional(components)
    ensures FieldsLegible(components, Initial(components), depth) && AdditionsLegible(components, Initial(components), depth)
  {
    hide Legible;
    if components != [] {
      InitialLegible(components[1..], depth);
      assert Initial(components)[1..] == Initial(components[1..]);
    }
  }

  lemma {:induction false} ExtensionAccepted(additions: seq<Component>, extended: bool, s: Bytes, depth: nat)
    requires DecExtension(additions, extended, s, true, depth).Ok?
    ensures AdditionsLegible(additions, DecExtension(additions, extended, s, true, depth).value, depth)
    decreases additions, 1, 0
  {
    hide DecAdditions, AdditionsLegible, DecOpen;
    if additions == [] || !extended {
      InitialLegible(additions, depth);
      assert additions == [] ==> Initial(additions) == [];
    } else {
      var bits := DecBitmap(s, additions, true);
      AdditionsAccepted(additions, bits.value, bits.rest, depth);
    }
  }

  lemma {:induction false} SequenceAccepted(ty: Type, s: Bytes, depth: nat)
    requires ty.SequenceType? && DecSequence(ty, s, true, depth).Ok?
    ensures var v := DecSequence(ty, s, true, depth).value;
            && v.SequenceValue? && |v.root| == |ty.root| && |v.additions| == |ty.additions|
            && FieldsLegible(ty.root, v.root, depth) && AdditionsLegible(ty.additions, v.additions, depth)
    decreases ty, 0, 0
  {
    hide DecPreamble, DecFields, DecExtension, AllOptional, FieldsLegible, AdditionsLegible;
    if TakesDefault(ty, s) {
      InitialLegible(ty.root, depth);
      InitialLegible(ty.additions, depth);
    } else {
      var preamble := DecPreamble(ty, s);
      var extended := ty.extensible && preamble.value[0];
      var bits := if ty.extensible then preamble.value[1..] else preamble.value;
      FieldsAccepted(ty.root, bits, preamble.rest, depth);
      ExtensionAccepted(ty.additions, extended, DecFields(ty.root, bits, preamble.rest, true, depth).rest, depth);
    }
  }

  lemma {:induction false} ItemsAccepted(element: Type, n: nat, s: Bytes, depth: nat)
    requires DecItems(element, n, s, true, depth).Ok?
    ensures forall i :: 0 <= i < n ==> Legible(element, DecItems(element, n, s, true, depth).value[i], depth)
    decreases element, 2, n
  {
    hide Dec, Legible;
    if n > 0 {
      var first := Dec(element, s, true, depth);
      Accepted(element, s, depth);
      ItemsAccepted(element, n - 1, first.rest, depth);
    }
  }

  lemma {:induction false} SequenceOfAccepted(element: Type, s: Bytes, depth: nat)
    requires DecSequenceOf(element, s, true, depth).Ok?
    ensures var v := DecSequenceOf(element, s, true, depth).value;
            v.SequenceOfValue? && |v.items| < TWO_64 && forall i :: 0 <= i < |v.items| ==> Legible(element, v.items[i], depth)
    decreases element, 3, 0
  {
    hide DecOpen, DecItems, Legible, UnsignedValue, Power256;
    var quantity := DecOpen(s, true);
    var n := Usize(quantity.value).value;
    EightOctets();
    UnsignedBound(quantity.value);
    PowerMonotone(|quantity.value|, 8);
    ItemsAccepted(element, n, quantity.rest, depth);
  }

  lemma {:induction false} AlternativeAccepted(a: Alternative, s: Bytes, depth: nat)
    requires DecAlternative(a, s, true, depth).Ok?
    ensures AlternativeLegible(a, DecAlternative(a, s, true, depth).value, depth)
    decreases a, 0, 0
  {
    hide Dec, Legible, DecOpen;
    Accepted(a.ty, if a.extension then DecOpen(s, true).value else s, depth);
  }

  /** Whatever COER accepts is legible. */
  lemma {:induction false} Accepted(ty: Type, s: Bytes, depth: nat)
    requires Dec(ty, s, true, depth).Ok?
    ensures Legible(ty, Dec(ty, s, true, depth).value, depth)
    decreases ty, 1, 0
  {
    hide DecSequence, DecSequenceOf, DecInteger, DecOctetString, DecBitString, DecEnumerated, FieldsLegible, AdditionsLegible,
      IntegerLegible, SignedBytes, DecTag, DecAlternative, AlternativeLegible;
    match ty
    case IntegerType(bounds, extensible) => IntegerAccepted(s, bounds, extensible);
    case OctetStringType(size) => OctetStringAccepted(s, size);
    case BitStringType(size) => BitStringAccepted(s, size);
    case EnumeratedType(discriminants) => EnumeratedAccepted(s, discriminants);
    case SequenceType(_, _, _) => SequenceAccepted(ty, s, depth - 1);
    case SequenceOfType(element) => SequenceOfAccepted(element, s, depth - 1);
    case ChoiceType(alternatives) =>
      var tag := DecTag(s);
      AlternativeAccepted(alternatives[FindTag(alternatives, tag.value)], tag.rest, depth - 1);
    case _ =>
  }

  // ----- Whatever is legible is accepted in some encoding -----

  /** At least the number of octets that an encoding of `v` needs. */
  ghost function Bulk(ty: Type, v: Value): nat
    decreases ty, 1, 0
  {
    match ty
    case BooleanType => 1
    case NullType => 0
    case IntegerType(bounds, extensible) => if v.IntegerValue? then IntegerSize(v.i, bounds, extensible) else 0
    case OctetStringType(_) => if v.OctetStringValue? then OpenWidth(|v.octets|) else 0
    case BitStringType(_) => if v.BitStringValue? then OpenWidth(1 + Octets(|v.bits|)) else 0
    case EnumeratedType(_) => 9
    case SequenceType(root, _, additions) =>
      if v.SequenceValue? && |v.root| == |root| && |v.additions| == |additions|
      then Octets(OptionalCount(root) + 1) + FieldsBulk(root, v.root) +
           OpenWidth(BitmapWidth(|additions|)) + AdditionsBulk(additions, v.additions)
      else 0
    case SequenceOfType(element) => if v.SequenceOfValue? then 9 + ItemsBulk(element, v.items) else 0
    case ChoiceType(alternatives) =>
      if v.ChoiceValue? && v.chosen < |alternatives| then 7 + AlternativeBulk(alternatives[v.chosen], v.inner) else 0
  }

  ghost function FieldsBulk(components: seq<Component>, fields: seq<Option<Value>>): nat
    requires |fields| == |components|
    decreases components, 0, 0
  {
    if components == [] then 0 else FieldBulk(components[0], fields[0]) + FieldsBulk(components[1..], fields[1..])
  }

  ghost function FieldBulk(c: Component, field: Option<Value>): nat
    decreases c, 0, 0
  {
    if field.None? then 0 else Bulk(c.ty, field.value)
  }

  ghost function AdditionsBulk(components: seq<Component>, fields: seq<Option<Value>>): nat
    requires |fields| == |components|
    decreases components, 0, 0
  {
    if components == [] then 0 else AdditionBulk(components[0], fields[0]) + AdditionsBulk(components[1..], fields[1..])
  }

  ghost function AdditionBulk(c: Component, field: Option<Value>): nat
    decreases c, 0, 0
  {
    if field.None? then 0 else 9 + Bulk(c.ty, field.value)
  }

  ghost function ItemsBulk(element: Type, items: seq<Value>): nat
    decreases element, 2, |items|
  {
    if items == [] then 0 else Bulk(element, items[0]) + ItemsBulk(element, items[1..])
  }

  ghost function AlternativeBulk(a: Alternative, v: Value): nat
    decreases a, 0, 0
  {
    if a.extension then 9 + Bulk(a.ty, v) else Bulk(a.ty, v)
  }

  lemma OpenAtMost(b: Bytes)
    requires |b| < TWO_64
    ensures EncOpen(Some(b)).Some? && |EncOpen(Some(b)).value| == OpenWidth(|b|) <= 9 + |b|
  {
    hide UnsignedBytes;
    OpenSize(b);
    UsizeLength(|b|);
  }

  lemma IntegerMade(bounds: Option<Bounds>, extensible: bool, i: int, depth: nat, t: Bytes) returns (b: Bytes)
    requires IntegerLegible(i, bounds, extensible)
    ensures Accepts(IntegerType(bounds, extensible), IntegerValue(i), depth, b, t) && |b| <= IntegerSize(i, bounds, extensible)
  {
    hide FitsOctets, EncInteger, DecInteger, IntegerSize, InBounds;
    IntegerSized(i, bounds, extensible);
    b := EncInteger(i, bounds, extensible).value;
    OerRoundTrip.IntegerBack(i, bounds, extensible, t, true);
  }

  lemma OctetStringMade(size: Size, octets: Bytes, depth: nat, t: Bytes) returns (b: Bytes)
    requires Legible(OctetStringType(size), OctetStringValue(octets), depth)
    ensures Accepts(OctetStringType(size), OctetStringValue(octets), depth, b, t) && |b| <= OpenWidth(|octets|)
  {
    hide EncOpen, DecOpen, Take;
    if size.Fixed? {
      b := octets;
      TakeBack(b, t);
    } else {
      OpenAtMost(octets);
      OpenForm(octets, t);
      b := EncOpen(Some(octets)).value;
    }
  }

  lemma BitStringMade(size: Size, bits: seq<bool>, depth: nat, t: Bytes) returns (b: Bytes)
    requires Legible(BitStringType(size), BitStringValue(bits), depth)
    ensures Accepts(BitStringType(size), BitStringValue(bits), depth, b, t) && |b| <= OpenWidth(1 + Octets(|bits|))
  {
    hide PackBits, BitsOf, DecBitString, EncOpen, LengthWidth;
    if bits == [] && !size.Fixed? {
      b := [0];
      EmptyForms(size, t);
    } else if bits == [] {
      b := [];
      NoBitString(t);
    } else {
      BitsOfPackBits(bits);
      b := PackBits(bits);
      BitStringForm(size, bits, b, t);
      if !size.Fixed? {
        var contents := [OerEncode.Missing(|bits|)] + b;
        OpenAtMost(contents);
        b := EncOpen(Some(contents)).value;
      }
    }
  }

  lemma NoBitString(t: Bytes)
    ensures DecBitString([] + t, Fixed(0), true) == Ok(BitStringValue([]), t)
  {
    assert [] + t == t && t[..0] == [] && t[0..] == t;
    assert BitsOf([], 0) == [];
  }

  lemma EnumeratedMade(discriminants: seq<int>, index: nat, depth: nat, t: Bytes) returns (b: Bytes)
    requires Distinct(discriminants) && Legible(EnumeratedType(discriminants), EnumeratedValue(index), depth)
    ensures Accepts(EnumeratedType(discriminants), EnumeratedValue(index), depth, b, t) && |b| <= 9
  {
    hide SignedBytes, SignedValue;
    var d := discriminants[index];
    if 0 <= d < 128 {
      b := [d];
      assert (b + t)[1..] == t;
      assert FindDiscriminant(discriminants, d) == index;
    } else {
      SignedRoundTrip(d);
      b := [128 + |SignedBytes(d)|] + SignedBytes(d);
      LongForm(discriminants, index, SignedBytes(d), t);
    }
  }

  lemma {:induction false} FieldMade(c: Component, field: Option<Value>, depth: nat, t: Bytes) returns (present: bool, b: Bytes)
    requires ComponentRegular(c) && FieldLegible(c, field, depth) && FieldBulk(c, field) < TWO_64
    ensures FieldAccepts(c, field, depth, present, b, t) && |b| <= FieldBulk(c, field)
    decreases c, 0, 0
  {
    hide DecField, Legible, Accepts, Bulk;
    if Omitted(c, field) {
      present, b := false, [];
      FieldAbsent(c, field, depth, t);
    } else {
      present := true;
      b := Made(c.ty, field.value, depth, t);
      FieldPresent(c, field, depth, b, t);
    }
  }

  lemma {:induction false} FieldsMade(components: seq<Component>, fields: seq<Option<Value>>, depth: nat, t: Bytes)
    returns (bits: seq<bool>, b: Bytes)
    requires ComponentsRegular(components) && |fields| == |components| && FieldsLegible(components, fields, depth)
    requires FieldsBulk(components, fields) < TWO_64
    ensures FieldsAccept(components, fields, depth, bits, b, t) && |b| <= FieldsBulk(components, fields)
    decreases components, 0, 0
  {
    hide FieldsAccept, FieldAccepts, FieldLegible, FieldBulk, ComponentRegular;
    if components == [] {
      bits, b := [], [];
      FieldsNone(fields, depth, bits, b, t);
    } else {
      var others, rest := FieldsMade(components[1..], fields[1..], depth, t);
      var present, first := FieldMade(components[0], fields[0], depth, rest + t);
      FieldsJoin(components, fields, depth, present, first, others, rest, t);
      bits, b := Bit(components[0], present) + others, first + rest;
    }
  }

  /** A value as an open type. */
  lemma {:induction false} ContainedMade(ty: Type, v: Value, depth: nat, t: Bytes) returns (b: Bytes)
    requires Regular(ty) && Legible(ty, v, depth) && Bulk(ty, v) < TWO_64
    ensures DecContained(ty, b + t, true, depth) == Ok(v, t) && |b| <= 9 + Bulk(ty, v)
    decreases ty, 2, 0
  {
    hide Legible, Bulk, Dec, DecOpen, EncOpen, Regular;
    var contents := Made(ty, v, depth, []);
    assert contents + [] == contents;
    OpenAtMost(contents);
    OpenForm(contents, t);
    b := EncOpen(Some(contents)).value;
  }

  function Needed(additions: seq<Component>, fields: seq<Option<Value>>): (bits: seq<bool>)
    requires |fields| == |additions|
    ensures |bits| == |additions|
  {
    seq(|additions|, i requires 0 <= i < |additions| => !Dispensable(additions[i], fields[i]))
  }

  lemma {:induction false} AdditionMade(c: Component, field: Option<Value>, depth: nat, t: Bytes) returns (b: Bytes)
    requires ComponentRegular(c) && AdditionLegible(c, field, depth) && AdditionBulk(c, field) < TWO_64
    ensures DecAddition(c, !Dispensable(c, field), b + t, true, depth) == Ok(field, t) && |b| <= AdditionBulk(c, field)
    decreases c, 0, 0
  {
    hide Legible, Bulk, DecContained, Regular;
    if Dispensable(c, field) {
      b := [];
      assert [] + t == t;
    } else {
      b := ContainedMade(c.ty, field.value, depth, t);
    }
  }

  lemma {:induction false} AdditionsMade(additions: seq<Component>, fields: seq<Option<Value>>, depth: nat, t: Bytes) returns (b: Bytes)
    requires ComponentsRegular(additions) && |fields| == |additions| && AdditionsLegible(additions, fields, depth)
    requires AdditionsBulk(additions, fields) < TWO_64
    ensures DecAdditions(additions, Needed(additions, fields), b + t, true, depth) == Ok(fields, t)
    ensures |b| <= AdditionsBulk(additions, fields)
    decreases additions, 0, 0
  {
    hide DecAddition, AdditionLegible, AdditionBulk, ComponentRegular, Dispensable;
    if additions == [] {
      b := [];
      assert [] + t == t;
    } else {
      var rest := AdditionsMade(additions[1..], fields[1..], depth, t);
      var first := AdditionMade(additions[0], fields[0], depth, rest + t);
      b := first + rest;
      assert b + t == first + (rest + t);
      assert Needed(additions, fields)[1..] == Needed(additions[1..], fields[1..]);
      assert [fields[0]] + fields[1..] == fields;
    }
  }

  lemma {:induction false} ExtensionMade(additions: seq<Component>, fields: seq<Option<Value>>, depth: nat, t: Bytes)
    returns (extended: bool, b: Bytes)
    requires ComponentsRegular(additions) && |fields| == |additions| && AdditionsLegible(additions, fields, depth)
    requires OpenWidth(BitmapWidth(|additions|)) + AdditionsBulk(additions, fields) < TWO_64
    ensures ExtensionAccepts(additions, fields, depth, extended, b, t) && (extended ==> additions != [])
    ensures |b| <= OpenWidth(BitmapWidth(|additions|)) + AdditionsBulk(additions, fields)
    decreases additions, 1, 0
  {
    hide DecAdditions, AdditionsLegible, AdditionsBulk, DecOpen, EncOpen, PackBits, BitmapBits, LengthWidth, ComponentsRegular, Dispensable;
    if additions == [] {
      extended, b := false, [];
      assert [] + t == t;
    } else {
      extended := true;
      var contents := AdditionsMade(additions, fields, depth, t);
      var bits := Needed(additions, fields);
      var bitmap := [OerEncode.Missing(|bits|)] + PackBits(bits);
      OpenAtMost(bitmap);
      OpenForm(bitmap, contents + t);
      OerRoundTrip.BitmapBitsBack(bits);
      assert bitmap[1..] == PackBits(bits);
      NotDispensable(additions, fields);
      b := EncOpen(Some(bitmap)).value + contents;
      assert b + t == EncOpen(Some(bitmap)).value + (contents + t);
      assert DecBitmap(b + t, additions, true) == Ok(bits, contents + t);
    }
  }

  lemma NotDispensable(additions: seq<Component>, fields: seq<Option<Value>>)
    requires |fields| == |additions|
    ensures forall i :: 0 <= i < |additions| && !IsOptional(additions[i]) ==> Needed(additions, fields)[i]
  {
  }

  lemma {:induction false} SequenceMade(ty: Type, v: Value, depth: nat, t: Bytes) returns (b: Bytes)
    requires ty.SequenceType? && Regular(ty) && Legible(ty, v, depth) && Bulk(ty, v) < TWO_64
    ensures Accepts(ty, v, depth, b, t) && |b| <= Bulk(ty, v)
    decreases ty, 0, 0
  {
    hide FieldsLegible, AdditionsLegible, FieldsBulk, AdditionsBulk, PackBits, Accepts, FieldsAccept, ExtensionAccepts, OpenWidth,
      ComponentsRegular;
    if ty.root == [] {
      b := [];
      NothingInitial(v.root, v.additions);
      EmptySequence(ty, depth, t);
    } else if ty.extensible {
      var extended, extension := ExtensionMade(ty.additions, v.additions, depth - 1, t);
      var bits, root := FieldsMade(ty.root, v.root, depth - 1, extension + t);
      BitCount(ty.root, v.root, depth - 1, bits, root, extension + t);
      ExtensibleJoin(ty, v, depth, extended, bits, root, extension, t);
      b := PackBits([extended] + bits) + (root + extension);
    } else {
      NothingInitial([], v.additions);
      var bits, rest := FieldsMade(ty.root, v.root, depth - 1, t);
      BitCount(ty.root, v.root, depth - 1, bits, rest, t);
      SequenceJoin(ty, v.root, depth, bits, rest, t);
      b := PackBits(bits) + rest;
    }
  }

  lemma NothingInitial(root: seq<Option<Value>>, additions: seq<Option<Value>>)
    ensures root == [] ==> Initial([]) == root
    ensures additions == [] ==> Initial([]) == additions
  {
  }

  lemma {:induction false} ItemsMade(element: Type, items: seq<Value>, depth: nat, t: Bytes) returns (b: Bytes)
    requires Regular(element) && (forall i :: 0 <= i < |items| ==> Legible(element, items[i], depth)) && ItemsBulk(element, items) < TWO_64
    ensures ItemsAccept(element, items, depth, b, t) && |b| <= ItemsBulk(element, items)
    decreases element, 2, |items|
  {
    hide ItemsAccept, Accepts, Legible, Bulk, Regular;
    if items == [] {
      b := [];
      ItemsNone(element, depth, b, t);
    } else {
      assert forall i :: 0 <= i < |items[1..]| ==> items[1..][i] == items[i + 1];
      var rest := ItemsMade(element, items[1..], depth, t);
      var first := Made(element, items[0], depth, rest + t);
      ItemsJoin(element, items, depth, first, rest, t);
      b := first + rest;
    }
  }

  lemma QuantityAtMost(n: nat)
    requires n < TWO_64
    ensures EncQuantity(n).Some? && |EncQuantity(n).value| <= 9
  {
    hide UnsignedBytes, EncOpen, LengthWidth;
    UsizeLength(n);
    OpenAtMost(UnsignedBytes(n));
    ShortLength(|UnsignedBytes(n)|);
  }

  lemma ShortLength(n: nat)
    requires n <= 8
    ensures OpenWidth(n) == 1 + n
  {
  }

  lemma {:induction false} AlternativeMade(a: Alternative, v: Value, depth: nat, t: Bytes) returns (b: Bytes)
    requires Regular(a.ty) && AlternativeLegible(a, v, depth) && AlternativeBulk(a, v) < TWO_64
    ensures DecAlternative(a, b + t, true, depth) == Ok(v, t) && |b| <= AlternativeBulk(a, v)
    decreases a, 0, 0
  {
    hide Legible, Bulk, DecContained, Dec, Regular;
    if a.extension {
      b := ContainedMade(a.ty, v, depth, t);
    } else {
      b := Made(a.ty, v, depth, t);
    }
  }

  lemma {:induction false} ChoiceMade(ty: Type, v: Value, depth: nat, t: Bytes) returns (b: Bytes)
    requires ty.ChoiceType? && Regular(ty) && Legible(ty, v, depth) && Bulk(ty, v) < TWO_64
    ensures Accepts(ty, v, depth, b, t) && |b| <= Bulk(ty, v)
    decreases ty, 0, 0
  {
    hide DecTag, DecAlternative, AlternativeLegible, AlternativeBulk;
    var a := ty.alternatives[v.chosen];
    var contents := AlternativeMade(a, v.inner, depth - 1, t);
    WrappedTagBack(a.tag, 1, contents + t);
    b := WrappedTag(a.tag, 1) + contents;
    assert b + t == WrappedTag(a.tag, 1) + (contents + t);
    assert FindTag(ty.alternatives, a.tag) == v.chosen;
    assert Dec(ty, b + t, true, depth) == DecChoice(ty.alternatives, b + t, true, depth - 1);
  }

  /** A legible value of less than 2^64 octets has an encoding that is accepted before any octets. */
  lemma {:induction false} Made(ty: Type, v: Value, depth: nat, t: Bytes) returns (b: Bytes)
    requires Regular(ty) && Legible(ty, v, depth) && Bulk(ty, v) < TWO_64
    ensures Accepts(ty, v, depth, b, t) && |b| <= Bulk(ty, v)
    decreases ty, 1, 0
  {
    hide FieldsLegible, AdditionsLegible, FieldsBulk, AdditionsBulk, IntegerLegible, IntegerSize, OpenWidth, ComponentsRegular,
      DecSequence, DecChoice, DecSequenceOf, DecInteger, DecOctetString, DecBitString, DecEnumerated, AlternativeLegible, AlternativeBulk;
    match ty
    case BooleanType =>
      b := [if v.b then 0xFF else 0];
      assert (b + t)[1..] == t;
    case NullType =>
      b := [];
      assert b + t == t;
    case IntegerType(bounds, extensible) => b := IntegerMade(bounds, extensible, v.i, depth, t);
    case OctetStringType(size) => b := OctetStringMade(size, v.octets, depth, t);
    case BitStringType(size) => b := BitStringMade(size, v.bits, depth, t);
    case EnumeratedType(discriminants) => b := EnumeratedMade(discriminants, v.index, depth, t);
    case SequenceType(_, _, _) => b := SequenceMade(ty, v, depth, t);
    case SequenceOfType(element) =>
      var rest := ItemsMade(element, v.items, depth - 1, t);
      QuantityAtMost(|v.items|);
      SequenceOfJoin(element, v.items, depth, rest, t);
      b := EncQuantity(|v.items|).value + rest;
    case ChoiceType(_) => b := ChoiceMade(ty, v, depth, t);
  }

  /** Some encoding of a value is accepted exactly if it is legible, unless the value is enormous. */
  lemma {:induction false} ReadableExactly(ty: Type, v: Value, depth: nat, last: bool)
    requires Regular(ty) && Bulk(ty, v) < TWO_64
    ensures Readable(ty, v, depth, last) <==> Legible(ty, v, depth)
  {
    hide Dec, Legible, Bulk, Regular;
    if Legible(ty, v, depth) {
      var b := Made(ty, v, depth, After(last));
    } else if Readable(ty, v, depth, last) {
      var b :| Accepts(ty, v, depth, b, After(last));
      Accepted(ty, b + After(last), depth);
    }
  }

  /** So a component at its DEFAULT is loose exactly if the decoder recognizes it and the default is legible. */
  lemma DefaultLoose(c: Component, depth: nat, last: bool)
    requires c.presence.Default? && Regular(c.ty) && Bulk(c.ty, c.presence.value) < TWO_64
    ensures FieldLoose(c, Some(c.presence.value), depth, last) <==> Recognized(c) && Legible(c.ty, c.presence.value, depth)
  {
    hide Readable, Legible, Bulk, Regular, Loose;
    ReadableExactly(c.ty, c.presence.value, depth, last);
  }
}
