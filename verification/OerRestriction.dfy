/** Whatever the canonical decoder accepts, the basic decoder accepts with the same result. */
module OerRestriction {
  import opened Common
  import opened Bits
  import opened BigEndian
  import opened OerTypes
  import opened OerEncode
  import opened Decoding
  import opened OerDecode

  lemma LengthRestricts(s: Bytes)
    requires DecLength(s, true).Ok?
    ensures DecLength(s, false) == DecLength(s, true)
  {
    hide Take, Usize;
  }

  lemma OpenRestricts(s: Bytes)
    requires DecOpen(s, true).Ok?
    ensures DecOpen(s, false) == DecOpen(s, true)
  {
    hide DecLength;
    LengthRestricts(s);
  }

  lemma PrimitiveRestricts(ty: Type, s: Bytes, depth: nat)
    requires !ty.SequenceType? && !ty.SequenceOfType? && !ty.ChoiceType?
    requires Dec(ty, s, true, depth).Ok?
    ensures Dec(ty, s, false, depth) == Dec(ty, s, true, depth)
  {
    hide DecLength, Form, InBounds, Take, SignedValue, UnsignedValue, BitsOf, Octets, FindDiscriminant;
    if DecLength(s, true).Ok? {
      LengthRestricts(s);
    }
  }

  lemma {:induction false} FieldsRestrict(components: seq<Component>, bits: seq<bool>, s: Bytes, depth: nat)
    requires |bits| == OptionalCount(components) && DecFields(components, bits, s, true, depth).Ok?
    ensures DecFields(components, bits, s, false, depth) == DecFields(components, bits, s, true, depth)
    decreases components, 0, 0
  {
    hide DecField;
    if components != [] {
      var c := components[0];
      var present := IsOptional(c) ==> bits[0];
      FieldRestricts(c, present, s, depth);
      var first := DecField(c, present, s, true, depth);
      FieldsRestrict(components[1..], if IsOptional(c) then bits[1..] else bits, first.rest, depth);
    }
  }

  lemma {:induction false} FieldRestricts(c: Component, present: bool, s: Bytes, depth: nat)
    requires DecField(c, present, s, true, depth).Ok?
    ensures DecField(c, present, s, false, depth) == DecField(c, present, s, true, depth)
    decreases c, 0, 0
  {
    hide Dec;
    if present {
      Restricts(c.ty, s, depth);
    }
  }

  lemma {:induction false} ContainedRestricts(ty: Type, s: Bytes, depth: nat)
    requires DecContained(ty, s, true, depth).Ok?
    ensures DecContained(ty, s, false, depth) == DecContained(ty, s, true, depth)
    decreases ty, 2, 0
  {
    hide Dec, DecOpen;
    OpenRestricts(s);
    Restricts(ty, DecOpen(s, true).value, depth);
  }

  lemma {:induction false} AdditionRestricts(c: Component, present: bool, s: Bytes, depth: nat)
    requires DecAddition(c, present, s, true, depth).Ok?
    ensures DecAddition(c, present, s, false, depth) == DecAddition(c, present, s, true, depth)
    decreases c, 0, 0
  {
    hide DecContained;
    if present {
      ContainedRestricts(c.ty, s, depth);
    }
  }

  lemma {:induction false} AdditionsRestrict(additions: seq<Component>, bits: seq<bool>, s: Bytes, depth: nat)
    requires |bits| == |additions| && DecAdditions(additions, bits, s, true, depth).Ok?
    ensures DecAdditions(additions, bits, s, false, depth) == DecAdditions(additions, bits, s, true, depth)
    decreases additions, 0, 0
  {
    hide DecAddition;
    if additions != [] {
      AdditionRestricts(additions[0], bits[0], s, depth);
      AdditionsRestrict(additions[1..], bits[1..], DecAddition(additions[0], bits[0], s, true, depth).rest, depth);
    }
  }

  lemma {:induction false} ExtensionRestricts(additions: seq<Component>, extended: bool, s: Bytes, depth: nat)
    requires DecExtension(additions, extended, s, true, depth).Ok?
    ensures DecExtension(additions, extended, s, false, depth) == DecExtension(additions, extended, s, true, depth)
    decreases additions, 1, 0
  {
    hide DecOpen, DecAdditions;
    if additions != [] && extended {
      OpenRestricts(s);
      var bits := DecBitmap(s, additions, true);
      AdditionsRestrict(additions, bits.value, bits.rest, depth);
    }
  }

  lemma {:induction false} SequenceRestricts(ty: Type, s: Bytes, depth: nat)
    requires ty.SequenceType? && DecSequence(ty, s, true, depth).Ok?
    ensures DecSequence(ty, s, false, depth) == DecSequence(ty, s, true, depth)
    decreases ty, 0, 0
  {
    hide DecPreamble, DecFields, DecExtension, AllOptional;
    if !(ty.root == [] || (AllOptional(ty.root) && s == [])) {
      var preamble := DecPreamble(ty, s);
      var extended := ty.extensible && preamble.value[0];
      var bits := if ty.extensible then preamble.value[1..] else preamble.value;
      FieldsRestrict(ty.root, bits, preamble.rest, depth);
      ExtensionRestricts(ty.additions, extended, DecFields(ty.root, bits, preamble.rest, true, depth).rest, depth);
    }
  }

  lemma {:induction false} ItemsRestrict(element: Type, n: nat, s: Bytes, depth: nat)
    requires DecItems(element, n, s, true, depth).Ok?
    ensures DecItems(element, n, s, false, depth) == DecItems(element, n, s, true, depth)
    decreases element, 2, n
  {
    hide Dec;
    if n > 0 {
      Restricts(element, s, depth);
      ItemsRestrict(element, n - 1, Dec(element, s, true, depth).rest, depth);
    }
  }

  lemma {:induction false} SequenceOfRestricts(element: Type, s: Bytes, depth: nat)
    requires DecSequenceOf(element, s, true, depth).Ok?
    ensures DecSequenceOf(element, s, false, depth) == DecSequenceOf(element, s, true, depth)
    decreases element, 3, 0
  {
    hide DecOpen, DecItems;
    OpenRestricts(s);
    var quantity := DecOpen(s, true);
    ItemsRestrict(element, Usize(quantity.value).value, quantity.rest, depth);
  }

  lemma {:induction false} AlternativeRestricts(a: Alternative, s: Bytes, depth: nat)
    requires DecAlternative(a, s, true, depth).Ok?
    ensures DecAlternative(a, s, false, depth) == DecAlternative(a, s, true, depth)
    decreases a, 0, 0
  {
    hide Dec, DecContained;
    if a.extension {
      ContainedRestricts(a.ty, s, depth);
    } else {
      Restricts(a.ty, s, depth);
    }
  }

  lemma {:induction false} ChoiceRestricts(alternatives: seq<Alternative>, s: Bytes, depth: nat)
    requires DecChoice(alternatives, s, true, depth).Ok?
    ensures DecChoice(alternatives, s, false, depth) == DecChoice(alternatives, s, true, depth)
    decreases alternatives, 0, 0
  {
    hide DecTag, DecAlternative;
    var tag := DecTag(s);
    AlternativeRestricts(alternatives[FindTag(alternatives, tag.value)], tag.rest, depth);
  }

  /** COER is a restriction of OER, for every type and every input. */
  lemma {:induction false} Restricts(ty: Type, s: Bytes, depth: nat)
    requires Dec(ty, s, true, depth).Ok?
    ensures Dec(ty, s, false, depth) == Dec(ty, s, true, depth)
    decreases ty, 1, 0
  {
    hide DecSequence, DecSequenceOf, DecChoice, DecInteger, DecOctetString, DecBitString, DecEnumerated, DecBoolean;
    match ty
    case SequenceType(_, _, _) => SequenceRestricts(ty, s, depth - 1);
    case SequenceOfType(element) => SequenceOfRestricts(element, s, depth - 1);
    case ChoiceType(alternatives) => ChoiceRestricts(alternatives, s, depth - 1);
    case _ => PrimitiveRestricts(ty, s, depth);
  }
}
