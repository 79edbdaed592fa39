/**
 The OER decoder only looks at the octets it consumes, on every input, whether or not the encoder
 could have written it.
 */
module OerLocality {
  import opened Common
  import opened Bits
  import opened BigEndian
  import opened OerTypes
  import opened OerEncode
  import opened Decoding
  import opened OerDecode

  /**
   No SEQUENCE whose root components are all OPTIONAL or DEFAULT is decoded in place: the decoder
   takes an empty input for its default value. Inside an open type the input ends with the contents.
   */
  predicate InPlace(ty: Type)
    decreases ty, 1
  {
    match ty
    case SequenceType(root, _, _) => (root == [] || !AllOptional(root)) && ComponentsInPlace(root)
    case SequenceOfType(element) => InPlace(element)
    case ChoiceType(alternatives) => forall i :: 0 <= i < |alternatives| ==> AlternativeInPlace(alternatives[i])
    case _ => true
  }

  predicate ComponentsInPlace(components: seq<Component>)
    decreases components, 0
  {
    components != [] ==> ComponentInPlace(components[0]) && ComponentsInPlace(components[1..])
  }

  predicate ComponentInPlace(c: Component)
    decreases c, 0
  {
    InPlace(c.ty)
  }

  predicate AlternativeInPlace(a: Alternative)
    decreases a, 0
  {
    !a.extension ==> InPlace(a.ty)
  }

  // ----- Locality of the primitives -----

  lemma ByteMoves(s: Bytes, t: Bytes)
    requires DecByte(s).Ok?
    ensures var d := DecByte(s); IsSuffix(d.rest, s) && DecByte(Onto(s, d.rest, t)) == Ok(d.value, t)
  {
    assert s[..1] == [s[0]];
    assert ([s[0]] + t)[1..] == t;
  }

  lemma TakeMoves(s: Bytes, n: nat, t: Bytes)
    requires Take(s, n).Ok?
    ensures var d := Take(s, n); IsSuffix(d.rest, s) && Take(Onto(s, d.rest, t), n) == Ok(d.value, t)
  {
    assert (s[..n] + t)[..n] == s[..n] && (s[..n] + t)[n..] == t;
  }

  lemma LengthMoves(s: Bytes, coer: bool, t: Bytes)
    requires DecLength(s, coer).Ok?
    ensures var d := DecLength(s, coer); IsSuffix(d.rest, s) && DecLength(Onto(s, d.rest, t), coer) == Ok(d.value, t)
  {
    hide IsSuffix, Onto, UnsignedValue, DecByte;
    var d, first := DecLength(s, coer), DecByte(s);
    if first.value < 128 {
      ByteMoves(s, t);
    } else {
      TakeMoves(first.rest, first.value - 128, t);
      ByteMoves(s, Onto(first.rest, d.rest, t));
      OntoTrans(s, first.rest, d.rest, t);
    }
  }

  lemma OpenMoves(s: Bytes, coer: bool, t: Bytes)
    requires DecOpen(s, coer).Ok?
    ensures var d := DecOpen(s, coer); IsSuffix(d.rest, s) && DecOpen(Onto(s, d.rest, t), coer) == Ok(d.value, t)
  {
    hide IsSuffix, Onto, DecLength, Take;
    var n, d := DecLength(s, coer), DecOpen(s, coer);
    TakeMoves(n.rest, n.value, t);
    LengthMoves(s, coer, Onto(n.rest, d.rest, t));
    OntoTrans(s, n.rest, d.rest, t);
  }

  lemma IntegerMoves(s: Bytes, bounds: Option<Bounds>, extensible: bool, coer: bool, t: Bytes)
    requires DecInteger(s, bounds, extensible, coer).Ok?
    ensures var d := DecInteger(s, bounds, extensible, coer);
            IsSuffix(d.rest, s) && DecInteger(Onto(s, d.rest, t), bounds, extensible, coer) == Ok(d.value, t)
  {
    hide DecOpen, Take, IsSuffix, Onto;
    var octets := Form(bounds, extensible).1;
    if octets.Some? {
      TakeMoves(s, octets.value, t);
    } else {
      OpenMoves(s, coer, t);
    }
  }

  lemma OctetStringMoves(s: Bytes, size: Size, coer: bool, t: Bytes)
    requires DecOctetString(s, size, coer).Ok?
    ensures var d := DecOctetString(s, size, coer);
            IsSuffix(d.rest, s) && DecOctetString(Onto(s, d.rest, t), size, coer) == Ok(d.value, t)
  {
    hide DecOpen, Take, IsSuffix, Onto;
    if size.Fixed? {
      TakeMoves(s, size.n, t);
    } else {
      OpenMoves(s, coer, t);
    }
  }

  /** The unused-bits octet and the octets of a BIT STRING. */
  lemma BitsMove(s: Bytes, n: nat, t: Bytes)
    requires n > 0 && DecByte(s).Ok? && Take(DecByte(s).rest, n - 1).Ok?
    ensures var unused := DecByte(s);
            var data := Take(unused.rest, n - 1);
            var moved := DecByte(Onto(s, data.rest, t));
            && IsSuffix(data.rest, s)
            && moved.Ok? && moved.value == unused.value && Take(moved.rest, n - 1) == Ok(data.value, t)
  {
    hide DecByte, Take, IsSuffix, Onto;
    var unused := DecByte(s);
    var data := Take(unused.rest, n - 1);
    TakeMoves(unused.rest, n - 1, t);
    ByteMoves(s, Onto(unused.rest, data.rest, t));
    OntoTrans(s, unused.rest, data.rest, t);
  }

  lemma BitStringMoves(s: Bytes, size: Size, coer: bool, t: Bytes)
    requires DecBitString(s, size, coer).Ok?
    ensures var d := DecBitString(s, size, coer);
            IsSuffix(d.rest, s) && DecBitString(Onto(s, d.rest, t), size, coer) == Ok(d.value, t)
  {
    hide DecLength, DecByte, IsSuffix, BitsOf, Onto;
    var d := DecBitString(s, size, coer);
    if size.Fixed? {
      TakeMoves(s, Octets(size.n), t);
    } else {
      var n := DecLength(s, coer);
      if n.value == 0 {
        LengthMoves(s, coer, t);
      } else {
        BitsMove(n.rest, n.value, t);
        LengthMoves(s, coer, Onto(n.rest, d.rest, t));
        OntoTrans(s, n.rest, d.rest, t);
      }
    }
  }

  lemma EnumeratedMoves(s: Bytes, discriminants: seq<int>, coer: bool, t: Bytes)
    requires DecEnumerated(s, discriminants, coer).Ok?
    ensures var d := DecEnumerated(s, discriminants, coer);
            IsSuffix(d.rest, s) && DecEnumerated(Onto(s, d.rest, t), discriminants, coer) == Ok(d.value, t)
  {
    hide Take, DecByte, IsSuffix, SignedValue, Onto;
    var d, first := DecEnumerated(s, discriminants, coer), DecByte(s);
    if first.value < 128 {
      ByteMoves(s, t);
    } else {
      TakeMoves(first.rest, first.value - 128, t);
      ByteMoves(s, Onto(first.rest, d.rest, t));
      OntoTrans(s, first.rest, d.rest, t);
    }
  }

  lemma {:induction false} Base128Moves(s: Bytes, acc: U32, t: Bytes)
    requires DecBase128(s, acc).Ok?
    ensures var d := DecBase128(s, acc);
            && IsSuffix(d.rest, s) && DecBase128(Onto(s, d.rest, t), acc) == Ok(d.value, t)
            && Onto(s, d.rest, t) != [] && Onto(s, d.rest, t)[0] == s[0]
    decreases s
  {
    hide IsSuffix, Onto;
    var d := DecBase128(s, acc);
    if s[0] < 128 {
      ByteMoves(s, t);
      Heads(s, t);
    } else {
      Base128Moves(s[1..], (acc * 128) % TWO_32 + s[0] % 128, t);
      ByteMoves(s, Onto(s[1..], d.rest, t));
      Heads(s, Onto(s[1..], d.rest, t));
      OntoTrans(s, s[1..], d.rest, t);
    }
  }

  lemma Heads(s: Bytes, t: Bytes)
    requires s != []
    ensures Onto(s, s[1..], t) == [s[0]] + t
  {
  }

  lemma TagMoves(s: Bytes, t: Bytes)
    requires DecTag(s).Ok?
    ensures var d := DecTag(s); IsSuffix(d.rest, s) && DecTag(Onto(s, d.rest, t)) == Ok(d.value, t)
  {
    hide DecBase128, IsSuffix, Onto, DecByte;
    var d, first := DecTag(s), DecByte(s);
    if first.value % 64 != 63 {
      ByteMoves(s, t);
    } else {
      Base128Moves(first.rest, 0, t);
      ByteMoves(s, Onto(first.rest, d.rest, t));
      OntoTrans(s, first.rest, d.rest, t);
    }
  }

  lemma PreambleMoves(ty: Type, s: Bytes, t: Bytes)
    requires ty.SequenceType? && DecPreamble(ty, s).Ok?
    ensures var d := DecPreamble(ty, s); IsSuffix(d.rest, s) && DecPreamble(ty, Onto(s, d.rest, t)) == Ok(d.value, t)
  {
    hide Take, IsSuffix, ZeroFrom, BitsOf, Onto;
    TakeMoves(s, Octets(OptionalCount(ty.root) + if ty.extensible then 1 else 0), t);
  }

  lemma BitmapMoves(s: Bytes, additions: seq<Component>, coer: bool, t: Bytes)
    requires DecBitmap(s, additions, coer).Ok?
    ensures var d := DecBitmap(s, additions, coer);
            IsSuffix(d.rest, s) && DecBitmap(Onto(s, d.rest, t), additions, coer) == Ok(d.value, t)
  {
    hide DecOpen, IsSuffix, BitmapBits, Onto;
    OpenMoves(s, coer, t);
  }

  // ----- Locality of every type -----

  lemma {:induction false} ContainedMoves(ty: Type, s: Bytes, coer: bool, depth: nat, t: Bytes)
    requires DecContained(ty, s, coer, depth).Ok?
    ensures var d := DecContained(ty, s, coer, depth);
            IsSuffix(d.rest, s) && DecContained(ty, Onto(s, d.rest, t), coer, depth) == Ok(d.value, t)
  {
    hide DecOpen, IsSuffix, Dec, Onto;
    OpenMoves(s, coer, t);
  }

  lemma {:induction false} FieldMoves(c: Component, present: bool, s: Bytes, coer: bool, depth: nat, t: Bytes)
    requires DecField(c, present, s, coer, depth).Ok?
    ensures var d := DecField(c, present, s, coer, depth);
            && IsSuffix(d.rest, s)
            && (ComponentInPlace(c) || d.rest != [] ==>
                  DecField(c, present, Onto(s, d.rest, t), coer, depth) == Ok(d.value, t))
    decreases c, 0, 0
  {
    hide Dec, IsSuffix, Onto;
    if present {
      Moves(c.ty, s, coer, depth, t);
    } else {
      Whole(s, t);
    }
  }

  lemma {:induction false} FieldsMove(components: seq<Component>, bits: seq<bool>, s: Bytes, coer: bool, depth: nat, t: Bytes)
    requires |bits| == OptionalCount(components) && DecFields(components, bits, s, coer, depth).Ok?
    ensures var d := DecFields(components, bits, s, coer, depth);
            && IsSuffix(d.rest, s)
            && (ComponentsInPlace(components) || d.rest != [] ==>
                  DecFields(components, bits, Onto(s, d.rest, t), coer, depth) == Ok(d.value, t))
    decreases components, 0, 0
  {
    hide DecField, IsSuffix, ComponentInPlace, Onto;
    if components == [] {
      Whole(s, t);
    } else {
      var c, d := components[0], DecFields(components, bits, s, coer, depth);
      var present := IsOptional(c) ==> bits[0];
      var first := DecField(c, present, s, coer, depth);
      var bits' := if IsOptional(c) then bits[1..] else bits;
      FieldsMove(components[1..], bits', first.rest, coer, depth, t);
      FieldMoves(c, present, s, coer, depth, Onto(first.rest, d.rest, t));
      OntoTrans(s, first.rest, d.rest, t);
    }
  }

  lemma {:induction false} AdditionMoves(c: Component, present: bool, s: Bytes, coer: bool, depth: nat, t: Bytes)
    requires DecAddition(c, present, s, coer, depth).Ok?
    ensures var d := DecAddition(c, present, s, coer, depth);
            IsSuffix(d.rest, s) && DecAddition(c, present, Onto(s, d.rest, t), coer, depth) == Ok(d.value, t)
  {
    hide DecContained, IsSuffix, Onto;
    if present {
      ContainedMoves(c.ty, s, coer, depth, t);
    } else {
      Whole(s, t);
    }
  }

  lemma {:induction false} AdditionsMove(additions: seq<Component>, bits: seq<bool>, s: Bytes, coer: bool, depth: nat, t: Bytes)
    requires |bits| == |additions| && DecAdditions(additions, bits, s, coer, depth).Ok?
    ensures var d := DecAdditions(additions, bits, s, coer, depth);
            IsSuffix(d.rest, s) && DecAdditions(additions, bits, Onto(s, d.rest, t), coer, depth) == Ok(d.value, t)
  {
    hide DecAddition, IsSuffix, Onto;
    if additions == [] {
      Whole(s, t);
    } else {
      var d := DecAdditions(additions, bits, s, coer, depth);
      var first := DecAddition(additions[0], bits[0], s, coer, depth);
      AdditionsMove(additions[1..], bits[1..], first.rest, coer, depth, t);
      AdditionMoves(additions[0], bits[0], s, coer, depth, Onto(first.rest, d.rest, t));
      OntoTrans(s, first.rest, d.rest, t);
    }
  }

  lemma ExtensionMoves(additions: seq<Component>, extended: bool, s: Bytes, coer: bool, depth: nat, t: Bytes)
    requires DecExtension(additions, extended, s, coer, depth).Ok?
    ensures var d := DecExtension(additions, extended, s, coer, depth);
            IsSuffix(d.rest, s) && DecExtension(additions, extended, Onto(s, d.rest, t), coer, depth) == Ok(d.value, t)
  {
    hide DecBitmap, DecAdditions, IsSuffix, Onto;
    if additions == [] || !extended {
      Whole(s, t);
    } else {
      var bits, d := DecBitmap(s, additions, coer), DecExtension(additions, extended, s, coer, depth);
      AdditionsMove(additions, bits.value, bits.rest, coer, depth, t);
      BitmapMoves(s, additions, coer, Onto(bits.rest, d.rest, t));
      OntoTrans(s, bits.rest, d.rest, t);
    }
  }

  /** The decoder takes the empty input for a SEQUENCE whose root components are all optional. */
  predicate TakesDefault(ty: Type, s: Bytes)
    requires ty.SequenceType?
  {
    ty.root == [] || (AllOptional(ty.root) && s == [])
  }

  lemma {:induction false} SequenceMoves(ty: Type, s: Bytes, coer: bool, depth: nat, t: Bytes)
    requires ty.SequenceType? && DecSequence(ty, s, coer, depth).Ok?
    ensures var d := DecSequence(ty, s, coer, depth);
            && IsSuffix(d.rest, s)
            && (InPlace(ty) || d.rest != [] ==> DecSequence(ty, Onto(s, d.rest, t), coer, depth) == Ok(d.value, t))
    decreases ty, 0, 0
  {
    hide DecPreamble, DecFields, DecExtension, IsSuffix, AllOptional, Onto, ComponentsInPlace;
    var d := DecSequence(ty, s, coer, depth);
    if TakesDefault(ty, s) {
      Whole(s, t);
    } else {
      var preamble := DecPreamble(ty, s);
      var extended := ty.extensible && preamble.value[0];
      var bits := if ty.extensible then preamble.value[1..] else preamble.value;
      var root := DecFields(ty.root, bits, preamble.rest, coer, depth);
      ExtensionMoves(ty.additions, extended, root.rest, coer, depth, t);
      var t1 := Onto(root.rest, d.rest, t);
      FieldsMove(ty.root, bits, preamble.rest, coer, depth, t1);
      var t2 := Onto(preamble.rest, root.rest, t1);
      PreambleMoves(ty, s, t2);
      OntoTrans(preamble.rest, root.rest, d.rest, t);
      OntoTrans(s, preamble.rest, d.rest, t);
      if InPlace(ty) || d.rest != [] {
        assert Onto(s, d.rest, t) == Onto(s, preamble.rest, t2);
        NotEmptied(ty, s, t2);
      }
    }
  }

  /** A preamble that was read is still there when the octets after it are replaced. */
  lemma NotEmptied(ty: Type, s: Bytes, t: Bytes)
    requires ty.SequenceType? && DecPreamble(ty, s).Ok? && !TakesDefault(ty, s)
    ensures !TakesDefault(ty, Onto(s, DecPreamble(ty, s).rest, t))
  {
    hide BitsOf, ZeroFrom;
    if AllOptional(ty.root) {
      SomeOptional(ty.root);
      var n := OptionalCount(ty.root) + if ty.extensible then 1 else 0;
      assert Octets(n) > 0;
    }
  }

  lemma SomeOptional(components: seq<Component>)
    requires components != [] && AllOptional(components)
    ensures OptionalCount(components) > 0
  {
  }

  lemma {:induction false} ItemsMove(element: Type, n: nat, s: Bytes, coer: bool, depth: nat, t: Bytes)
    requires DecItems(element, n, s, coer, depth).Ok?
    ensures var d := DecItems(element, n, s, coer, depth);
            && IsSuffix(d.rest, s)
            && (InPlace(element) || d.rest != [] ==> DecItems(element, n, Onto(s, d.rest, t), coer, depth) == Ok(d.value, t))
    decreases element, 2, n
  {
    hide Dec, IsSuffix, InPlace, Onto;
    if n == 0 {
      Whole(s, t);
    } else {
      var first, d := Dec(element, s, coer, depth), DecItems(element, n, s, coer, depth);
      ItemsMove(element, n - 1, first.rest, coer, depth, t);
      Moves(element, s, coer, depth, Onto(first.rest, d.rest, t));
      OntoTrans(s, first.rest, d.rest, t);
    }
  }

  lemma {:induction false} SequenceOfMoves(element: Type, s: Bytes, coer: bool, depth: nat, t: Bytes)
    requires DecSequenceOf(element, s, coer, depth).Ok?
    ensures var d := DecSequenceOf(element, s, coer, depth);
            && IsSuffix(d.rest, s)
            && (InPlace(element) || d.rest != [] ==> DecSequenceOf(element, Onto(s, d.rest, t), coer, depth) == Ok(d.value, t))
    decreases element, 3, 0
  {
    hide DecOpen, DecItems, IsSuffix, InPlace, Onto;
    var quantity, d := DecOpen(s, coer), DecSequenceOf(element, s, coer, depth);
    var n := Usize(quantity.value).value;
    ItemsMove(element, n, quantity.rest, coer, depth, t);
    OpenMoves(s, coer, Onto(quantity.rest, d.rest, t));
    OntoTrans(s, quantity.rest, d.rest, t);
  }

  lemma {:induction false} AlternativeMoves(a: Alternative, s: Bytes, coer: bool, depth: nat, t: Bytes)
    requires DecAlternative(a, s, coer, depth).Ok?
    ensures var d := DecAlternative(a, s, coer, depth);
            && IsSuffix(d.rest, s)
            && (AlternativeInPlace(a) || d.rest != [] ==> DecAlternative(a, Onto(s, d.rest, t), coer, depth) == Ok(d.value, t))
    decreases a, 0, 0
  {
    hide Dec, DecContained, IsSuffix, InPlace, Onto;
    if a.extension {
      ContainedMoves(a.ty, s, coer, depth, t);
    } else {
      Moves(a.ty, s, coer, depth, t);
    }
  }

  lemma {:induction false} ChoiceMoves(alternatives: seq<Alternative>, s: Bytes, coer: bool, depth: nat, t: Bytes)
    requires DecChoice(alternatives, s, coer, depth).Ok?
    ensures var d := DecChoice(alternatives, s, coer, depth);
            && IsSuffix(d.rest, s)
            && ((forall i :: 0 <= i < |alternatives| ==> AlternativeInPlace(alternatives[i])) || d.rest != [] ==>
                  DecChoice(alternatives, Onto(s, d.rest, t), coer, depth) == Ok(d.value, t))
    decreases alternatives, 0, 0
  {
    hide DecTag, DecAlternative, IsSuffix, AlternativeInPlace, Onto;
    var tag, d := DecTag(s), DecChoice(alternatives, s, coer, depth);
    var a := alternatives[FindTag(alternatives, tag.value)];
    AlternativeMoves(a, tag.rest, coer, depth, t);
    TagMoves(s, Onto(tag.rest, d.rest, t));
    OntoTrans(s, tag.rest, d.rest, t);
  }

  /**
   What is left after a success is a suffix of the input. What was consumed decodes to the same value
   before any other octets, if the type is decoded in place or at least one octet was left.
   */
  lemma {:induction false} Moves(ty: Type, s: Bytes, coer: bool, depth: nat, t: Bytes)
    requires Dec(ty, s, coer, depth).Ok?
    ensures var d := Dec(ty, s, coer, depth);
            && IsSuffix(d.rest, s)
            && (InPlace(ty) || d.rest != [] ==> Dec(ty, Onto(s, d.rest, t), coer, depth) == Ok(d.value, t))
    decreases ty, 1, 0
  {
    hide IsSuffix, DecSequence, DecSequenceOf, DecChoice, DecInteger, DecOctetString, DecBitString, DecEnumerated, Onto, DecByte;
    match ty
    case BooleanType => ByteMoves(s, t);
    case NullType => Whole(s, t);
    case IntegerType(bounds, extensible) => IntegerMoves(s, bounds, extensible, coer, t);
    case OctetStringType(size) => OctetStringMoves(s, size, coer, t);
    case BitStringType(size) => BitStringMoves(s, size, coer, t);
    case EnumeratedType(discriminants) => EnumeratedMoves(s, discriminants, coer, t);
    case SequenceType(_, _, _) => SequenceMoves(ty, s, coer, depth - 1, t);
    case SequenceOfType(element) => SequenceOfMoves(element, s, coer, depth - 1, t);
    case ChoiceType(alternatives) => ChoiceMoves(alternatives, s, coer, depth - 1, t);
  }

  /**
   Decoding is local: for a type decoded in place, a success is not changed by octets that follow
   the input, they are left over; and what is left over is always a suffix of the input.
   */
  lemma {:induction false} Local(ty: Type, s: Bytes, coer: bool, depth: nat, t: Bytes)
    requires InPlace(ty) && Dec(ty, s, coer, depth).Ok?
    ensures Dec(ty, s + t, coer, depth) == Extended(Dec(ty, s, coer, depth), t)
    ensures IsSuffix(Dec(ty, s, coer, depth).rest, s)
  {
    hide Dec, InPlace;
    var r := Dec(ty, s, coer, depth).rest;
    Moves(ty, s, coer, depth, r + t);
    assert Onto(s, r, r + t) == s + t;
  }

  /**
   The condition is needed: no SEQUENCE whose root components and additions are all optional is local.
   It accepts the empty input, and consumes some of any octets that follow, or rejects them.
   */
  lemma NotLocal(ty: Type, coer: bool, depth: nat, t: Bytes)
    requires ty.SequenceType? && ty.root != [] && AllOptional(ty.root) && AllOptional(ty.additions)
    requires depth > 0 && t != []
    ensures Dec(ty, [], coer, depth).Ok?
    ensures Dec(ty, [] + t, coer, depth) != Extended(Dec(ty, [], coer, depth), t)
    ensures Dec(ty, t, coer, depth).Ok? ==> |Dec(ty, t, coer, depth).rest| < |t|
  {
    hide DecFields, DecExtension, AllOptional, IsSuffix, BitsOf, ZeroFrom;
    assert [] + t == t;
    SomeOptional(ty.root);
    var preamble := DecPreamble(ty, t);
    var d := DecSequence(ty, t, coer, depth - 1);
    assert Dec(ty, t, coer, depth) == d;
    if d.Ok? {
      var extended := ty.extensible && preamble.value[0];
      var bits := if ty.extensible then preamble.value[1..] else preamble.value;
      var root := DecFields(ty.root, bits, preamble.rest, coer, depth - 1);
      FieldsMove(ty.root, bits, preamble.rest, coer, depth - 1, []);
      ExtensionMoves(ty.additions, extended, root.rest, coer, depth - 1, []);
      Shorter(root.rest, preamble.rest);
      Shorter(d.rest, root.rest);
    }
  }

  lemma Shorter(r: Bytes, s: Bytes)
    requires IsSuffix(r, s)
    ensures |r| <= |s|
  {
  }
}
