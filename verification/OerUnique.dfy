/**
 How many encodings of a value COER accepts. Given one, there is a second exactly if the value is
 `Loose`; so on canonical types, and for every value that is not loose, encodings are unique.
 */
module OerUnique {
  import opened Common
  import opened Bits
  import opened BigEndian
  import opened OerTypes
  import opened OerEncode
  import opened Decoding
  import opened OerDecode
  import opened OerLocality
  import opened OerLoose
  import opened OerForms
  import opened OerAlternative
  import opened OerCanonical
  import opened OerSize
  import OerRoundTrip

  // ----- Two encodings are those of a loose value -----

  lemma {:induction false} FieldTwo(
      c: Component, field: Option<Value>, depth: nat, t: Bytes, present1: bool, b1: Bytes, present2: bool, b2: Bytes)
    requires ComponentRegular(c) && (present1, b1) != (present2, b2)
    requires FieldAccepts(c, field, depth, present1, b1, t) && FieldAccepts(c, field, depth, present2, b2, t)
    ensures FieldLoose(c, field, depth, t == [])
    decreases c, 0, 0
  {
    hide DecField, Dec, Loose, Regular;
    FieldPresent(c, field, depth, b1, t);
    FieldPresent(c, field, depth, b2, t);
    if !present1 {
      FieldNothing(c, field, depth, b1, t);
    }
    if !present2 {
      FieldNothing(c, field, depth, b2, t);
    }
    if Omitted(c, field) {
      ReadableBefore(c.ty, field.value, depth, if present1 then b1 else b2, t);
    } else {
      TwoAreLoose(c.ty, field.value, depth, t, b1, b2);
    }
  }

  lemma {:induction false} FieldsTwo(
      components: seq<Component>, fields: seq<Option<Value>>, depth: nat, t: Bytes,
      bits1: seq<bool>, b1: Bytes, bits2: seq<bool>, b2: Bytes)
    requires ComponentsRegular(components) && |fields| == |components| && (bits1, b1) != (bits2, b2)
    requires FieldsAccept(components, fields, depth, bits1, b1, t) && FieldsAccept(components, fields, depth, bits2, b2, t)
    ensures FieldsLoose(components, fields, depth, t == [])
    decreases components, 0, 0
  {
    hide FieldsAccept, FieldAccepts, FieldLoose, ComponentRegular, FieldsVanish;
    if components == [] {
      FieldsNone(fields, depth, bits1, b1, t);
      FieldsNone(fields, depth, bits2, b2, t);
    } else {
      var c := components[0];
      var present1, first1, others1, rest1 := FieldsSplit(components, fields, depth, bits1, b1, t);
      var present2, first2, others2, rest2 := FieldsSplit(components, fields, depth, bits2, b2, t);
      if (others1, rest1) != (others2, rest2) {
        FieldsTwo(components[1..], fields[1..], depth, t, others1, rest1, others2, rest2);
      } else {
        FieldTwo(c, fields[0], depth, rest1 + t, present1, first1, present2, first2);
        if rest1 + t == [] {
          EmptyVanishes(components[1..], fields[1..], depth, others1);
        } else if t == [] && FieldsVanish(components[1..], fields[1..], depth) {
          FieldMonotone(c, fields[0], depth);
        }
      }
    }
  }

  lemma {:induction false} ItemsTwo(element: Type, items: seq<Value>, depth: nat, t: Bytes, b1: Bytes, b2: Bytes)
    requires Regular(element) && b1 != b2
    requires ItemsAccept(element, items, depth, b1, t) && ItemsAccept(element, items, depth, b2, t)
    ensures ItemsLoose(element, items, depth, t == [])
    decreases element, 2, |items|
  {
    hide ItemsAccept, Accepts, Loose, Regular, ItemsVanish;
    if items == [] {
      ItemsNone(element, depth, b1, t);
      ItemsNone(element, depth, b2, t);
    } else {
      var first1, rest1 := ItemsSplit(element, items, depth, b1, t);
      var first2, rest2 := ItemsSplit(element, items, depth, b2, t);
      if rest1 != rest2 {
        ItemsTwo(element, items[1..], depth, t, rest1, rest2);
      } else {
        TwoAreLoose(element, items[0], depth, rest1 + t, first1, first2);
        if rest1 + t == [] {
          EmptyItems(element, items[1..], depth);
        } else if t == [] && ItemsVanish(element, items[1..], depth) {
          Monotone(element, items[0], depth);
        }
      }
    }
  }

  lemma {:induction false} SequenceTwo(ty: Type, v: Value, depth: nat, t: Bytes, b1: Bytes, b2: Bytes)
    requires ty.SequenceType? && Regular(ty) && b1 != b2
    requires Accepts(ty, v, depth, b1, t) && Accepts(ty, v, depth, b2, t)
    ensures Loose(ty, v, depth, t == [])
    decreases ty, 0, 0
  {
    hide FieldsLoose, AllOptional, ComponentsRegular, FieldsAccept, PackBits, Accepts;
    if !ty.extensible {
      Deep(ty, v, depth, b1, t);
      if TakesDefault(ty, b1 + t) {
        DefaultTaken(ty, v, depth, b1, t);
        SequenceDefault(ty, v, depth, t, b2);
      } else if TakesDefault(ty, b2 + t) {
        DefaultTaken(ty, v, depth, b2, t);
        SequenceDefault(ty, v, depth, t, b1);
      } else {
        var bits1, rest1 := SequenceSplit(ty, v, depth, b1, t);
        var bits2, rest2 := SequenceSplit(ty, v, depth, b2, t);
        FieldsTwo(ty.root, v.root, depth - 1, t, bits1, rest1, bits2, rest2);
      }
    }
  }

  /** The default of a SEQUENCE with an encoding other than nothing. */
  lemma {:induction false} SequenceDefault(ty: Type, v: Value, depth: nat, t: Bytes, b: Bytes)
    requires ty.SequenceType? && v == SequenceValue(Initial(ty.root), Initial(ty.additions)) && AllOptional(ty.root)
    requires b != [] && Accepts(ty, v, depth, b, t) && (ty.root != [] ==> t == [])
    ensures ty.root != [] && Loose(ty, v, depth, t == [])
  {
    hide FieldsLoose, AllOptional, Accepts;
    if ty.root == [] {
      DefaultTaken(ty, v, depth, b, t);
    }
  }

  lemma {:induction false} TwoAreLoose(ty: Type, v: Value, depth: nat, t: Bytes, b1: Bytes, b2: Bytes)
    requires Regular(ty) && b1 != b2
    requires Accepts(ty, v, depth, b1, t) && Accepts(ty, v, depth, b2, t)
    ensures Loose(ty, v, depth, t == [])
    decreases ty, 1, 0
  {
    hide Accepts, FieldsLoose, ItemsLoose, AllOptional, ComponentsRegular;
    match ty
    case SequenceType(_, _, _) => SequenceTwo(ty, v, depth, t, b1, b2);
    case SequenceOfType(element) =>
      var rest1 := SequenceOfSplit(element, v, depth, b1, t);
      var rest2 := SequenceOfSplit(element, v, depth, b2, t);
      ItemsTwo(element, v.items, depth - 1, t, rest1, rest2);
    case ChoiceType(_) =>
    case _ =>
      if !Loose(ty, v, depth, t == []) {
        OnlyForm(ty, v, depth, b1, t);
        OnlyForm(ty, v, depth, b2, t);
      }
  }

  // ----- The theorems -----

  /** Of a value that is accepted, a second encoding is accepted exactly if the value is loose. */
  lemma {:induction false} SecondEncoding(ty: Type, v: Value, depth: nat, t: Bytes, b: Bytes)
    requires Regular(ty) && Accepts(ty, v, depth, b, t)
    ensures (exists b' :: b' != b && Accepts(ty, v, depth, b', t)) <==> Loose(ty, v, depth, t == [])
  {
    hide Accepts, Loose, Regular;
    if Loose(ty, v, depth, t == []) {
      var b' := OtherEncoding(ty, v, depth, t, b);
    }
    if b' :| b' != b && Accepts(ty, v, depth, b', t) {
      TwoAreLoose(ty, v, depth, t, b, b');
    }
  }

  /** The same of every value that the encoder writes and the decoder carries. */
  lemma {:induction false} SecondToWritten(ty: Type, v: Value, depth: nat, t: Bytes)
    requires Encodable(v, ty) && Writable(ty, v) && OerRoundTrip.Carries(ty, v, true, depth)
    ensures Enc(ty, v).Some?
    ensures (exists b :: b != Enc(ty, v).value && Accepts(ty, v, depth, b, t)) <==> Loose(ty, v, depth, t == [])
  {
    hide Loose, Regular, WellFormed, Matches, Enc, Dec, Writable, EncodedSize, OerRoundTrip.Carries;
    IsRegular(ty);
    ValueSized(ty, v);
    OerRoundTrip.ValueBack(ty, v, true, depth, t);
    SecondEncoding(ty, v, depth, t, Enc(ty, v).value);
  }

  lemma {:induction false} FieldsTight(components: seq<Component>, fields: seq<Option<Value>>, depth: nat, last: bool)
    requires ComponentsCanonical(components) && |fields| == |components|
    ensures !FieldsLoose(components, fields, depth, last) && ComponentsInPlace(components)
    decreases components, 0, 0
  {
    hide FieldLoose, ComponentCanonical, FieldsVanish, ComponentInPlace;
    if components != [] {
      var c := components[0];
      FieldsTight(components[1..], fields[1..], depth, last);
      FieldTight(c, fields[0], depth, last && FieldsVanish(components[1..], fields[1..], depth));
    }
  }

  lemma {:induction false} FieldTight(c: Component, field: Option<Value>, depth: nat, last: bool)
    requires ComponentCanonical(c)
    ensures !FieldLoose(c, field, depth, last) && ComponentInPlace(c)
    decreases c, 0, 0
  {
    hide Loose, Canonical, InPlace;
    Tight(c.ty, if field.Some? then field.value else NullValue, depth, last);
  }

  lemma {:induction false} ItemsTight(element: Type, items: seq<Value>, depth: nat, last: bool)
    requires Canonical(element)
    ensures !ItemsLoose(element, items, depth, last)
    decreases element, 2, |items|
  {
    hide Loose, Canonical, ItemsVanish;
    if items != [] {
      Tight(element, items[0], depth, last && ItemsVanish(element, items[1..], depth));
      ItemsTight(element, items[1..], depth, last);
    }
  }

  /** No value of a canonical type is loose, and such types are decoded in place. */
  lemma {:induction false} Tight(ty: Type, v: Value, depth: nat, last: bool)
    requires Canonical(ty)
    ensures InPlace(ty) && !Loose(ty, v, depth, last)
    decreases ty, 1, 0
  {
    hide FieldsLoose, ItemsLoose, ComponentsCanonical, ComponentsInPlace, AllOptional;
    match ty
    case SequenceType(root, _, _) =>
      if v.SequenceValue? && |v.root| == |root| && depth > 0 {
        FieldsTight(root, v.root, depth - 1, last);
      } else {
        FieldsTight(root, Initial(root), depth, last);
      }
    case SequenceOfType(element) =>
      Tight(element, NullValue, depth, last);
      if v.SequenceOfValue? && depth > 0 {
        ItemsTight(element, v.items, depth - 1, last);
      }
    case _ =>
  }

  /** A value that is not loose is accepted in one encoding only, whatever follows it. */
  lemma {:induction false} Unique(ty: Type, s1: Bytes, s2: Bytes, v: Value, r1: Bytes, r2: Bytes, depth: nat)
    requires Regular(ty) && !Loose(ty, v, depth, true)
    requires Dec(ty, s1, true, depth) == Ok(v, r1) && Dec(ty, s2, true, depth) == Ok(v, r2)
    ensures |r1| <= |s1| && |r2| <= |s2| && s1[..|s1| - |r1|] == s2[..|s2| - |r2|]
  {
    hide Dec, Loose, Regular;
    var b1 := Consumed(ty, s1, v, r1, depth);
    var b2 := Consumed(ty, s2, v, r2, depth);
    if b1 != b2 {
      TwoAreLoose(ty, v, depth, [], b1, b2);
    }
  }

  /** What was consumed of an input is an encoding at the end of the input. */
  lemma {:induction false} Consumed(ty: Type, s: Bytes, v: Value, r: Bytes, depth: nat) returns (b: Bytes)
    requires Dec(ty, s, true, depth) == Ok(v, r)
    ensures |r| <= |s| && b == s[..|s| - |r|] && Accepts(ty, v, depth, b, [])
  {
    hide Dec;
    Moves(ty, s, true, depth, []);
    b := s[..|s| - |r|];
    assert s == b + r && b + [] == b;
    if r != [] {
      Shift(ty, v, depth, b, r, []);
    }
  }

  /** So every value of a canonical type, whatever its sizes, has at most one accepted encoding. */
  lemma UniqueOnCanonical(ty: Type, s1: Bytes, s2: Bytes, v: Value, r1: Bytes, r2: Bytes, depth: nat)
    requires Regular(ty) && Canonical(ty)
    requires Dec(ty, s1, true, depth) == Ok(v, r1) && Dec(ty, s2, true, depth) == Ok(v, r2)
    ensures |r1| <= |s1| && |r2| <= |s2| && s1[..|s1| - |r1|] == s2[..|s2| - |r2|]
  {
    hide Dec, Loose, Regular, Canonical;
    Tight(ty, v, depth, true);
    Unique(ty, s1, s2, v, r1, r2, depth);
  }
}
