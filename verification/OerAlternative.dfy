/** Of a loose value that COER accepts in one encoding, a second one is made from the first. */
module OerAlternative {
  import opened Common
  import opened Bits
  import opened BigEndian
  import opened OerTypes
  import opened OerEncode
  import opened Decoding
  import opened OerDecode
  import opened OerLocality
  import opened OerLoose
  import opened OerForms
  import opened OerCanonical
  import OerRoundTrip

  // ----- At the end of the input there are at least as many -----

  lemma {:induction false} FieldMonotone(c: Component, field: Option<Value>, depth: nat)
    requires FieldLoose(c, field, depth, false)
    ensures FieldLoose(c, field, depth, true)
    decreases c, 0, 0
  {
    hide Loose, Dec;
    if Omitted(c, field) {
      var b := ReadBefore(c.ty, c.presence.value, depth, [0]);
      Shift(c.ty, c.presence.value, depth, b, [0], []);
      ReadableBefore(c.ty, c.presence.value, depth, b, []);
    } else {
      Monotone(c.ty, field.value, depth);
    }
  }

  lemma {:induction false} FieldsMonotone(components: seq<Component>, fields: seq<Option<Value>>, depth: nat)
    requires |fields| == |components| && FieldsLoose(components, fields, depth, false)
    ensures FieldsLoose(components, fields, depth, true)
    decreases components, 0, 0
  {
    hide FieldLoose, FieldsVanish;
    if FieldLoose(components[0], fields[0], depth, false) {
      FieldMonotone(components[0], fields[0], depth);
    } else {
      FieldsMonotone(components[1..], fields[1..], depth);
    }
  }

  lemma {:induction false} ItemsMonotone(element: Type, items: seq<Value>, depth: nat)
    requires ItemsLoose(element, items, depth, false)
    ensures ItemsLoose(element, items, depth, true)
    decreases element, 2, |items|
  {
    hide Loose, ItemsVanish;
    if Loose(element, items[0], depth, false) {
      Monotone(element, items[0], depth);
    } else {
      ItemsMonotone(element, items[1..], depth);
    }
  }

  lemma {:induction false} Monotone(ty: Type, v: Value, depth: nat)
    requires Loose(ty, v, depth, false)
    ensures Loose(ty, v, depth, true)
    decreases ty, 1, 0
  {
    hide FieldsLoose, ItemsLoose;
    match ty
    case SequenceType(root, extensible, _) =>
      if !extensible {
        FieldsMonotone(root, v.root, depth - 1);
      }
    case SequenceOfType(element) => ItemsMonotone(element, v.items, depth - 1);
    case _ =>
  }

  // ----- An encoding that is not loose at the end of the input is one before any octets -----

  lemma {:induction false} FieldFirm(c: Component, field: Option<Value>, depth: nat, present: bool, b: Bytes, t: Bytes)
    requires ComponentRegular(c) && FieldAccepts(c, field, depth, present, b, []) && !FieldLoose(c, field, depth, true)
    ensures FieldAccepts(c, field, depth, present, b, t)
    decreases c, 0, 0
  {
    hide DecField, Dec, Loose, Regular;
    if present {
      FieldPresent(c, field, depth, b, []);
      if Omitted(c, field) {
        ReadableBefore(c.ty, field.value, depth, b, []);
      }
      Firm(c.ty, field.value, depth, b, t);
      FieldPresent(c, field, depth, b, t);
    } else {
      FieldNothing(c, field, depth, b, []);
      FieldAbsent(c, field, depth, t);
    }
  }

  lemma {:induction false} FieldsFirm(
      components: seq<Component>, fields: seq<Option<Value>>, depth: nat, bits: seq<bool>, b: Bytes, t: Bytes)
    requires ComponentsRegular(components) && FieldsAccept(components, fields, depth, bits, b, [])
    requires |fields| == |components| && !FieldsLoose(components, fields, depth, true)
    ensures FieldsAccept(components, fields, depth, bits, b, t)
    decreases components, 0, 0
  {
    hide FieldsAccept, FieldAccepts, FieldLoose, ComponentRegular, FieldsVanish;
    if components == [] {
      FieldsNone(fields, depth, bits, b, []);
      FieldsNone(fields, depth, bits, b, t);
    } else {
      var present, first, bits', rest := FieldsSplit(components, fields, depth, bits, b, []);
      FieldsFirm(components[1..], fields[1..], depth, bits', rest, t);
      assert rest + [] == rest;
      if rest == [] {
        EmptyVanishes(components[1..], fields[1..], depth, bits');
        FieldFirm(components[0], fields[0], depth, present, first, rest + t);
      } else {
        FieldShift(components[0], fields[0], depth, present, first, rest, rest + t);
      }
      FieldsJoin(components, fields, depth, present, first, bits', rest, t);
    }
  }

  lemma {:induction false} ItemsFirm(element: Type, items: seq<Value>, depth: nat, b: Bytes, t: Bytes)
    requires Regular(element) && ItemsAccept(element, items, depth, b, []) && !ItemsLoose(element, items, depth, true)
    ensures ItemsAccept(element, items, depth, b, t)
    decreases element, 2, |items|
  {
    hide ItemsAccept, Accepts, Loose, Regular, ItemsVanish;
    if items == [] {
      ItemsNone(element, depth, b, []);
      ItemsNone(element, depth, b, t);
    } else {
      var first, rest := ItemsSplit(element, items, depth, b, []);
      ItemsFirm(element, items[1..], depth, rest, t);
      assert rest + [] == rest;
      if rest == [] {
        EmptyItems(element, items[1..], depth);
        Firm(element, items[0], depth, first, rest + t);
      } else {
        Shift(element, items[0], depth, first, rest, rest + t);
      }
      ItemsJoin(element, items, depth, first, rest, t);
    }
  }

  lemma {:induction false} Firm(ty: Type, v: Value, depth: nat, b: Bytes, t: Bytes)
    requires Regular(ty) && Accepts(ty, v, depth, b, []) && !Loose(ty, v, depth, true)
    ensures Accepts(ty, v, depth, b, t)
    decreases ty, 1, 0
  {
    hide Accepts, FieldsLoose, ItemsLoose, AllOptional, ComponentsRegular;
    match ty
    case SequenceType(_, _, _) => SequenceFirm(ty, v, depth, b, t);
    case SequenceOfType(element) =>
      var rest := SequenceOfSplit(element, v, depth, b, []);
      ItemsFirm(element, v.items, depth - 1, rest, t);
      SequenceOfJoin(element, v.items, depth, rest, t);
    case _ => Shift(ty, v, depth, b, [], t);
  }

  lemma {:induction false} SequenceFirm(ty: Type, v: Value, depth: nat, b: Bytes, t: Bytes)
    requires ty.SequenceType? && Regular(ty) && Accepts(ty, v, depth, b, []) && !Loose(ty, v, depth, true)
    ensures Accepts(ty, v, depth, b, t)
    decreases ty, 0, 0
  {
    hide FieldsLoose, AllOptional, ComponentsRegular, FieldsAccept, PackBits, Accepts;
    assert b + [] == b;
    if TakesDefault(ty, b) {
      DefaultTaken(ty, v, depth, b, []);
      EmptySequence(ty, depth, t);
    } else {
      Deep(ty, v, depth, b, []);
      var bits, rest := SequenceSplit(ty, v, depth, b, []);
      FieldsFirm(ty.root, v.root, depth - 1, bits, rest, t);
      NotRootless(ty, b);
      SequenceJoin(ty, v.root, depth, bits, rest, t);
    }
  }

  lemma NotRootless(ty: Type, s: Bytes)
    requires ty.SequenceType? && !TakesDefault(ty, s)
    ensures ty.root != []
  {
  }

  lemma Deep(ty: Type, v: Value, depth: nat, b: Bytes, t: Bytes)
    requires (ty.SequenceType? || ty.SequenceOfType? || ty.ChoiceType?) && Accepts(ty, v, depth, b, t)
    ensures depth > 0
  {
  }

  /** A SEQUENCE without components is encoded by nothing. */
  lemma EmptySequence(ty: Type, depth: nat, t: Bytes)
    requires ty.SequenceType? && ty.root == [] && ty.additions == [] && depth > 0
    ensures Accepts(ty, SequenceValue(Initial(ty.root), Initial(ty.additions)), depth, [], t)
  {
    assert [] + t == t;
    assert Dec(ty, t, true, depth) == DecSequence(ty, t, true, depth - 1);
  }

  // ----- A loose value has a second encoding -----

  lemma {:induction false} FieldAlternative(c: Component, field: Option<Value>, depth: nat, t: Bytes, present: bool, b: Bytes)
    returns (present': bool, b': Bytes)
    requires ComponentRegular(c) && FieldAccepts(c, field, depth, present, b, t) && FieldLoose(c, field, depth, t == [])
    ensures FieldAccepts(c, field, depth, present', b', t) && (present', b') != (present, b)
    decreases c, 0, 0
  {
    hide DecField, Dec, Loose, Regular;
    if Omitted(c, field) {
      if present {
        present', b' := false, [];
        FieldAbsent(c, field, depth, t);
      } else {
        present' := true;
        b' := ReadBefore(c.ty, field.value, depth, t);
        FieldPresent(c, field, depth, b', t);
      }
    } else {
      if !present {
        FieldNothing(c, field, depth, b, t);
      }
      present' := present;
      FieldPresent(c, field, depth, b, t);
      b' := OtherEncoding(c.ty, field.value, depth, t, b);
      FieldPresent(c, field, depth, b', t);
    }
  }

  /** A second encoding of the first component, when nothing need follow it. */
  lemma {:induction false} LastAlternative(
      components: seq<Component>, fields: seq<Option<Value>>, depth: nat,
      present: bool, first: Bytes, rest: Bytes, bits: seq<bool>, b: Bytes)
    returns (bits': seq<bool>, b': Bytes)
    requires components != [] && |fields| == |components| && ComponentsRegular(components)
    requires FieldAccepts(components[0], fields[0], depth, present, first, rest)
    requires FieldsVanish(components[1..], fields[1..], depth) && FieldLoose(components[0], fields[0], depth, true)
    ensures FieldsAccept(components, fields, depth, bits', b', []) && (bits', b') != (bits, b)
    decreases components, 0, 1
  {
    hide FieldsAccept, FieldAccepts, FieldLoose, ComponentRegular, FieldsVanish, PresenceBits;
    var c, none: Bytes := components[0], [];
    if rest != [] {
      FieldShift(c, fields[0], depth, present, first, rest, none);
    }
    var present', first' := FieldAlternative(c, fields[0], depth, none, present, first);
    assert none + none == none;
    VanishEmpty(components[1..], fields[1..], depth);
    var others := PresenceBits(components[1..], fields[1..]);
    FieldsJoin(components, fields, depth, present, first, others, none, none);
    FieldsJoin(components, fields, depth, present', first', others, none, none);
    assert first + none == first && first' + none == first';
    AlwaysPresent(c, fields[0], depth, present, first, none);
    AlwaysPresent(c, fields[0], depth, present', first', none);
    OtherBit(c, present, present', others);
    if (Bit(c, present) + others, first) != (bits, b) {
      bits', b' := Bit(c, present) + others, first;
    } else {
      bits', b' := Bit(c, present') + others, first';
    }
  }

  lemma AlwaysPresent(c: Component, field: Option<Value>, depth: nat, present: bool, b: Bytes, t: Bytes)
    requires FieldAccepts(c, field, depth, present, b, t)
    ensures !IsOptional(c) ==> present
  {
  }

  lemma OtherBit(c: Component, p: bool, q: bool, others: seq<bool>)
    ensures IsOptional(c) && p != q ==> Bit(c, p) + others != Bit(c, q) + others
  {
    assert IsOptional(c) ==> (Bit(c, p) + others)[0] == p && (Bit(c, q) + others)[0] == q;
  }

  lemma {:induction false} FieldsAlternative(
      components: seq<Component>, fields: seq<Option<Value>>, depth: nat, t: Bytes, bits: seq<bool>, b: Bytes)
    returns (bits': seq<bool>, b': Bytes)
    requires ComponentsRegular(components) && FieldsAccept(components, fields, depth, bits, b, t)
    requires |fields| == |components| && FieldsLoose(components, fields, depth, t == [])
    ensures FieldsAccept(components, fields, depth, bits', b', t) && (bits', b') != (bits, b)
    decreases components, 0, 2
  {
    hide FieldsAccept, FieldAccepts, FieldLoose, ComponentRegular, FieldsVanish;
    var c := components[0];
    var present, first, others, rest := FieldsSplit(components, fields, depth, bits, b, t);
    var last := t == [] && FieldsVanish(components[1..], fields[1..], depth);
    if rest + t == [] {
      EmptyVanishes(components[1..], fields[1..], depth, others);
    }
    if FieldLoose(c, fields[0], depth, last) {
      if last {
        assert rest + t == rest;
        bits', b' := LastAlternative(components, fields, depth, present, first, rest, bits, b);
      } else {
        var present', first' := FieldAlternative(c, fields[0], depth, rest + t, present, first);
        FieldsJoin(components, fields, depth, present', first', others, rest, t);
        AlwaysPresent(c, fields[0], depth, present', first', rest + t);
        OtherBit(c, present, present', others);
        bits', b' := Bit(c, present') + others, first' + rest;
        assert b' == b ==> first' == first by {
          if b' == b {
            SamePrefix(first', first, rest);
          }
        }
      }
    } else {
      var others', rest' := FieldsAlternative(components[1..], fields[1..], depth, t, others, rest);
      if rest + t == [] {
        FieldFirm(c, fields[0], depth, present, first, rest' + t);
      } else {
        FieldShift(c, fields[0], depth, present, first, rest + t, rest' + t);
      }
      FieldsJoin(components, fields, depth, present, first, others', rest', t);
      bits', b' := Bit(c, present) + others', first + rest';
      SameSuffix(Bit(c, present), others, others');
      SameSuffix(first, rest, rest');
    }
  }

  lemma OtherPrefix(a: Bytes, b: Bytes, t: Bytes)
    requires a != b
    ensures a + t != b + t
  {
    if a + t == b + t {
      SamePrefix(a, b, t);
    }
  }

  lemma SameSuffix<T>(a: seq<T>, b: seq<T>, c: seq<T>)
    ensures a + b == a + c <==> b == c
  {
    assert (a + b)[|a|..] == b && (a + c)[|a|..] == c;
  }

  lemma {:induction false} ItemsAlternative(element: Type, items: seq<Value>, depth: nat, t: Bytes, b: Bytes) returns (b': Bytes)
    requires Regular(element) && ItemsAccept(element, items, depth, b, t) && ItemsLoose(element, items, depth, t == [])
    ensures ItemsAccept(element, items, depth, b', t) && b' != b
    decreases element, 2, |items|
  {
    hide ItemsAccept, Accepts, Loose, Regular, ItemsVanish;
    var first, rest := ItemsSplit(element, items, depth, b, t);
    var last := t == [] && ItemsVanish(element, items[1..], depth);
    EmptyItems(element, items[1..], depth);
    var none: Bytes := [];
    assert none + none == none;
    if Loose(element, items[0], depth, last) {
      if last {
        assert rest + t == rest;
        if rest != [] {
          Shift(element, items[0], depth, first, rest, none);
        }
        var first' := OtherEncoding(element, items[0], depth, none, first);
        ItemsJoin(element, items, depth, first, none, none);
        ItemsJoin(element, items, depth, first', none, none);
        assert first + none == first && first' + none == first';
        b' := if first != b then first else first';
      } else {
        var first' := OtherEncoding(element, items[0], depth, rest + t, first);
        ItemsJoin(element, items, depth, first', rest, t);
        b' := first' + rest;
        assert b' != b by {
          if b' == b {
            SamePrefix(first', first, rest);
          }
        }
      }
    } else {
      var rest' := ItemsAlternative(element, items[1..], depth, t, rest);
      if rest + t == [] {
        Firm(element, items[0], depth, first, rest' + t);
      } else {
        Shift(element, items[0], depth, first, rest + t, rest' + t);
      }
      ItemsJoin(element, items, depth, first, rest', t);
      b' := first + rest';
      SameSuffix(first, rest, rest');
    }
  }

  // ----- SEQUENCE -----

  function Absences(n: nat): (bits: seq<bool>)
    ensures |bits| == n
  {
    seq(n, i => false)
  }

  lemma {:induction false} AbsentFields(components: seq<Component>, depth: nat, t: Bytes)
    requires AllOptional(components)
    ensures OptionalCount(components) == |components|
    ensures FieldsAccept(components, Initial(components), depth, Absences(|components|), [], t)
  {
    hide DecField, FieldsAccept;
    if components == [] {
      assert Initial(components) == [] && Absences(0) == [];
      FieldsNone([], depth, [], [], t);
    } else {
      var c, rest := components[0], components[1..];
      AbsentFields(rest, depth, t);
      FieldAbsent(c, Absent(c), depth, t);
      var none: Bytes := [];
      assert none + none == none && none + t == t;
      assert Initial(components)[0] == Absent(c) && Initial(components)[1..] == Initial(rest);
      FieldsJoin(components, Initial(components), depth, false, none, Absences(|rest|), none, t);
      assert Bit(c, false) + Absences(|rest|) == Absences(|components|);
    }
  }

  /** The default of a SEQUENCE whose components are all optional, with a preamble. */
  lemma {:induction false} DefaultForm(ty: Type, depth: nat, t: Bytes) returns (b: Bytes)
    requires ty.SequenceType? && ty.root != [] && AllOptional(ty.root) && AllOptional(ty.additions) && depth > 0
    ensures b != [] && Accepts(ty, SequenceValue(Initial(ty.root), Initial(ty.additions)), depth, b, t)
  {
    hide DecPreamble, DecFields, PackBits;
    var n := OptionalCount(ty.root) + if ty.extensible then 1 else 0;
    AbsentFields(ty.root, depth - 1, t);
    SomeOptional(ty.root);
    var none: Bytes := [];
    assert none + t == t;
    var bits := Absences(n);
    b := PackBits(bits);
    PreambleJoin(ty, bits, t);
    assert ty.extensible ==> bits[1..] == Absences(|ty.root|);
    assert Initial([]) == [];
    assert DecSequence(ty, b + t, true, depth - 1) == Ok(SequenceValue(Initial(ty.root), Initial(ty.additions)), t);
    assert Dec(ty, b + t, true, depth) == DecSequence(ty, b + t, true, depth - 1);
  }

  /** An empty input gives the default as well. */
  lemma EmptyForm(ty: Type, depth: nat)
    requires ty.SequenceType? && AllOptional(ty.root) && AllOptional(ty.additions) && depth > 0
    ensures Accepts(ty, SequenceValue(Initial(ty.root), Initial(ty.additions)), depth, [], [])
  {
    hide DecPreamble, DecFields, AllOptional;
    var none: Bytes := [];
    assert none + none == none;
    assert Dec(ty, none, true, depth) == DecSequence(ty, none, true, depth - 1);
  }

  lemma OtherPreamble(bits: seq<bool>, b: Bytes, bits': seq<bool>, b': Bytes)
    requires |bits| == |bits'| && (bits, b) != (bits', b')
    ensures PackBits(bits) + b != PackBits(bits') + b'
  {
    hide PackBits;
    var p, q := PackBits(bits), PackBits(bits');
    if p + b == q + b' {
      assert (p + b)[..|p|] == p && (q + b')[..|p|] == q;
      assert (p + b)[|p|..] == b && (q + b')[|p|..] == b';
      PackInjective(bits, bits');
    }
  }

  lemma {:induction false} SequenceAlternative(ty: Type, v: Value, depth: nat, t: Bytes, b: Bytes) returns (b': Bytes)
    requires ty.SequenceType? && !ty.extensible && Regular(ty)
    requires Accepts(ty, v, depth, b, t) && Loose(ty, v, depth, t == [])
    ensures b' != b && Accepts(ty, v, depth, b', t)
    decreases ty, 0, 0
  {
    hide FieldsLoose, AllOptional, ComponentsRegular, FieldsAccept, PackBits, Accepts;
    Deep(ty, v, depth, b, t);
    if TakesDefault(ty, b + t) {
      DefaultTaken(ty, v, depth, b, t);
      assert ty.root != [] by {
        NoFieldsLoose(ty.root, v.root, depth - 1, t == []);
      }
      b' := DefaultForm(ty, depth, t);
    } else {
      NotRootless(ty, b + t);
      var bits, rest := SequenceSplit(ty, v, depth, b, t);
      if FieldsLoose(ty.root, v.root, depth - 1, t == []) {
        var bits', rest' := FieldsAlternative(ty.root, v.root, depth - 1, t, bits, rest);
        b' := PackBits(bits') + rest';
        SequenceJoin(ty, v.root, depth, bits', rest', t);
        BitCount(ty.root, v.root, depth - 1, bits, rest, t);
        BitCount(ty.root, v.root, depth - 1, bits', rest', t);
        OtherPreamble(bits, rest, bits', rest');
      } else {
        b' := [];
        NoAdditionsDefault();
        EmptyForm(ty, depth);
        SomeOptional(ty.root);
        BitCount(ty.root, v.root, depth - 1, bits, rest, t);
      }
    }
  }

  lemma NoAdditionsDefault()
    ensures Initial([]) == [] && AllOptional([])
  {
  }

  lemma BitCount(components: seq<Component>, fields: seq<Option<Value>>, depth: nat, bits: seq<bool>, b: Bytes, t: Bytes)
    requires FieldsAccept(components, fields, depth, bits, b, t)
    ensures |bits| == OptionalCount(components)
  {
  }

  lemma NoFieldsLoose(components: seq<Component>, fields: seq<Option<Value>>, depth: nat, last: bool)
    requires |fields| == |components|
    ensures components == [] ==> !FieldsLoose(components, fields, depth, last)
  {
  }

  // ----- Extensible SEQUENCE -----

  ghost predicate ExtensionAccepts(additions: seq<Component>, fields: seq<Option<Value>>, depth: nat, extended: bool, b: Bytes, t: Bytes) {
    DecExtension(additions, extended, b + t, true, depth) == Ok(fields, t)
  }

  lemma {:induction false} ExtensibleSplit(ty: Type, v: Value, depth: nat, b: Bytes, t: Bytes)
    returns (extended: bool, bits: seq<bool>, root: Bytes, extension: Bytes)
    requires ty.SequenceType? && ty.extensible && depth > 0
    requires Accepts(ty, v, depth, b, t) && !TakesDefault(ty, b + t)
    ensures v.SequenceValue? && |v.root| == |ty.root| && b == PackBits([extended] + bits) + (root + extension)
    ensures FieldsAccept(ty.root, v.root, depth - 1, bits, root, extension + t)
    ensures ExtensionAccepts(ty.additions, v.additions, depth - 1, extended, extension, t)
  {
    hide DecPreamble, DecFields, DecExtension, PackBits, AllOptional, IsSuffix, Onto;
    var s := b + t;
    assert Dec(ty, s, true, depth) == DecSequence(ty, s, true, depth - 1);
    var p := DecPreamble(ty, s);
    extended, bits := p.value[0], p.value[1..];
    assert p.value == [extended] + bits;
    var fields := DecFields(ty.root, bits, p.rest, true, depth - 1);
    PreambleSplit(ty, s);
    FieldsMove(ty.root, bits, p.rest, true, depth - 1, []);
    ExtensionMoves(ty.additions, extended, fields.rest, true, depth - 1, []);
    OntoParts(PackBits(p.value), p.rest, []);
    SuffixTrans(t, fields.rest, p.rest);
    var preamble, both := Apart(b, t, p.rest);
    SamePrefix(preamble, PackBits(p.value), p.rest);
    root, extension := Apart(both, t, fields.rest);
  }

  lemma {:induction false} ExtensibleJoin(
      ty: Type, v: Value, depth: nat, extended: bool, bits: seq<bool>, root: Bytes, extension: Bytes, t: Bytes)
    requires ty.SequenceType? && ty.extensible && ty.root != [] && depth > 0 && v.SequenceValue?
    requires FieldsAccept(ty.root, v.root, depth - 1, bits, root, extension + t)
    requires ExtensionAccepts(ty.additions, v.additions, depth - 1, extended, extension, t)
    ensures Accepts(ty, v, depth, PackBits([extended] + bits) + (root + extension), t)
  {
    hide DecPreamble, DecFields, DecExtension, PackBits, AllOptional;
    var all := [extended] + bits;
    var s := PackBits(all) + (root + extension) + t;
    PreambleJoin(ty, all, root + (extension + t));
    assert s == PackBits(all) + (root + (extension + t));
    assert all[1..] == bits;
    assert DecSequence(ty, s, true, depth - 1) == Ok(v, t);
    assert Dec(ty, s, true, depth) == DecSequence(ty, s, true, depth - 1);
  }

  /** A bitmap with another count of unused bits, or with an octet more. */
  lemma {:induction false} BitmapAlternative(additions: seq<Component>, s: Bytes) returns (b: Bytes)
    requires DecBitmap(s, additions, true).Ok?
    ensures var d := DecBitmap(s, additions, true);
            DecBitmap(b + d.rest, additions, true) == d && b + d.rest != s && b != []
  {
    hide DecOpen, EncOpen, BitmapBits;
    var d, data := DecBitmap(s, additions, true), DecOpen(s, true);
    OpenCanonical(s);
    OpenLength(data.value);
    var other := if |data.value| == 1 then [0, 0] else data.value[0 := if data.value[0] == 0 then 1 else 0];
    OpenForm(other, data.rest);
    b := EncOpen(Some(other)).value;
    OpenDiffers(data.value, other);
    OtherPrefix(b, EncOpen(Some(data.value)).value, data.rest);
    SameBits(data.value, other, |additions|);
    OpenForm(other, []);
    assert b == [] ==> b + [] == [];
    NoOpen();
  }

  lemma NoOpen()
    ensures DecOpen([], true) == Err
  {
  }

  lemma SameBits(data: Bytes, other: Bytes, n: nat)
    requires data != [] && other == if |data| == 1 then [0, 0] else data[0 := if data[0] == 0 then 1 else 0]
    ensures BitmapBits(data[1..], n) == BitmapBits(other[1..], n)
  {
    if |data| == 1 {
      assert other[1..] == [0];
      forall i | 0 <= i < n
        ensures BitmapBits(data[1..], n)[i] == BitmapBits(other[1..], n)[i]
      {
        if i < 8 {
          ZeroBit(i);
        }
      }
    } else {
      assert data[1..] == other[1..];
    }
  }

  lemma ZeroBit(i: nat)
    requires i < 8
    ensures !BitAt(0, i)
  {
  }

  lemma {:induction false} AbsentAdditions(additions: seq<Component>, depth: nat, t: Bytes)
    ensures DecAdditions(additions, Absences(|additions|), t, true, depth) == Ok(Initial(additions), t)
  {
    if additions == [] {
      assert Initial(additions) == [];
    } else {
      AbsentAdditions(additions[1..], depth, t);
      assert Absences(|additions|)[1..] == Absences(|additions[1..]|);
      assert [Absent(additions[0])] + Initial(additions[1..]) == Initial(additions);
    }
  }

  /** The shortest bitmap says that all additions are absent. */
  lemma {:induction false} EmptyBitmap(additions: seq<Component>, depth: nat, t: Bytes)
    requires additions != [] && AllOptional(additions)
    ensures ExtensionAccepts(additions, Initial(additions), depth, true, [1, 0], t)
  {
    hide DecAdditions, DecOpen;
    assert EncLength(1) == Some([1]);
    OpenForm([0], t);
    assert EncOpen(Some([0])).value == [1, 0];
    var none: Bytes := [];
    assert [0][1..] == none;
    assert BitmapBits(none, |additions|) == Absences(|additions|);
    AbsentAdditions(additions, depth, t);
  }

  /** Every extensible SEQUENCE has a second encoding. */
  lemma {:induction false} ExtensibleAlternative(ty: Type, v: Value, depth: nat, t: Bytes, b: Bytes) returns (b': Bytes)
    requires ty.SequenceType? && ty.extensible && Regular(ty) && Accepts(ty, v, depth, b, t)
    ensures b' != b && Accepts(ty, v, depth, b', t)
    decreases ty, 0, 0
  {
    hide FieldsLoose, AllOptional, ComponentsRegular, FieldsAccept, PackBits, Accepts, ExtensionAccepts;
    Deep(ty, v, depth, b, t);
    if TakesDefault(ty, b + t) {
      DefaultTaken(ty, v, depth, b, t);
      b' := DefaultForm(ty, depth, t);
    } else {
      var extended, bits, root, extension := ExtensibleSplit(ty, v, depth, b, t);
      var extended', bits', root', extension' :=
        PartsAlternative(ty.root, v.root, ty.additions, v.additions, depth - 1, t, extended, bits, root, extension);
      ExtensibleJoin(ty, v, depth, extended', bits', root', extension', t);
      b' := PackBits([extended'] + bits') + (root' + extension');
      BitCount(ty.root, v.root, depth - 1, bits, root, extension + t);
      BitCount(ty.root, v.root, depth - 1, bits', root', extension' + t);
      assert ([extended] + bits)[0] == extended && ([extended] + bits)[1..] == bits;
      assert ([extended'] + bits')[0] == extended' && ([extended'] + bits')[1..] == bits';
      OtherPreamble([extended] + bits, root + extension, [extended'] + bits', root' + extension');
    }
  }

  lemma {:induction false} PartsAlternative(
      components: seq<Component>, fields: seq<Option<Value>>, additions: seq<Component>, extra: seq<Option<Value>>,
      depth: nat, t: Bytes, extended: bool, bits: seq<bool>, root: Bytes, extension: Bytes)
    returns (extended': bool, bits': seq<bool>, root': Bytes, extension': Bytes)
    requires ComponentsRegular(components) && |fields| == |components|
    requires FieldsAccept(components, fields, depth, bits, root, extension + t)
    requires ExtensionAccepts(additions, extra, depth, extended, extension, t)
    ensures FieldsAccept(components, fields, depth, bits', root', extension' + t)
    ensures ExtensionAccepts(additions, extra, depth, extended', extension', t)
    ensures (extended', bits', root' + extension') != (extended, bits, root + extension)
    decreases components, 0, 3
  {
    hide FieldsAccept, FieldsLoose, ComponentsRegular, AllOptional, DecBitmap, DecAdditions;
    extended', bits', root', extension' := extended, bits, root, extension;
    if additions == [] {
      extended' := !extended;
    } else if extended {
      var d := DecBitmap(extension + t, additions, true);
      BitmapSuffix(additions, extension, t, depth);
      var bitmap, contents := Apart(extension, t, d.rest);
      var other := BitmapAlternative(additions, extension + t);
      extension' := other + contents;
      assert extension' + t == other + d.rest;
      if extension + t != [] {
        FieldsShift(components, fields, depth, bits, root, extension + t, extension' + t);
      } else {
        NoBitmap(additions);
      }
      SameSuffix(root, extension, extension');
    } else {
      assert |extension + t| == |t|;
      assert extension + t == t;
      if FieldsLoose(components, fields, depth, t == []) {
        bits', root' := FieldsAlternative(components, fields, depth, t, bits, root);
        assert root + extension == root && root' + extension == root';
      } else {
        extended', extension' := true, [1, 0];
        EmptyBitmap(additions, depth, t);
        if t == [] {
          FieldsFirm(components, fields, depth, bits, root, extension' + t);
        } else {
          FieldsShift(components, fields, depth, bits, root, t, extension' + t);
        }
      }
    }
  }

  lemma NoBitmap(additions: seq<Component>)
    ensures DecBitmap([], additions, true) == Err
  {
    NoOpen();
  }

  lemma {:induction false} BitmapSuffix(additions: seq<Component>, b: Bytes, t: Bytes, depth: nat)
    requires additions != [] && DecExtension(additions, true, b + t, true, depth).Ok?
    requires DecExtension(additions, true, b + t, true, depth).rest == t
    ensures var d := DecBitmap(b + t, additions, true); d.Ok? && IsSuffix(d.rest, b + t) && IsSuffix(t, d.rest)
  {
    hide DecBitmap, DecAdditions, IsSuffix, Onto;
    var d := DecBitmap(b + t, additions, true);
    BitmapMoves(b + t, additions, true, []);
    AdditionsMove(additions, d.value, d.rest, true, depth, []);
  }

  /** A loose value that is accepted in one encoding is accepted in another. */
  lemma {:induction false} OtherEncoding(ty: Type, v: Value, depth: nat, t: Bytes, b: Bytes) returns (b': Bytes)
    requires Regular(ty) && Accepts(ty, v, depth, b, t) && Loose(ty, v, depth, t == [])
    ensures b' != b && Accepts(ty, v, depth, b', t)
    decreases ty, 1, 0
  {
    hide Accepts, FieldsLoose, ItemsLoose, AllOptional, ComponentsRegular;
    match ty
    case SequenceType(_, extensible, _) =>
      if extensible {
        b' := ExtensibleAlternative(ty, v, depth, t, b);
      } else {
        b' := SequenceAlternative(ty, v, depth, t, b);
      }
    case SequenceOfType(element) =>
      var rest := SequenceOfSplit(element, v, depth, b, t);
      var rest' := ItemsAlternative(element, v.items, depth - 1, t, rest);
      SequenceOfJoin(element, v.items, depth, rest', t);
      b' := EncQuantity(|v.items|).value + rest';
      SameSuffix(EncQuantity(|v.items|).value, rest, rest');
    case ChoiceType(_) => b' := ChoiceAlternative(ty, v, depth, t, b);
    case _ =>
      var f, g := PrimitiveForms(ty, v, depth, b, t);
      b' := if f != b then f else g;
  }
}
