/** The tree that the AVN encoder makes of a value, as rules stated without the encoder. */
module AvnWriting {
  import opened Common
  import opened Bits
  import opened Positional
  import opened Numerals
  import opened AvnTree
  import opened AvnSchema
  import opened AvnPrinting
  import opened AvnReading

  predicate IntegerPrinted(i: int, s: string) {
    if i >= 0 then NumeralPrinted(i, s) else s != "" && s[0] == '-' && NumeralPrinted(-i, s[1..])
  }

  /** A component without a value is left out, and a root component at its DEFAULT. */
  predicate LeftOut(c: Component, field: Option<Value>) {
    field == None || (c.presence.Default? && field == Some(c.presence.value) && !c.extension)
  }

  ghost predicate Shown(ty: Type, v: Value, t: AvnValue)
    requires HasType(v, ty)
    decreases ty, 1
  {
    match ty
    case BooleanType => t == Boolean(v.b)
    case IntegerType(_) => t.Integer? && IntegerPrinted(v.i, t.numeral)
    case OctetStringType => t == OctetString(v.octets)
    case BitStringType => t.BitString? && t.bitLength == |v.bits| && PackedIn(v.bits, t.bytes)
    case NullType => t == Null
    case OidType => t == Oid(v.arcs)
    case EnumeratedType(names) => t == Enumerated(names[v.index])
    case StringType => t == CharString(v.chars)
    case SequenceType(components) => t.Sequence? && FieldsShown(ty, v, t.fields)
    case SequenceOfType(element) =>
      t.SequenceOf? && |t.items| == |v.items| && forall i :: 0 <= i < |v.items| ==> Shown(element, v.items[i], t.items[i])
    case ChoiceType(alternatives) =>
      && t.Choice? && NameShown(alternatives, v.chosen, t.identifier)
      && Shown(alternatives[v.chosen].ty, v.inner, t.value)
  }

  /** The `i`th component has the name at the `i`th place of the declaration order. */
  ghost predicate FieldsShown(ty: Type, v: Value, fields: seq<Entry>)
    requires ty.SequenceType? && HasType(v, ty)
    decreases ty, 0
  {
    var components := ty.components;
    var places := Places(seq(|components|, i requires 0 <= i < |components| => components[i].extension));
    && |fields| == |components| == |places|
    && forall i :: 0 <= i < |components| ==>
         && places[i] < |components| && fields[i].name == components[places[i]].name
         && if LeftOut(components[i], v.fields[i]) then fields[i].value == None
            else fields[i].value.Some? && Shown(components[i].ty, v.fields[i].value, fields[i].value.value)
  }

  /** The name whose place in the declaration order is the first with the tag that was chosen. */
  ghost predicate NameShown(alternatives: seq<Alternative>, chosen: nat, id: string)
    requires chosen < |alternatives|
  {
    var places := Places(seq(|alternatives|, i requires 0 <= i < |alternatives| => alternatives[i].extension));
    exists j: nat ::
      && j < |places| && j < |alternatives| && id == alternatives[j].name
      && (forall i :: 0 <= i < |places| ==> places[i] < |alternatives|)
      && alternatives[places[j]].tag == alternatives[chosen].tag
      && forall i :: 0 <= i < j ==> alternatives[places[i]].tag != alternatives[chosen].tag
  }

  lemma IntegerIs(i: int, s: string)
    ensures IntegerPrinted(i, s) <==> s == IntText(i)
  {
    hide NatText, NumeralPrinted;
    if i >= 0 {
      NumeralIs(i, s);
    } else if s != "" {
      NumeralIs(-i, s[1..]);
      assert s == [s[0]] + s[1..];
      assert ("-" + NatText(-i))[1..] == NatText(-i);
    }
  }

  lemma {:induction false} EntryAt(ty: Type, v: Value, k: nat, i: nat)
    requires ty.SequenceType? && HasType(v, ty) && k <= i < |ty.components|
    ensures TreeFields(ty, v, k)[i - k] == TreeField(ty, v, i)
    decreases i - k
  {
    if k < i {
      EntryAt(ty, v, k + 1, i);
    }
  }

  lemma {:induction false} FieldsAreShown(ty: Type, v: Value, fields: seq<Entry>)
    requires ty.SequenceType? && HasType(v, ty)
    ensures fields == TreeFields(ty, v, 0) <==> FieldsShown(ty, v, fields)
    decreases ty, 0
  {
    hide Places, RootFirst, HasType, Tree, TreeFields;
    var components := ty.components;
    FieldsTyped(ty, v);
    RootFirstPlaces(Names(components), Extensions(components));
    if |fields| == |components| {
      forall i | 0 <= i < |components|
        ensures var places := Places(Extensions(components));
                && |places| == |components| && places[i] < |components|
                && (fields[i] == TreeFields(ty, v, 0)[i] <==>
                    && fields[i].name == components[places[i]].name
                    && if LeftOut(components[i], v.fields[i]) then fields[i].value == None
                       else fields[i].value.Some? && Shown(components[i].ty, v.fields[i].value, fields[i].value.value))
      {
        EntryAt(ty, v, 0, i);
        if !LeftOut(components[i], v.fields[i]) && fields[i].value.Some? {
          ShownExactly(components[i].ty, v.fields[i].value, fields[i].value.value);
        }
      }
    }
  }

  lemma FieldsTyped(ty: Type, v: Value)
    requires ty.SequenceType? && HasType(v, ty)
    ensures v.SequenceValue? && |v.fields| == |ty.components|
    ensures forall i :: 0 <= i < |ty.components| ==>
              && (v.fields[i].None? ==> ty.components[i].presence.Optional?)
              && (v.fields[i].Some? ==> HasType(v.fields[i].value, ty.components[i].ty))
  {
  }

  lemma NameIsShown(alternatives: seq<Alternative>, chosen: nat, id: string)
    requires chosen < |alternatives|
    ensures id == ChoiceName(alternatives, chosen) <==> NameShown(alternatives, chosen, id)
  {
    hide Places, RootFirst, AlternativeTags;
    var flags := seq(|alternatives|, i requires 0 <= i < |alternatives| => alternatives[i].extension);
    TagsAre(alternatives);
    RootFirstPlaces(AlternativeTags(alternatives), flags);
    RootFirstMember(AlternativeTags(alternatives), flags, chosen);
    var j := IndexOf(VariantTags(alternatives), alternatives[chosen].tag);
    assert j < |alternatives|;
  }

  /** The encoder makes exactly the tree of the rules. */
  lemma {:induction false} ShownExactly(ty: Type, v: Value, t: AvnValue)
    requires HasType(v, ty)
    ensures t == Tree(ty, v) <==> Shown(ty, v, t)
    decreases ty, 1
  {
    hide IntText, IntegerPrinted, PackBits, PackedIn, TreeFields, FieldsShown, ChoiceName, NameShown;
    match ty
    case IntegerType(_) =>
      if t.Integer? {
        IntegerIs(v.i, t.numeral);
      }
    case BitStringType =>
      if t.BitString? {
        PackedIs(v.bits, t.bytes);
      }
    case SequenceType(_) =>
      if t.Sequence? {
        FieldsAreShown(ty, v, t.fields);
      }
    case SequenceOfType(element) =>
      if t.SequenceOf? && |t.items| == |v.items| {
        forall i | 0 <= i < |v.items|
          ensures t.items[i] == Tree(element, v.items[i]) <==> Shown(element, v.items[i], t.items[i])
        {
          ShownExactly(element, v.items[i], t.items[i]);
        }
        assert t.items == Tree(ty, v).items <==> forall i :: 0 <= i < |v.items| ==> t.items[i] == Tree(element, v.items[i]);
      }
    case ChoiceType(alternatives) =>
      if t.Choice? {
        NameIsShown(alternatives, v.chosen, t.identifier);
        ShownExactly(alternatives[v.chosen].ty, v.inner, t.value);
      }
    case _ =>
  }
}
