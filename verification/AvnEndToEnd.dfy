/**
 The whole AVN path: encode with the stack machine, print, parse, decode with the stack machine.
 It returns the value it was given or an error, never another value, and `Survives` and `Fits`
 say exactly when it is the value.
 */
module AvnEndToEnd {
  import opened Common
  import opened Bits
  import opened Numerals
  import opened AvnTree
  import opened AvnParser
  import opened AvnText
  import opened AvnRoundTrip
  import opened AvnSchema
  import opened AvnDecoder
  import AvnEncoder
  import AvnPrinterLoops

  predicate IsReserved(id: string) {
    id == "TRUE" || id == "FALSE" || id == "NULL"
  }

  /**
   The notation carries the value: `between` says that it stands directly between braces, where
   a BOOLEAN or NULL reads as an enumeration item. An enumeration item must not be a keyword.
   */
  predicate Survives(ty: Type, v: Value, between: bool)
    requires HasType(v, ty)
    decreases ty
  {
    match ty
    case BooleanType => !between
    case NullType => !between
    case EnumeratedType(names) =>
      !IsRealKeyword(names[v.index]) && (between || !IsReserved(names[v.index]))
    case SequenceType(components) =>
      forall i :: 0 <= i < |components| && !Omitted(components[i], v.fields[i]) ==>
        Survives(components[i].ty, v.fields[i].value, false)
    case SequenceOfType(element) => forall i :: 0 <= i < |v.items| ==> Survives(element, v.items[i], true)
    case ChoiceType(alternatives) => Survives(alternatives[v.chosen].ty, v.inner, false)
    case _ => true
  }

  // ----- The tree of a value is well formed -----

  lemma LabelsFacts(components: seq<Component>)
    requires Distinct(Names(components))
    ensures Distinct(Labels(components))
    ensures forall i :: 0 <= i < |components| ==> Labels(components)[i] in Names(components)
  {
    RootFirstDistinct(Names(components), Extensions(components));
    forall i | 0 <= i < |components|
      ensures Labels(components)[i] in Names(components)
    {
      var x := Labels(components)[i];
      ChosenMember(Names(components), Extensions(components), false, x);
      ChosenMember(Names(components), Extensions(components), true, x);
    }
  }

  lemma {:induction false} TreeIsWellFormed(ty: Type, v: Value)
    requires HasType(v, ty) && WellFormedType(ty)
    ensures WellFormed(Tree(ty, v))
    decreases ty
  {
    match ty
    case IntegerType(_) => IntTextIsNumber(v.i);
    case SequenceType(components) =>
      var entries := TreeFields(ty, v, 0);
      LabelsFacts(components);
      forall i | 0 <= i < |entries|
        ensures IsIdentifier(entries[i].name) && (entries[i].value.Some? ==> WellFormed(entries[i].value.value))
      {
        AvnEncoder.FieldsIndex(ty, v, 0, i);
        if entries[i].value.Some? {
          TreeIsWellFormed(components[i].ty, v.fields[i].value);
        }
      }
    case SequenceOfType(element) =>
      forall i | 0 <= i < |v.items|
        ensures WellFormed(Tree(element, v.items[i]))
      {
        TreeIsWellFormed(element, v.items[i]);
      }
    case ChoiceType(alternatives) =>
      AvnEncoder.TagFound(alternatives, v.chosen);
      TreeIsWellFormed(alternatives[v.chosen].ty, v.inner);
    case _ =>
  }

  // ----- Reading the normal form back -----

  lemma {:induction false} ArcsBack(arcs: seq<U32>)
    ensures ArcsOf(ArcValues(arcs)) == Some(arcs)
  {
    if arcs != [] {
      ArcsBack(arcs[1..]);
      NatValueText(arcs[0]);
      assert ArcValues(arcs)[1..] == ArcValues(arcs[1..]);
      assert [arcs[0]] + arcs[1..] == arcs;
    }
  }

  lemma BitsBack(bits: seq<bool>)
    ensures BitStringFrom(NormValue(BitString(PackBits(bits), |bits|))) == Some(BitStringValue(bits))
  {
    BitsOfPackBits(bits);
  }

  lemma SelectedBack(alternatives: seq<Alternative>, chosen: nat)
    requires chosen < |alternatives| && WellFormedType(ChoiceType(alternatives))
    ensures Selected(alternatives, ChoiceName(alternatives, chosen)) == Some(chosen)
  {
    AvnEncoder.TagFound(alternatives, chosen);
    var tag := alternatives[chosen].tag;
    var i := IndexOf(VariantTags(alternatives), tag);
    assert SameIgnoringCase(alternatives[i].name, alternatives[i].name);
    assert FindName(alternatives, alternatives[i].name) == i;
    var tags := AlternativeTags(alternatives);
    assert tags[chosen] == tag;
    assert IndexOf(tags, tag) == chosen;
  }

  lemma {:induction false} FieldMapCons(e: Entry, rest: seq<Entry>)
    ensures FieldMap([e] + rest) ==
            (if e.value.Some? then map[e.name := e.value.value] else map[]) + FieldMap(rest)
  {
    var fields := [e] + rest;
    if rest == [] {
      assert fields[..0] == [];
      assert fields == [e];
    } else {
      FieldMapCons(e, rest[..|rest| - 1]);
      assert fields[..|fields| - 1] == [e] + rest[..|rest| - 1];
    }
  }

  /** The map the decoder builds from the parsed fields of a SEQUENCE with distinct names. */
  lemma {:induction false} FieldMapOfNorm(fields: seq<Entry>)
    requires forall i, j :: 0 <= i < j < |fields| ==> fields[i].name != fields[j].name
    ensures var m := FieldMap(NormFields(fields));
            && (forall i :: 0 <= i < |fields| ==> (fields[i].name in m <==> fields[i].value.Some?))
            && (forall i :: 0 <= i < |fields| && fields[i].value.Some? ==> m[fields[i].name] == NormValue(fields[i].value.value))
            && (forall name :: name in m ==> exists i :: 0 <= i < |fields| && fields[i].name == name)
  {
    if fields != [] {
      var rest := fields[1..];
      FieldMapOfNorm(rest);
      assert forall i :: 1 <= i < |fields| ==> rest[i - 1] == fields[i];
      var m := FieldMap(NormFields(rest));
      assert fields[0].name !in m;
      if fields[0].value.Some? {
        FieldMapCons(Entry(fields[0].name, Some(NormValue(fields[0].value.value))), NormFields(rest));
      }
    }
  }

  /** The slot the decoder finds for component `k`. */
  function Slot(ty: Type, v: Value, k: nat): Option<AvnValue>
    requires ty.SequenceType? && HasType(v, ty) && k < |ty.components|
  {
    var field := TreeField(ty, v, k);
    if field.value.Some? then Some(NormValue(field.value.value)) else None
  }

  lemma SlotsBack(ty: Type, v: Value)
    requires ty.SequenceType? && HasType(v, ty) && WellFormedType(ty)
    ensures FieldsOf(NormValue(Tree(ty, v))).Some?
    ensures var slots := Slots(Labels(ty.components), FieldsOf(NormValue(Tree(ty, v))).value);
            forall k :: 0 <= k < |ty.components| ==> slots[k] == Slot(ty, v, k)
  {
    hide Tree, NormValue, HasType, WellFormedType, TreeFields, FieldMap, NormFields, FieldsOf, Labels;
    var entries := TreeFields(ty, v, 0);
    var labels := Labels(ty.components);
    SequenceFields(ty, v);
    DistinctLabels(ty);
    forall i | 0 <= i < |entries|
      ensures entries[i] == TreeField(ty, v, i) && entries[i].name == labels[i]
    {
      AvnEncoder.FieldsIndex(ty, v, 0, i);
    }
    FieldMapOfNorm(entries);
    NotAgain(labels);
  }

  lemma DistinctLabels(ty: Type)
    requires ty.SequenceType? && WellFormedType(ty)
    ensures Distinct(Labels(ty.components)) && |Labels(ty.components)| == |ty.components|
  {
    hide Labels, Names;
    LabelsFacts(ty.components);
  }

  lemma NotAgain(labels: seq<string>)
    requires Distinct(labels)
    ensures forall k :: 0 <= k < |labels| ==> labels[k] !in labels[k + 1..]
  {
  }

  lemma SequenceFields(ty: Type, v: Value)
    requires ty.SequenceType? && HasType(v, ty)
    ensures FieldsOf(NormValue(Tree(ty, v))) == Some(FieldMap(NormFields(TreeFields(ty, v, 0))))
  {
    NormFieldsPresent(TreeFields(ty, v, 0));
  }

  predicate FieldSurvives(ty: Type, v: Value, k: nat)
    requires ty.SequenceType? && HasType(v, ty) && k < |ty.components|
  {
    !Omitted(ty.components[k], v.fields[k]) ==> Survives(ty.components[k].ty, v.fields[k].value, false)
  }

  lemma {:induction false} FieldBack(ty: Type, v: Value, k: nat)
    requires ty.SequenceType? && HasType(v, ty) && WellFormedType(ty) && k < |ty.components|
    ensures FromSlot(ty.components[k], Slot(ty, v, k)) == if FieldSurvives(ty, v, k) then Some(v.fields[k]) else None
    decreases ty, 0
  {
    var c := ty.components[k];
    if !Omitted(c, v.fields[k]) {
      ValueBack(c.ty, v.fields[k].value, false);
    }
  }

  lemma {:induction false} FieldsBack(ty: Type, v: Value, slots: seq<Option<AvnValue>>, k: nat)
    requires ty.SequenceType? && HasType(v, ty) && WellFormedType(ty) && k <= |ty.components|
    requires |slots| == |ty.components|
    requires forall i :: 0 <= i < |slots| ==> slots[i] == Slot(ty, v, i)
    ensures FromSlots(ty.components[k..], slots[k..]) ==
            if forall i :: k <= i < |slots| ==> FieldSurvives(ty, v, i) then Some(v.fields[k..]) else None
    decreases ty, 1, |slots| - k
  {
    hide FromSlot, Slot, FieldSurvives, WellFormedType;
    if k < |slots| {
      var components := ty.components;
      FieldBack(ty, v, k);
      FieldsBack(ty, v, slots, k + 1);
      assert components[k..][1..] == components[k + 1..] && slots[k..][1..] == slots[k + 1..];
      assert v.fields[k..] == [v.fields[k]] + v.fields[k + 1..];
    }
  }

  lemma {:induction false} ItemsBack(element: Type, vs: seq<Value>, items: seq<AvnValue>)
    requires WellFormedType(element) && |items| == |vs|
    requires forall i :: 0 <= i < |vs| ==> HasType(vs[i], element)
    requires forall i :: 0 <= i < |vs| ==> items[i] == Tree(element, vs[i])
    ensures FromItems(element, NormItems(items)) ==
            if forall i :: 0 <= i < |vs| ==> Survives(element, vs[i], true) then Some(vs) else None
    decreases element, 3, |vs|
  {
    hide FromTree, Survives, NormItem, WellFormedType, Tree, HasType, FromItems, NormItems;
    if vs == [] {
      NoItems(element, items);
    } else {
      ValueBack(element, vs[0], true);
      assert forall i :: 0 <= i < |vs[1..]| ==> vs[1..][i] == vs[i + 1] && items[1..][i] == items[i + 1];
      ItemsBack(element, vs[1..], items[1..]);
      FirstItem(element, items);
      assert [vs[0]] + vs[1..] == vs;
      assert forall i :: 1 <= i < |vs| ==> vs[1..][i - 1] == vs[i];
    }
  }

  lemma NoItems(element: Type, items: seq<AvnValue>)
    requires items == []
    ensures FromItems(element, NormItems(items)) == Some([])
  {
  }

  lemma FirstItem(element: Type, items: seq<AvnValue>)
    requires items != []
    ensures var first := FromTree(element, NormItem(items[0]));
            var rest := FromItems(element, NormItems(items[1..]));
            FromItems(element, NormItems(items)) ==
            if first.None? || rest.None? then None else Some([first.value] + rest.value)
  {
    hide FromTree, NormItem;
    assert NormItems(items)[1..] == NormItems(items[1..]);
  }

  function Norm(t: AvnValue, between: bool): AvnValue {
    if between then NormItem(t) else NormValue(t)
  }

  /** Reading the parsed tree of a value gives the value if it survives the notation, and an error if not. */
  lemma {:induction false} ValueBack(ty: Type, v: Value, between: bool)
    requires HasType(v, ty) && WellFormedType(ty)
    ensures FromTree(ty, Norm(Tree(ty, v), between)) == if Survives(ty, v, between) then Some(v) else None
    decreases ty, 2
  {
    hide FromTree, Tree, NormValue, Survives, WellFormedType, HasType;
    match ty
    case SequenceType(_) => SequenceBack(ty, v, between);
    case SequenceOfType(_) => SequenceOfBack(ty, v, between);
    case ChoiceType(_) => ChoiceBack(ty, v, between);
    case _ => LeafBack(ty, v, between);
  }

  lemma {:induction false} SequenceOfBack(ty: Type, v: Value, between: bool)
    requires ty.SequenceOfType? && HasType(v, ty) && WellFormedType(ty)
    ensures FromTree(ty, Norm(Tree(ty, v), between)) == if Survives(ty, v, between) then Some(v) else None
    decreases ty, 1
  {
    hide FromItems, NormItems, Survives, HasType, WellFormedType, NormItem, NormValue, Tree, FromTree;
    SequenceOfParts(ty, v, between);
    ItemsBack(ty.element, v.items, Tree(ty, v).items);
  }

  /** One level of the tree of a SEQUENCE OF. */
  lemma SequenceOfParts(ty: Type, v: Value, between: bool)
    requires ty.SequenceOfType? && HasType(v, ty) && WellFormedType(ty)
    ensures v.SequenceOfValue? && WellFormedType(ty.element) && forall i :: 0 <= i < |v.items| ==> HasType(v.items[i], ty.element)
    ensures var t := Tree(ty, v);
            && t.SequenceOf? && |t.items| == |v.items|
            && (forall i :: 0 <= i < |v.items| ==> t.items[i] == Tree(ty.element, v.items[i]))
            && Norm(t, between) == SequenceOf(NormItems(t.items))
            && (FromTree(ty, SequenceOf(NormItems(t.items))) ==
                var values := FromItems(ty.element, NormItems(t.items));
                if values.Some? then Some(SequenceOfValue(values.value)) else None)
    ensures Survives(ty, v, between) <==> forall i :: 0 <= i < |v.items| ==> Survives(ty.element, v.items[i], true)
  {
    hide FromItems, NormItems, NormItem;
    NormPlain(Tree(ty, v));
  }

  lemma {:induction false} ChoiceBack(ty: Type, v: Value, between: bool)
    requires ty.ChoiceType? && HasType(v, ty) && WellFormedType(ty)
    ensures FromTree(ty, Norm(Tree(ty, v), between)) == if Survives(ty, v, between) then Some(v) else None
    decreases ty, 1
  {
    hide Selected, ChoiceName;
    var t := Tree(ty, v);
    NormPlain(t);
    SelectedBack(ty.alternatives, v.chosen);
    ValueBack(ty.alternatives[v.chosen].ty, v.inner, false);
    assert NormValue(t) == Choice(t.identifier, NormValue(t.value));
  }

  lemma NormPlain(t: AvnValue)
    requires !IsWord(t)
    ensures NormItem(t) == NormValue(t)
  {
  }

  lemma IndexBack(names: seq<string>, i: nat)
    requires Distinct(names) && i < |names|
    ensures IndexOf(names, names[i]) == i
  {
  }

  lemma {:induction false} LeafBack(ty: Type, v: Value, between: bool)
    requires HasType(v, ty) && WellFormedType(ty)
    requires !ty.SequenceType? && !ty.SequenceOfType? && !ty.ChoiceType?
    ensures FromTree(ty, Norm(Tree(ty, v), between)) == if Survives(ty, v, between) then Some(v) else None
  {
    hide PackBits, BitsOf, ArcsOf, ArcValues, IntText, ParseInt, NatText, IndexOf, BitStringFrom;
    match ty
    case BooleanType =>
    case NullType =>
    case IntegerType(_) =>
      NormPlain(Tree(ty, v));
      ParseIntText(v.i);
    case OctetStringType => NormPlain(Tree(ty, v));
    case BitStringType =>
      NormPlain(Tree(ty, v));
      BitsBack(v.bits);
    case OidType =>
      NormPlain(Tree(ty, v));
      ArcsBack(v.arcs);
    case StringType => NormPlain(Tree(ty, v));
    case EnumeratedType(names) =>
      IndexBack(names, v.index);
  }

  lemma {:induction false} SequenceBack(ty: Type, v: Value, between: bool)
    requires ty.SequenceType? && HasType(v, ty) && WellFormedType(ty)
    ensures FromTree(ty, Norm(Tree(ty, v), between)) == if Survives(ty, v, between) then Some(v) else None
    decreases ty, 1
  {
    hide NormValue, FieldsOf, Slots, WellFormedType, FromSlots, Slot;
    var t := NormValue(Tree(ty, v));
    NormPlain(Tree(ty, v));
    SlotsBack(ty, v);
    var slots := Slots(Labels(ty.components), FieldsOf(t).value);
    FieldsBack(ty, v, slots, 0);
    assert ty.components[0..] == ty.components && slots[0..] == slots && v.fields[0..] == v.fields;
    SurvivesByField(ty, v, between);
  }

  lemma SurvivesByField(ty: Type, v: Value, between: bool)
    requires ty.SequenceType? && HasType(v, ty)
    ensures Survives(ty, v, between) <==> forall i :: 0 <= i < |ty.components| ==> FieldSurvives(ty, v, i)
  {
    if forall i :: 0 <= i < |ty.components| ==> FieldSurvives(ty, v, i) {
      forall i | 0 <= i < |ty.components| && !Omitted(ty.components[i], v.fields[i])
        ensures Survives(ty.components[i].ty, v.fields[i].value, false)
      {
        assert FieldSurvives(ty, v, i);
      }
    }
  }

  // ----- The theorem -----

  /**
   For every well-formed type and every value of it, decoding the printed text gives back exactly
   that value, with absent OPTIONAL and DEFAULT components restored, if the tree fits the parser's
   depth and the value survives the notation; in every other case decoding fails.
   */
  lemma EndToEnd(ty: Type, v: Value)
    requires HasType(v, ty) && WellFormedType(ty)
    ensures FromText(ty, Print(Tree(ty, v), 0)) ==
            if Fits(Tree(ty, v), 0) && Survives(ty, v, false) then Some(v) else None
  {
    hide Print, ParseText, Tree, NormValue, FromTree, Fits, Survives;
    TreeIsWellFormed(ty, v);
    PrintedText(Tree(ty, v));
    ValueBack(ty, v, false);
  }

  /** A SEQUENCE OF BOOLEAN comes back only when it is empty. */
  lemma SequenceOfBoolean(v: Value)
    requires HasType(v, SequenceOfType(BooleanType))
    ensures var ty := SequenceOfType(BooleanType);
            FromText(ty, Print(Tree(ty, v), 0)) == if v.items == [] then Some(v) else None
  {
    var ty := SequenceOfType(BooleanType);
    EndToEnd(ty, v);
    if v.items != [] {
      assert !Survives(BooleanType, v.items[0], true);
    }
  }

  /** Encode, print, parse and decode with the programs themselves. */
  method RoundTrip(ty: Type, v: Value) returns (r: Option<Value>)
    requires HasType(v, ty) && WellFormedType(ty)
    ensures r == if Fits(Tree(ty, v), 0) && Survives(ty, v, false) then Some(v) else None
  {
    var encoder := new AvnEncoder.Encoder();
    var ok := encoder.Encode(ty, v);
    var text := AvnPrinterLoops.Format(encoder.rootValue.value, 0);
    r := DecodeText(ty, text);
    EndToEnd(ty, v);
  }
}
