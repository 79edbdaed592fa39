/** The types and values that drive the AVN encoder and decoder, and the tree of a value. */
module AvnSchema {
  import opened Common
  import opened Bits
  import opened Numerals
  import opened AvnTree
  import opened AvnParser
  import opened AvnText

  datatype Type =
    | BooleanType
    | IntegerType(range: Option<(int, int)>)
    | OctetStringType
    | BitStringType
    | NullType
    | OidType
    | EnumeratedType(names: seq<string>)
    | StringType
    | SequenceType(components: seq<Component>)
    | SequenceOfType(element: Type)
    | ChoiceType(alternatives: seq<Alternative>)

  datatype Presence = Required | Optional | Default(value: Value)

  datatype Component = Component(name: string, presence: Presence, ty: Type, extension: bool)

  datatype Alternative = Alternative(name: string, tag: Tag, ty: Type, extension: bool)

  datatype Value =
    | BooleanValue(b: bool)
    | IntegerValue(i: int)
    | OctetStringValue(octets: Bytes)
    | BitStringValue(bits: seq<bool>)
    | NullValue
    | OidValue(arcs: seq<U32>)
    | EnumeratedValue(index: nat)
    | StringValue(chars: string)
    | SequenceValue(fields: seq<Option<Value>>)
    | SequenceOfValue(items: seq<Value>)
    | ChoiceValue(chosen: nat, inner: Value)

  predicate InRange(i: int, range: Option<(int, int)>) {
    range.Some? ==> range.value.0 <= i <= range.value.1
  }

  /** `Oid::new`: at least one arc, the first at most two. */
  predicate ValidArcs(arcs: seq<U32>) {
    arcs != [] && arcs[0] <= 2
  }

  /** `v` is a value of `ty`; a component that is not OPTIONAL always has a value. */
  predicate HasType(v: Value, ty: Type)
    decreases ty
  {
    match ty
    case BooleanType => v.BooleanValue?
    case IntegerType(range) => v.IntegerValue? && InRange(v.i, range)
    case OctetStringType => v.OctetStringValue?
    case BitStringType => v.BitStringValue?
    case NullType => v.NullValue?
    case OidType => v.OidValue? && ValidArcs(v.arcs)
    case EnumeratedType(names) => v.EnumeratedValue? && v.index < |names|
    case StringType => v.StringValue?
    case SequenceType(components) =>
      && v.SequenceValue? && |v.fields| == |components|
      && forall i :: 0 <= i < |components| ==>
           && (v.fields[i].None? ==> components[i].presence.Optional?)
           && (v.fields[i].Some? ==> HasType(v.fields[i].value, components[i].ty))
    case SequenceOfType(element) => v.SequenceOfValue? && forall i :: 0 <= i < |v.items| ==> HasType(v.items[i], element)
    case ChoiceType(alternatives) =>
      v.ChoiceValue? && v.chosen < |alternatives| && HasType(v.inner, alternatives[v.chosen].ty)
  }

  // ----- Declaration order: root components first, then extension additions -----

  function RootFirst<T>(xs: seq<T>, extension: seq<bool>): seq<T>
    requires |xs| == |extension|
  {
    Chosen(xs, extension, false) + Chosen(xs, extension, true)
  }

  function Chosen<T>(xs: seq<T>, flags: seq<bool>, flag: bool): seq<T>
    requires |xs| == |flags|
  {
    if xs == [] then []
    else (if flags[0] == flag then [xs[0]] else []) + Chosen(xs[1..], flags[1..], flag)
  }

  function Names(components: seq<Component>): seq<string> {
    seq(|components|, i requires 0 <= i < |components| => components[i].name)
  }

  function Extensions(components: seq<Component>): seq<bool> {
    seq(|components|, i requires 0 <= i < |components| => components[i].extension)
  }

  /** The names the machines pair with the components, in the order they are pushed. */
  function Labels(components: seq<Component>): (labels: seq<string>)
    ensures |labels| == |components|
  {
    RootFirstLength(Names(components), Extensions(components));
    RootFirst(Names(components), Extensions(components))
  }

  function AlternativeTags(alternatives: seq<Alternative>): seq<Tag> {
    seq(|alternatives|, i requires 0 <= i < |alternatives| => alternatives[i].tag)
  }

  /** `VARIANTS` followed by `EXTENDED_VARIANTS`. */
  function VariantTags(alternatives: seq<Alternative>): (tags: seq<Tag>)
    ensures |tags| == |alternatives|
  {
    var flags := seq(|alternatives|, i requires 0 <= i < |alternatives| => alternatives[i].extension);
    RootFirstLength(AlternativeTags(alternatives), flags);
    RootFirst(AlternativeTags(alternatives), flags)
  }

  lemma {:induction false} ChosenLength<T>(xs: seq<T>, flags: seq<bool>)
    requires |xs| == |flags|
    ensures |Chosen(xs, flags, false)| + |Chosen(xs, flags, true)| == |xs|
  {
    if xs != [] {
      ChosenLength(xs[1..], flags[1..]);
    }
  }

  lemma RootFirstLength<T>(xs: seq<T>, flags: seq<bool>)
    requires |xs| == |flags|
    ensures |RootFirst(xs, flags)| == |xs|
  {
    ChosenLength(xs, flags);
  }

  lemma {:induction false} ChosenMember<T>(xs: seq<T>, flags: seq<bool>, flag: bool, x: T)
    requires |xs| == |flags|
    ensures x in Chosen(xs, flags, flag) <==> exists i :: 0 <= i < |xs| && xs[i] == x && flags[i] == flag
  {
    if xs != [] {
      ChosenMember(xs[1..], flags[1..], flag, x);
      assert forall i :: 1 <= i < |xs| ==> xs[1..][i - 1] == xs[i] && flags[1..][i - 1] == flags[i];
    }
  }

  lemma {:induction false} ChosenDistinct<T>(xs: seq<T>, flags: seq<bool>, flag: bool)
    requires |xs| == |flags| && Distinct(xs)
    ensures Distinct(Chosen(xs, flags, flag))
  {
    if xs != [] {
      ChosenDistinct(xs[1..], flags[1..], flag);
      if flags[0] == flag {
        ChosenMember(xs[1..], flags[1..], flag, xs[0]);
      }
    }
  }

  lemma DistinctConcat<T>(a: seq<T>, b: seq<T>)
    requires Distinct(a) && Distinct(b)
    requires forall x :: x in a ==> x !in b
    ensures Distinct(a + b)
  {
    forall i, j | 0 <= i < j < |a + b|
      ensures (a + b)[i] != (a + b)[j]
    {
      if i < |a| <= j {
        assert a[i] in a && b[j - |a|] in b;
      }
    }
  }

  lemma RootFirstDistinct<T>(xs: seq<T>, flags: seq<bool>)
    requires |xs| == |flags| && Distinct(xs)
    ensures Distinct(RootFirst(xs, flags))
  {
    var a := Chosen(xs, flags, false);
    var b := Chosen(xs, flags, true);
    ChosenDistinct(xs, flags, false);
    ChosenDistinct(xs, flags, true);
    forall x | x in a
      ensures x !in b
    {
      ChosenMember(xs, flags, false, x);
      ChosenMember(xs, flags, true, x);
    }
    DistinctConcat(a, b);
  }

  lemma RootFirstMember<T>(xs: seq<T>, flags: seq<bool>, i: nat)
    requires |xs| == |flags| && i < |xs|
    ensures xs[i] in RootFirst(xs, flags)
  {
    ChosenMember(xs, flags, flags[i], xs[i]);
  }

  predicate ExtensionsLast(components: seq<Component>) {
    forall i, j :: 0 <= i < j < |components| && components[i].extension ==> components[j].extension
  }

  /** Each component is labelled with its own name exactly when the extension additions come last. */
  lemma LabelsAreNames(components: seq<Component>)
    requires Distinct(Names(components))
    ensures Labels(components) == Names(components) <==> ExtensionsLast(components)
  {
    var flags := Extensions(components);
    PartitionStable(Names(components), flags);
    assert forall i :: 0 <= i < |components| ==> components[i].extension == flags[i];
    assert FlagsLast(flags) ==> ExtensionsLast(components);
  }

  predicate FlagsLast(flags: seq<bool>) {
    forall i, j :: 0 <= i < j < |flags| && flags[i] ==> flags[j]
  }

  lemma {:induction false} PartitionStable<T>(xs: seq<T>, flags: seq<bool>)
    requires |xs| == |flags| && Distinct(xs)
    ensures RootFirst(xs, flags) == xs <==> FlagsLast(flags)
  {
    if xs != [] {
      var t, f := xs[1..], flags[1..];
      PartitionStable(t, f);
      assert forall i :: 1 <= i < |flags| ==> f[i - 1] == flags[i];
      if !flags[0] {
        assert RootFirst(xs, flags) == [xs[0]] + RootFirst(t, f);
        assert RootFirst(xs, flags)[1..] == RootFirst(t, f);
        assert [xs[0]] + t == xs;
      } else if Chosen(t, f, false) == [] {
        AllChosen(t, f);
        assert RootFirst(xs, flags) == [xs[0]] + Chosen(t, f, true);
        assert [xs[0]] + t == xs;
      } else {
        var x := Chosen(t, f, false)[0];
        ChosenMember(t, f, false, x);
        assert RootFirst(xs, flags)[0] == x;
      }
    }
  }

  lemma {:induction false} AllChosen<T>(xs: seq<T>, flags: seq<bool>)
    requires |xs| == |flags| && Chosen(xs, flags, false) == []
    ensures Chosen(xs, flags, true) == xs && forall i :: 0 <= i < |flags| ==> flags[i]
  {
    if xs != [] {
      AllChosen(xs[1..], flags[1..]);
      assert [xs[0]] + xs[1..] == xs;
      assert forall i :: 1 <= i < |flags| ==> flags[1..][i - 1] == flags[i];
    }
  }

  // ----- What ASN.1 demands of a type -----

  function Lower(c: char): char {
    if 'A' <= c <= 'Z' then (c as int + 32) as char else c
  }

  predicate SameIgnoringCase(a: string, b: string) {
    |a| == |b| && forall i :: 0 <= i < |a| ==> Lower(a[i]) == Lower(b[i])
  }

  ghost predicate WellFormedType(ty: Type) {
    match ty
    case EnumeratedType(names) => Distinct(names) && forall i :: 0 <= i < |names| ==> IsIdentifier(names[i])
    case SequenceType(components) =>
      && Distinct(Names(components))
      && forall i :: 0 <= i < |components| ==>
           && IsIdentifier(components[i].name)
           && WellFormedType(components[i].ty)
           && (components[i].presence.Default? ==> HasType(components[i].presence.value, components[i].ty))
    case SequenceOfType(element) => WellFormedType(element)
    case ChoiceType(alternatives) =>
      && Distinct(AlternativeTags(alternatives))
      && (forall i, j :: 0 <= i < j < |alternatives| ==> !SameIgnoringCase(alternatives[i].name, alternatives[j].name))
      && forall i :: 0 <= i < |alternatives| ==>
           && IsIdentifier(alternatives[i].name)
           && alternatives[i].tag != EOC
           && WellFormedType(alternatives[i].ty)
    case _ => true
  }

  // ----- The tree of a value -----

  function IndexOf<T(==)>(s: seq<T>, x: T): (i: nat)
    ensures i <= |s|
    ensures i < |s| ==> s[i] == x
    ensures forall j :: 0 <= j < i ==> s[j] != x
    ensures x in s ==> i < |s|
  {
    if s == [] || s[0] == x then 0 else 1 + IndexOf(s[1..], x)
  }

  /** A component that the encoder leaves out: an absent OPTIONAL, or a root DEFAULT at its default. */
  predicate Omitted(c: Component, field: Option<Value>) {
    match c.presence
    case Required => false
    case Optional => field.None?
    case Default(d) => !c.extension && field == Some(d)
  }

  /** The identifier the encoder prints for a chosen alternative, found through its tag. */
  function ChoiceName(alternatives: seq<Alternative>, chosen: nat): string
    requires chosen < |alternatives|
  {
    var i := IndexOf(VariantTags(alternatives), alternatives[chosen].tag);
    if i < |alternatives| then alternatives[i].name else ""
  }

  /** The direct translation of a value to a tree. */
  function Tree(ty: Type, v: Value): AvnValue
    requires HasType(v, ty)
    decreases ty
  {
    match ty
    case BooleanType => Boolean(v.b)
    case IntegerType(_) => Integer(IntText(v.i))
    case OctetStringType => OctetString(v.octets)
    case BitStringType => BitString(PackBits(v.bits), |v.bits|)
    case NullType => Null
    case OidType => Oid(v.arcs)
    case EnumeratedType(names) => Enumerated(names[v.index])
    case StringType => CharString(v.chars)
    case SequenceType(components) => Sequence(TreeFields(ty, v, 0))
    case SequenceOfType(element) =>
      SequenceOf(seq(|v.items|, i requires 0 <= i < |v.items| => Tree(element, v.items[i])))
    case ChoiceType(alternatives) =>
      Choice(ChoiceName(alternatives, v.chosen), Tree(alternatives[v.chosen].ty, v.inner))
  }

  /** The entries of the components from position `k` on. */
  function TreeFields(ty: Type, v: Value, k: nat): (entries: seq<Entry>)
    requires ty.SequenceType? && HasType(v, ty) && k <= |ty.components|
    ensures |entries| == |ty.components| - k
    decreases ty, |ty.components| - k
  {
    if k == |ty.components| then []
    else [TreeField(ty, v, k)] + TreeFields(ty, v, k + 1)
  }

  function TreeField(ty: Type, v: Value, k: nat): Entry
    requires ty.SequenceType? && HasType(v, ty) && k < |ty.components|
    decreases ty, 0
  {
    var c := ty.components[k];
    Entry(Labels(ty.components)[k], if Omitted(c, v.fields[k]) then None else Some(Tree(c.ty, v.fields[k].value)))
  }
}
