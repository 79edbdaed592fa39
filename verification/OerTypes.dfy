/** The types and values that drive the OER encoder and decoder. */
module OerTypes {
  import opened Common
  import opened Bits

  datatype Bounds = Bounds(start: Option<int>, end: Option<int>)

  datatype Size = AnySize | Fixed(n: nat) | Ranged(least: nat, most: nat)

  datatype Type =
    | BooleanType
    | NullType
    | IntegerType(bounds: Option<Bounds>, extensible: bool)
    | OctetStringType(size: Size)
    | BitStringType(size: Size)
    | EnumeratedType(discriminants: seq<int>)
    | SequenceType(root: seq<Component>, extensible: bool, additions: seq<Component>)
    | SequenceOfType(element: Type)
    | ChoiceType(alternatives: seq<Alternative>)

  datatype Presence = Required | Optional | Default(value: Value)

  /** `tag` is the component's own tag, given to it by hand or by automatic tagging. */
  datatype Component = Component(presence: Presence, ty: Type, tag: Option<Tag>)

  datatype Alternative = Alternative(tag: Tag, ty: Type, extension: bool)

  datatype Value =
    | BooleanValue(b: bool)
    | NullValue
    | IntegerValue(i: int)
    | OctetStringValue(octets: Bytes)
    | BitStringValue(bits: seq<bool>)
    | EnumeratedValue(index: nat)
    | SequenceValue(root: seq<Option<Value>>, additions: seq<Option<Value>>)
    | SequenceOfValue(items: seq<Value>)
    | ChoiceValue(chosen: nat, inner: Value)

  /** `v` has the shape of `ty`; value and size constraints are the encoder's to check. */
  predicate Matches(v: Value, ty: Type)
    decreases ty, 0
  {
    match ty
    case BooleanType => v.BooleanValue?
    case NullType => v.NullValue?
    case IntegerType(_, _) => v.IntegerValue?
    case OctetStringType(_) => v.OctetStringValue?
    case BitStringType(_) => v.BitStringValue?
    case EnumeratedType(discriminants) => v.EnumeratedValue? && v.index < |discriminants|
    case SequenceType(root, _, additions) =>
      v.SequenceValue? && FieldsMatch(v.root, root) && FieldsMatch(v.additions, additions)
    case SequenceOfType(element) => v.SequenceOfValue? && forall i :: 0 <= i < |v.items| ==> Matches(v.items[i], element)
    case ChoiceType(alternatives) =>
      v.ChoiceValue? && v.chosen < |alternatives| && Matches(v.inner, alternatives[v.chosen].ty)
  }

  /** Only OPTIONAL components may be without a value. */
  predicate FieldsMatch(fields: seq<Option<Value>>, components: seq<Component>)
    decreases components, 0
  {
    if components == [] then fields == []
    else
      && fields != []
      && FieldMatches(fields[0], components[0])
      && FieldsMatch(fields[1..], components[1..])
  }

  predicate FieldMatches(field: Option<Value>, c: Component)
    decreases c, 0
  {
    if field.None? then c.presence.Optional? else Matches(field.value, c.ty)
  }

  // ----- Tags -----

  /** The tag of a type; an untagged CHOICE has none of its own and says end-of-contents. */
  function TypeTag(ty: Type): Tag {
    match ty
    case BooleanType => Tag(0, 1)
    case NullType => Tag(0, 5)
    case IntegerType(_, _) => Tag(0, 2)
    case OctetStringType(_) => Tag(0, 4)
    case BitStringType(_) => Tag(0, 3)
    case EnumeratedType(_) => Tag(0, 10)
    case SequenceType(_, _, _) => Tag(0, 16)
    case SequenceOfType(_) => Tag(0, 16)
    case ChoiceType(_) => EOC
  }

  function SmallestTag(alternatives: seq<Alternative>): Tag {
    if alternatives == [] then Tag(3, 0xFFFF_FFFF)
    else
      var least := SmallestTag(alternatives[1..]);
      if TagLess(alternatives[0].tag, least) then alternatives[0].tag else least
  }

  /** The tag that derived code asks the decoder for, and the one the decoder knows the component by. */
  function AskedTag(c: Component): Tag {
    if c.tag.Some? then c.tag.value else TypeTag(c.ty)
  }

  function KnownTag(c: Component): Tag {
    if c.tag.Some? then c.tag.value
    else if c.ty.ChoiceType? then SmallestTag(c.ty.alternatives)
    else TypeTag(c.ty)
  }

  /** The decoder recognizes a present OPTIONAL or DEFAULT component. */
  predicate Recognized(c: Component) {
    AskedTag(c) == KnownTag(c)
  }

  lemma {:induction false} SmallestIsLeast(alternatives: seq<Alternative>)
    ensures SmallestTag(alternatives) == EOC <==> exists i :: 0 <= i < |alternatives| && alternatives[i].tag == EOC
  {
    if alternatives != [] {
      SmallestIsLeast(alternatives[1..]);
      if i :| 0 <= i < |alternatives| && alternatives[i].tag == EOC {
        assert i > 0 ==> alternatives[1..][i - 1].tag == EOC;
      }
      if i :| 0 <= i < |alternatives[1..]| && alternatives[1..][i].tag == EOC {
        assert alternatives[i + 1].tag == EOC;
      }
    }
  }

  /** All components are recognized but an untagged CHOICE without an alternative tagged UNIVERSAL 0. */
  lemma RecognizedComponents(c: Component)
    ensures Recognized(c) <==>
            c.tag.Some? || !c.ty.ChoiceType? ||
            exists i :: 0 <= i < |c.ty.alternatives| && c.ty.alternatives[i].tag == EOC
  {
    if c.ty.ChoiceType? {
      SmallestIsLeast(c.ty.alternatives);
    }
  }

  /** A root component the encoder leaves out. */
  predicate Omitted(c: Component, field: Option<Value>) {
    match c.presence
    case Required => false
    case Optional => field.None?
    case Default(d) => field == Some(d)
  }

  predicate IsOptional(c: Component) {
    !c.presence.Required?
  }

  function OptionalCount(components: seq<Component>): (n: nat)
    ensures n <= |components|
  {
    if components == [] then 0 else (if IsOptional(components[0]) then 1 else 0) + OptionalCount(components[1..])
  }

  predicate AllOptional(components: seq<Component>) {
    forall i :: 0 <= i < |components| ==> IsOptional(components[i])
  }

  /** The number of octets of an extension addition presence bitmap, with its initial octet. */
  function BitmapWidth(count: nat): nat {
    1 + Octets(count)
  }

  /** What the decoder demands of a type. */
  ghost predicate Regular(ty: Type)
    decreases ty, 0
  {
    match ty
    case EnumeratedType(discriminants) => Distinct(discriminants)
    case SequenceType(root, extensible, additions) =>
      && ComponentsRegular(root) && ComponentsRegular(additions)
      && (additions != [] ==> extensible) && (extensible ==> root != [])
    case SequenceOfType(element) => Regular(element)
    case ChoiceType(alternatives) =>
      && (forall i, j :: 0 <= i < j < |alternatives| ==> alternatives[i].tag != alternatives[j].tag)
      && forall i :: 0 <= i < |alternatives| ==> Regular(alternatives[i].ty)
    case _ => true
  }

  ghost predicate ComponentsRegular(components: seq<Component>)
    decreases components, 0
  {
    components != [] ==> ComponentRegular(components[0]) && ComponentsRegular(components[1..])
  }

  ghost predicate ComponentRegular(c: Component)
    decreases c, 0
  {
    Regular(c.ty)
  }

  lemma {:induction false} ComponentsAreRegular(components: seq<Component>)
    requires ComponentsWellFormed(components)
    ensures ComponentsRegular(components)
    decreases components, 0
  {
    if components != [] {
      ComponentIsRegular(components[0]);
      ComponentsAreRegular(components[1..]);
    }
  }

  lemma {:induction false} ComponentIsRegular(c: Component)
    requires ComponentWellFormed(c)
    ensures ComponentRegular(c)
    decreases c, 0
  {
    IsRegular(c.ty);
  }

  lemma {:induction false} IsRegular(ty: Type)
    requires WellFormed(ty)
    ensures Regular(ty)
    decreases ty, 0
  {
    match ty
    case SequenceType(root, _, additions) =>
      ComponentsAreRegular(root);
      ComponentsAreRegular(additions);
    case SequenceOfType(element) => IsRegular(element);
    case ChoiceType(alternatives) =>
      forall i | 0 <= i < |alternatives|
        ensures Regular(alternatives[i].ty)
      {
        IsRegular(alternatives[i].ty);
      }
    case _ =>
  }

  /** What the encoder, and ASN.1, demand of a type. */
  ghost predicate WellFormed(ty: Type)
    decreases ty, 0
  {
    match ty
    case EnumeratedType(discriminants) =>
      Distinct(discriminants) && forall i :: 0 <= i < |discriminants| ==> -0x8000_0000_0000_0000 <= discriminants[i] < 0x8000_0000_0000_0000
    case SequenceType(root, extensible, additions) =>
      && ComponentsWellFormed(root) && ComponentsWellFormed(additions)
      && (additions != [] ==> extensible)
      && (extensible ==> root != [])
      && BitmapWidth(|additions|) < TWO_64
    case SequenceOfType(element) => WellFormed(element)
    case ChoiceType(alternatives) =>
      && (forall i, j :: 0 <= i < j < |alternatives| ==> alternatives[i].tag != alternatives[j].tag)
      && forall i :: 0 <= i < |alternatives| ==> WellFormed(alternatives[i].ty)
    case _ => true
  }

  ghost predicate ComponentsWellFormed(components: seq<Component>)
    decreases components, 0
  {
    components != [] ==>
      ComponentWellFormed(components[0]) && ComponentsWellFormed(components[1..])
  }

  ghost predicate ComponentWellFormed(c: Component)
    decreases c, 0
  {
    WellFormed(c.ty) && (c.presence.Default? ==> Matches(c.presence.value, c.ty))
  }
}
