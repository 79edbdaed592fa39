/** What the AVN decoder makes of a tree, as rules stated without the decoder. */
module AvnReading {
  import opened Common
  import opened Bits
  import opened Positional
  import opened Numerals
  import opened AvnTree
  import opened AvnParser
  import opened AvnSchema
  import opened AvnGrammar
  import opened AvnPrinting
  import opened AvnDecoder
  import Utf8

  // ----- The rules -----

  /** Digits with or without a minus sign. */
  predicate NumeralMeans(s: string, i: int) {
    && Decimals(WithoutSign(s))
    && i == if Starts(s, '-') then -(DecimalValue(WithoutSign(s)) as int) else DecimalValue(s)
  }

  /** ASCII letters are the same in both cases. */
  predicate SameLetter(a: char, b: char) {
    || a == b
    || ('A' <= a <= 'Z' && b as int == a as int + 32)
    || ('A' <= b <= 'Z' && a as int == b as int + 32)
  }

  predicate SameName(a: string, b: string) {
    |a| == |b| && forall i :: 0 <= i < |a| ==> SameLetter(a[i], b[i])
  }

  ghost predicate FirstAt<T(!new)>(xs: seq<T>, i: nat, x: T) {
    i < |xs| && xs[i] == x && forall j :: 0 <= j < i ==> xs[j] != x
  }

  /** An arc is written in digits and below 2^32. */
  predicate ArcMeans(t: AvnValue, arc: U32) {
    t.Integer? && Decimals(t.numeral) && DecimalValue(t.numeral) == arc
  }

  ghost predicate ArcsMean(t: AvnValue, arcs: seq<U32>) {
    match t
    case Oid(own) => arcs == own
    case SequenceOf(items) => |arcs| == |items| && forall i :: 0 <= i < |items| ==> ArcMeans(items[i], arcs[i])
    case _ => false
  }

  predicate BitsMean(t: AvnValue, bits: seq<bool>) {
    match t
    case BitString(bytes, n) =>
      |bits| == (if n < 8 * |bytes| then n else 8 * |bytes|) && forall i :: 0 <= i < |bits| ==> bits[i] == Bit(bytes, i)
    case OctetString(bytes) => |bits| == 8 * |bytes| && forall i :: 0 <= i < |bits| ==> bits[i] == Bit(bytes, i)
    case _ => false
  }

  /** Text, or octets in UTF-8. */
  predicate TextMeans(t: AvnValue, chars: string) {
    match t
    case CharString(own) => chars == own
    case OctetString(octets) => octets == Utf8.Encode(chars)
    case _ => false
  }

  /** The places of the root components in order, and after them those of the additions. */
  function Places(flags: seq<bool>): seq<nat> {
    PlacesOf(flags, false, 0) + PlacesOf(flags, true, 0)
  }

  function PlacesOf(flags: seq<bool>, flag: bool, k: nat): seq<nat>
    decreases |flags| - k
  {
    if k >= |flags| then [] else (if flags[k] == flag then [k] else []) + PlacesOf(flags, flag, k + 1)
  }

  /** The last field with a name that has a value. */
  ghost predicate FieldAt(fields: seq<Entry>, name: string, k: nat) {
    && k < |fields| && fields[k].name == name && fields[k].value != None
    && forall j :: k < j < |fields| ==> fields[j].name != name || fields[j].value == None
  }

  ghost predicate NoField(fields: seq<Entry>, name: string) {
    forall j :: 0 <= j < |fields| ==> fields[j].name != name || fields[j].value == None
  }

  /** What a component with the given name finds in a tree; an empty list is a SEQUENCE without fields. */
  ghost predicate Finds(t: AvnValue, name: string, slot: Option<AvnValue>) {
    match t
    case Sequence(fields) =>
      (slot == None && NoField(fields, name)) || exists k: nat :: FieldAt(fields, name, k) && slot == fields[k].value
    case SequenceOf(items) => items == [] && slot == None
    case _ => false
  }

  ghost predicate Means(ty: Type, t: AvnValue, v: Value)
    decreases ty, 2
  {
    match ty
    case BooleanType => t.Boolean? && v == BooleanValue(t.b)
    case IntegerType(range) =>
      t.Integer? && v.IntegerValue? && NumeralMeans(t.numeral, v.i) && (range.Some? ==> range.value.0 <= v.i <= range.value.1)
    case OctetStringType => t.OctetString? && v == OctetStringValue(t.octets)
    case BitStringType => v.BitStringValue? && BitsMean(t, v.bits)
    case NullType => t == Null && v == NullValue
    case OidType => v.OidValue? && ArcsMean(t, v.arcs) && v.arcs != [] && v.arcs[0] <= 2
    case EnumeratedType(names) => t.Enumerated? && v.EnumeratedValue? && FirstAt(names, v.index, t.id)
    case StringType => v.StringValue? && TextMeans(t, v.chars)
    case SequenceType(components) => v.SequenceValue? && FieldsMean(components, t, v.fields)
    case SequenceOfType(element) =>
      && v.SequenceOfValue?
      && ((t == Sequence([]) && v.items == [])
          || (t.SequenceOf? && |v.items| == |t.items| && forall i :: 0 <= i < |t.items| ==> Means(element, t.items[i], v.items[i])))
    case ChoiceType(alternatives) => t.Choice? && v.ChoiceValue? && ChosenMeans(alternatives, t.identifier, t.value, v)
  }

  /**
   The `i`th component goes by the name at the `i`th place of the declaration order, unless a later place has the same
   name; what it does not find is absent.
   */
  ghost predicate FieldsMean(components: seq<Component>, t: AvnValue, fields: seq<Option<Value>>)
    decreases components, 1
  {
    var places := Places(seq(|components|, i requires 0 <= i < |components| => components[i].extension));
    && (t.Sequence? || t == SequenceOf([]))
    && |fields| == |components| == |places|
    && (forall i :: 0 <= i < |places| ==> places[i] < |components|)
    && forall i :: 0 <= i < |components| ==> FieldMeans(components[i], components, places, i, t, fields[i])
  }

  ghost predicate FieldMeans(
      c: Component, components: seq<Component>, places: seq<nat>, i: nat, t: AvnValue, field: Option<Value>)
    requires i < |places| && forall k :: 0 <= k < |places| ==> places[k] < |components|
    decreases c, 3
  {
    var name := components[places[i]].name;
    exists slot: Option<AvnValue> ::
      && (if exists k :: i < k < |places| && components[places[k]].name == name then slot == None else Finds(t, name, slot))
      && if slot.Some? then field.Some? && Means(c.ty, slot.value, field.value)
         else
           match c.presence
           case Required => false
           case Optional => field == None
           case Default(d) => field == Some(d)
  }

  /**
   The identifier is looked up among the names in any case of letters; the tag at its place in the declaration order
   selects the alternative.
   */
  ghost predicate Selects(alternatives: seq<Alternative>, id: string, chosen: nat) {
    var places := Places(seq(|alternatives|, i requires 0 <= i < |alternatives| => alternatives[i].extension));
    && chosen < |alternatives|
    && (forall i :: 0 <= i < chosen ==> alternatives[i].tag != alternatives[chosen].tag)
    && exists j: nat ::
         && j < |alternatives| && j < |places| && places[j] < |alternatives|
         && SameName(alternatives[j].name, id) && (forall i :: 0 <= i < j ==> !SameName(alternatives[i].name, id))
         && alternatives[places[j]].tag != Tag(0, 0)
         && alternatives[chosen].tag == alternatives[places[j]].tag
  }

  ghost predicate ChosenMeans(alternatives: seq<Alternative>, id: string, t: AvnValue, v: Value)
    requires v.ChoiceValue?
    decreases alternatives, 1
  {
    v.chosen < |alternatives| && Selects(alternatives, id, v.chosen) && Means(alternatives[v.chosen].ty, t, v.inner)
  }

  // ----- The decoder's parts -----

  lemma NumeralMeaning(s: string, i: int)
    ensures NumeralMeans(s, i) <==> ParseInt(s) == Some(i)
  {
    hide NatValue, DecimalValue;
    var d := WithoutSign(s);
    assert d == Unsigned(s);
    assert Decimals(d) <==> d != "" && AllDigits(d);
    if Decimals(d) {
      DecimalIs(d);
    }
  }

  lemma ArcIs(t: AvnValue, arc: U32)
    ensures ArcMeans(t, arc) <==> t.Integer? && ParseU32(t.numeral) == Some(arc)
  {
    hide NatValue, DecimalValue;
    if t.Integer? {
      assert Decimals(t.numeral) <==> t.numeral != "" && AllDigits(t.numeral);
      if Decimals(t.numeral) {
        DecimalIs(t.numeral);
      }
    }
  }

  lemma {:induction false} ArcsAreRead(items: seq<AvnValue>, arcs: seq<U32>)
    ensures ArcsOf(items) == Some(arcs) <==> |arcs| == |items| && forall i :: 0 <= i < |items| ==> ArcMeans(items[i], arcs[i])
  {
    hide ParseU32, ArcMeans;
    if items != [] {
      if arcs != [] {
        ArcIs(items[0], arcs[0]);
        ArcsAreRead(items[1..], arcs[1..]);
        assert arcs == [arcs[0]] + arcs[1..];
        if |arcs| == |items| {
          assert forall i :: 1 <= i < |items| ==> items[1..][i - 1] == items[i] && arcs[1..][i - 1] == arcs[i];
        }
      }
    }
  }

  lemma OidIs(t: AvnValue, v: Value)
    ensures OidFrom(t) == Some(v) <==> v.OidValue? && ArcsMean(t, v.arcs) && v.arcs != [] && v.arcs[0] <= 2
  {
    hide ArcsOf, ArcMeans;
    if t.SequenceOf? {
      if v.OidValue? {
        ArcsAreRead(t.items, v.arcs);
      }
      if ArcsOf(t.items).Some? {
        ArcsAreRead(t.items, ArcsOf(t.items).value);
      }
    }
  }

  lemma BitsOfIs(bytes: Bytes, n: nat, bits: seq<bool>)
    requires n <= 8 * |bytes|
    ensures bits == BitsOf(bytes, n) <==> |bits| == n && forall i :: 0 <= i < |bits| ==> bits[i] == Bit(bytes, i)
  {
    hide Bit, BitAt;
    forall i | 0 <= i < n
      ensures BitsOf(bytes, n)[i] == Bit(bytes, i)
    {
      BitIs(bytes, i);
    }
  }

  lemma BitStringIs(t: AvnValue, v: Value)
    ensures BitStringFrom(t) == Some(v) <==> v.BitStringValue? && BitsMean(t, v.bits)
  {
    hide Bit, BitsOf;
    if v.BitStringValue? {
      match t
      case BitString(bytes, n) => BitsOfIs(bytes, Min(n, 8 * |bytes|), v.bits);
      case OctetString(bytes) => BitsOfIs(bytes, 8 * |bytes|, v.bits);
      case _ =>
    }
  }

  lemma TextIs(t: AvnValue, v: Value)
    ensures StringFrom(t) == Some(v) <==> v.StringValue? && TextMeans(t, v.chars)
  {
    if t.OctetString? && v.StringValue? {
      TextInOctets(t.octets, v.chars);
    }
  }

  lemma NameIs(a: string, b: string)
    ensures SameName(a, b) <==> SameIgnoringCase(a, b)
  {
    forall x: char, y: char
      ensures SameLetter(x, y) <==> Lower(x) == Lower(y)
    {
      LetterIs(x, y);
    }
  }

  lemma LetterIs(x: char, y: char)
    ensures SameLetter(x, y) <==> Lower(x) == Lower(y)
  {
  }

  // ----- Declaration order -----

  lemma {:induction false} ChosenPlaces<T>(xs: seq<T>, flags: seq<bool>, flag: bool, k: nat)
    requires |xs| == |flags| && k <= |xs|
    ensures var p := PlacesOf(flags, flag, k);
            && |Chosen(xs[k..], flags[k..], flag)| == |p|
            && forall i :: 0 <= i < |p| ==> p[i] < |xs| && Chosen(xs[k..], flags[k..], flag)[i] == xs[p[i]]
    decreases |xs| - k
  {
    if k < |xs| {
      ChosenPlaces(xs, flags, flag, k + 1);
      assert xs[k..][1..] == xs[k + 1..] && flags[k..][1..] == flags[k + 1..];
    }
  }

  /** The declaration order is a selection of places. */
  lemma RootFirstPlaces<T>(xs: seq<T>, flags: seq<bool>)
    requires |xs| == |flags|
    ensures var p := Places(flags);
            |p| == |xs| == |RootFirst(xs, flags)| && forall i :: 0 <= i < |p| ==> p[i] < |xs| && RootFirst(xs, flags)[i] == xs[p[i]]
  {
    ChosenPlaces(xs, flags, false, 0);
    ChosenPlaces(xs, flags, true, 0);
    RootFirstLength(xs, flags);
    assert xs[0..] == xs && flags[0..] == flags;
  }

  // ----- SEQUENCE -----

  lemma {:induction false} FieldMapIs(fields: seq<Entry>, name: string)
    ensures name !in FieldMap(fields) <==> NoField(fields, name)
    ensures name in FieldMap(fields) ==> exists k: nat :: FieldAt(fields, name, k) && fields[k].value == Some(FieldMap(fields)[name])
  {
    if fields != [] {
      var front := fields[..|fields| - 1];
      FieldMapIs(front, name);
      var last := fields[|fields| - 1];
      if last.name == name && last.value.Some? {
        assert FieldAt(fields, name, |fields| - 1);
      } else {
        assert NoField(fields, name) <==> NoField(front, name);
        if name in FieldMap(front) {
          var k: nat :| FieldAt(front, name, k) && front[k].value == Some(FieldMap(front)[name]);
          assert FieldAt(fields, name, k);
        }
      }
    }
  }

  lemma FieldOnce(fields: seq<Entry>, name: string, j: nat, k: nat)
    requires FieldAt(fields, name, j) && FieldAt(fields, name, k)
    ensures j == k && !NoField(fields, name)
  {
  }

  lemma FindsIs(t: AvnValue, m: map<string, AvnValue>, name: string, slot: Option<AvnValue>)
    requires FieldsOf(t) == Some(m)
    ensures Finds(t, name, slot) <==> slot == if name in m then Some(m[name]) else None
  {
    hide FieldMap, NoField;
    if t.Sequence? {
      FieldMapIs(t.fields, name);
      if name in m {
        var k: nat :| FieldAt(t.fields, name, k) && t.fields[k].value == Some(m[name]);
        forall j: nat | FieldAt(t.fields, name, j)
          ensures j == k && !NoField(t.fields, name)
        {
          FieldOnce(t.fields, name, j, k);
        }
      } else {
        forall j: nat | FieldAt(t.fields, name, j)
          ensures false
        {
          FieldOnce(t.fields, name, j, j);
        }
      }
    }
  }

  lemma {:induction false} SlotIs(c: Component, slot: Option<AvnValue>, field: Option<Value>)
    ensures FromSlot(c, slot) == Some(field) <==>
            if slot.Some? then field.Some? && Means(c.ty, slot.value, field.value)
            else
              match c.presence
              case Required => false
              case Optional => field == None
              case Default(d) => field == Some(d)
    decreases c, 0
  {
    hide FromTree, Means;
    if slot.Some? && field.Some? {
      MeansExactly(c.ty, slot.value, field.value);
    }
  }

  lemma {:induction false} SlotsAre(components: seq<Component>, slots: seq<Option<AvnValue>>, fields: seq<Option<Value>>)
    requires |slots| == |components|
    ensures FromSlots(components, slots) == Some(fields) <==>
            |fields| == |components| && forall i :: 0 <= i < |components| ==> FromSlot(components[i], slots[i]) == Some(fields[i])
  {
    hide FromSlot;
    if components != [] && fields != [] {
      SlotsAre(components[1..], slots[1..], fields[1..]);
      assert fields == [fields[0]] + fields[1..];
      if |fields| == |components| {
        assert forall i :: 1 <= i < |components| ==>
                 components[1..][i - 1] == components[i] && slots[1..][i - 1] == slots[i] && fields[1..][i - 1] == fields[i];
      }
    }
  }

  /** The slot of a component is what it finds. */
  lemma SlotFinds(components: seq<Component>, t: AvnValue, m: map<string, AvnValue>, i: nat, slot: Option<AvnValue>)
    requires FieldsOf(t) == Some(m) && i < |components|
    ensures var places := Places(Extensions(components));
            && |places| == |components| && (forall k :: 0 <= k < |places| ==> places[k] < |components|)
            && var name := components[places[i]].name;
               (if exists k :: i < k < |places| && components[places[k]].name == name then slot == None else Finds(t, name, slot))
               <==> slot == Slots(Labels(components), m)[i]
  {
    hide Places, RootFirst, Finds;
    var flags, names := Extensions(components), Names(components);
    RootFirstPlaces(names, flags);
    var places, labels := Places(flags), Labels(components);
    assert forall k :: 0 <= k < |places| ==> labels[k] == components[places[k]].name;
    var name := labels[i];
    FindsIs(t, m, name, slot);
    assert name in labels[i + 1..] <==> exists k :: i < k < |places| && components[places[k]].name == name by {
      if k :| i < k < |places| && components[places[k]].name == name {
        assert labels[i + 1..][k - i - 1] == name;
      }
      if name in labels[i + 1..] {
        var j :| 0 <= j < |labels[i + 1..]| && labels[i + 1..][j] == name;
        assert labels[i + 1 + j] == name;
      }
    }
  }

  lemma {:induction false} FieldIs(components: seq<Component>, t: AvnValue, m: map<string, AvnValue>, i: nat, field: Option<Value>)
    requires FieldsOf(t) == Some(m) && i < |components|
    ensures var places := Places(Extensions(components));
            && |places| == |components| && (forall k :: 0 <= k < |places| ==> places[k] < |components|)
            && (FieldMeans(components[i], components, places, i, t, field) <==>
                FromSlot(components[i], Slots(Labels(components), m)[i]) == Some(field))
    decreases components, 0
  {
    hide FromSlot, Places, Labels, Slots, Finds, Means;
    var slot := Slots(Labels(components), m)[i];
    SlotFinds(components, t, m, i, slot);
    SlotIs(components[i], slot, field);
    forall other: Option<AvnValue>
      ensures var places := Places(Extensions(components));
              && |places| == |components| && (forall k :: 0 <= k < |places| ==> places[k] < |components|)
              && var name := components[places[i]].name;
                 (if exists k :: i < k < |places| && components[places[k]].name == name then other == None else Finds(t, name, other))
                 <==> other == slot
    {
      SlotFinds(components, t, m, i, other);
    }
  }

  lemma {:induction false} SequenceIs(components: seq<Component>, t: AvnValue, v: Value)
    requires v.SequenceValue?
    ensures FromTree(SequenceType(components), t) == Some(v) <==> FieldsMean(components, t, v.fields)
    decreases components, 1
  {
    hide FromSlots, FromSlot, FieldMeans, Places, Slots, Labels, FieldMap;
    assert FieldsOf(t).Some? <==> t.Sequence? || t == SequenceOf([]);
    RootFirstPlaces(Names(components), Extensions(components));
    if FieldsOf(t).Some? {
      var m := FieldsOf(t).value;
      SlotsAre(components, Slots(Labels(components), m), v.fields);
      if |v.fields| == |components| {
        forall i | 0 <= i < |components|
          ensures var places := Places(Extensions(components));
                  FieldMeans(components[i], components, places, i, t, v.fields[i]) <==>
                  FromSlot(components[i], Slots(Labels(components), m)[i]) == Some(v.fields[i])
        {
          FieldIs(components, t, m, i, v.fields[i]);
        }
      }
    }
  }

  // ----- The other types -----

  lemma {:induction false} ItemsAreRead(element: Type, items: seq<AvnValue>, values: seq<Value>)
    ensures FromItems(element, items) == Some(values) <==>
            |values| == |items| && forall i :: 0 <= i < |items| ==> FromTree(element, items[i]) == Some(values[i])
    decreases |items|
  {
    hide FromTree;
    if items != [] && values != [] {
      ItemsAreRead(element, items[1..], values[1..]);
      assert values == [values[0]] + values[1..];
      if |values| == |items| {
        assert forall i :: 1 <= i < |items| ==> items[1..][i - 1] == items[i] && values[1..][i - 1] == values[i];
      }
    }
  }

  lemma {:induction false} SequenceOfIs(element: Type, t: AvnValue, v: Value)
    requires v.SequenceOfValue?
    ensures FromTree(SequenceOfType(element), t) == Some(v) <==> Means(SequenceOfType(element), t, v)
    decreases element, 3
  {
    hide FromItems;
    var items := ItemsOf(t);
    if items.Some? {
      ItemsAreRead(element, items.value, v.items);
      if |v.items| == |items.value| {
        forall i | 0 <= i < |items.value|
          ensures FromTree(element, items.value[i]) == Some(v.items[i]) <==> Means(element, items.value[i], v.items[i])
        {
          MeansExactly(element, items.value[i], v.items[i]);
        }
      }
    }
  }

  lemma FoundName(alternatives: seq<Alternative>, id: string, j: nat)
    requires j < |alternatives|
    ensures SameName(alternatives[j].name, id) && (forall i :: 0 <= i < j ==> !SameName(alternatives[i].name, id)) <==>
            j == FindName(alternatives, id)
  {
    hide SameName, SameIgnoringCase;
    forall i | 0 <= i < |alternatives|
      ensures SameName(alternatives[i].name, id) <==> SameIgnoringCase(alternatives[i].name, id)
    {
      NameIs(alternatives[i].name, id);
    }
  }

  lemma FoundTag(alternatives: seq<Alternative>, tag: Tag, k: nat)
    requires k < |alternatives|
    ensures alternatives[k].tag == tag && (forall i :: 0 <= i < k ==> alternatives[i].tag != tag) <==>
            k == IndexOf(AlternativeTags(alternatives), tag)
  {
    var tags := AlternativeTags(alternatives);
    assert forall i :: 0 <= i < |alternatives| ==> tags[i] == alternatives[i].tag;
  }

  /** The place of the name that is found. */
  lemma PlaceOfName(alternatives: seq<Alternative>, id: string)
    ensures var places := Places(seq(|alternatives|, i requires 0 <= i < |alternatives| => alternatives[i].extension));
            var i := FindName(alternatives, id);
            && |places| == |alternatives|
            && (i < |alternatives| ==> places[i] < |alternatives| && VariantTags(alternatives)[i] == alternatives[places[i]].tag)
  {
    hide Places, RootFirst, SameName, FindName, AlternativeTags;
    TagsAre(alternatives);
    RootFirstPlaces(AlternativeTags(alternatives), seq(|alternatives|, i requires 0 <= i < |alternatives| => alternatives[i].extension));
  }

  lemma SelectedIs(alternatives: seq<Alternative>, id: string, chosen: nat)
    ensures Selected(alternatives, id) == Some(chosen) <==> Selects(alternatives, id, chosen)
  {
    hide Places, SameName, FindName, IndexOf, AlternativeTags, VariantTags;
    PlaceOfName(alternatives, id);
    var places := Places(seq(|alternatives|, i requires 0 <= i < |alternatives| => alternatives[i].extension));
    var i := FindName(alternatives, id);
    if i < |alternatives| {
      FoundName(alternatives, id, i);
      if chosen < |alternatives| {
        FoundTag(alternatives, alternatives[places[i]].tag, chosen);
      }
    }
    TagsAre(alternatives);
    if Selects(alternatives, id, chosen) {
      var j := NameOf(alternatives, id, chosen);
      FoundName(alternatives, id, j);
    }
  }

  lemma NameOf(alternatives: seq<Alternative>, id: string, chosen: nat) returns (j: nat)
    requires Selects(alternatives, id, chosen)
    ensures var places := Places(seq(|alternatives|, i requires 0 <= i < |alternatives| => alternatives[i].extension));
            && j < |alternatives| && j < |places| && places[j] < |alternatives|
            && SameName(alternatives[j].name, id) && (forall i :: 0 <= i < j ==> !SameName(alternatives[i].name, id))
            && alternatives[places[j]].tag != Tag(0, 0)
            && alternatives[chosen].tag == alternatives[places[j]].tag
  {
    hide Places, SameName;
    var places := Places(seq(|alternatives|, i requires 0 <= i < |alternatives| => alternatives[i].extension));
    j :| j < |alternatives| && j < |places| && places[j] < |alternatives|
         && SameName(alternatives[j].name, id) && (forall i :: 0 <= i < j ==> !SameName(alternatives[i].name, id))
         && alternatives[places[j]].tag != Tag(0, 0)
         && alternatives[chosen].tag == alternatives[places[j]].tag;
  }

  lemma TagsAre(alternatives: seq<Alternative>)
    ensures |AlternativeTags(alternatives)| == |alternatives|
    ensures forall i :: 0 <= i < |alternatives| ==> AlternativeTags(alternatives)[i] == alternatives[i].tag
  {
  }

  lemma {:induction false} ChoiceIs(alternatives: seq<Alternative>, t: AvnValue, v: Value)
    requires t.Choice? && v.ChoiceValue?
    ensures FromTree(ChoiceType(alternatives), t) == Some(v) <==> ChosenMeans(alternatives, t.identifier, t.value, v)
    decreases alternatives, 1
  {
    hide Selected, Selects, Means;
    SelectedIs(alternatives, t.identifier, v.chosen);
    if v.chosen < |alternatives| {
      MeansExactly(alternatives[v.chosen].ty, t.value, v.inner);
    }
  }

  /**
   The decoder makes of a tree exactly what the rules do: for every type, tree and value, the value is decoded if and
   only if the rules say so.
   */
  lemma {:induction false} MeansExactly(ty: Type, t: AvnValue, v: Value)
    ensures FromTree(ty, t) == Some(v) <==> Means(ty, t, v)
    decreases ty, 2
  {
    hide ParseInt, NumeralMeans, OidFrom, ArcsMean, BitStringFrom, BitsMean, StringFrom, TextMeans, FieldsMean, FromSlots, FromItems,
      ChosenMeans, Selected;
    match ty
    case IntegerType(_) =>
      if t.Integer? && v.IntegerValue? {
        NumeralMeaning(t.numeral, v.i);
      }
    case BitStringType => BitStringIs(t, v);
    case OidType => OidIs(t, v);
    case StringType => TextIs(t, v);
    case EnumeratedType(names) =>
      if t.Enumerated? && v.EnumeratedValue? && FirstAt(names, v.index, t.id) {
        assert IndexOf(names, t.id) == v.index;
      }
    case SequenceType(components) =>
      if v.SequenceValue? {
        SequenceIs(components, t, v);
      }
    case SequenceOfType(element) =>
      if v.SequenceOfValue? {
        SequenceOfIs(element, t, v);
      }
    case ChoiceType(alternatives) =>
      if t.Choice? && v.ChoiceValue? {
        ChoiceIs(alternatives, t, v);
      }
    case _ =>
  }
}
