/**
 The AVN decoder: typed reading of a tree, as a recursive function and as the machine with one
 stack of values that the program runs. A `None` result is any of the decoder's errors.
 */
module AvnDecoder {
  import opened Common
  import opened Bits
  import opened Numerals
  import opened AvnTree
  import opened AvnParser
  import opened AvnParserLoops
  import opened AvnSchema
  import AvnEncoder
  import Utf8

  // ----- Reading a tree -----

  /** A later entry with the same name replaces an earlier one; absent entries are skipped. */
  function FieldMap(fields: seq<Entry>): map<string, AvnValue> {
    if fields == [] then map[]
    else
      var last := fields[|fields| - 1];
      var m := FieldMap(fields[..|fields| - 1]);
      if last.value.Some? then m[last.name := last.value.value] else m
  }

  /** The fields of a SEQUENCE; an empty brace is a SEQUENCE without fields. */
  function FieldsOf(t: AvnValue): Option<map<string, AvnValue>> {
    match t
    case Sequence(fields) => Some(FieldMap(fields))
    case SequenceOf(items) => if items == [] then Some(map[]) else None
    case _ => None
  }

  /** The value each label removes from the map, when labels are removed from the last to the first. */
  function Slots(labels: seq<string>, m: map<string, AvnValue>): (slots: seq<Option<AvnValue>>)
    ensures |slots| == |labels|
  {
    seq(|labels|, i requires 0 <= i < |labels| =>
        if labels[i] in m && labels[i] !in labels[i + 1..] then Some(m[labels[i]]) else None)
  }

  function ArcsOf(items: seq<AvnValue>): Option<seq<U32>> {
    if items == [] then Some([])
    else if !items[0].Integer? then None
    else
      var arc := ParseU32(items[0].numeral);
      var rest := ArcsOf(items[1..]);
      if arc.None? || rest.None? then None else Some([arc.value] + rest.value)
  }

  function OidFrom(t: AvnValue): Option<Value> {
    var arcs := if t.Oid? then Some(t.arcs) else if t.SequenceOf? then ArcsOf(t.items) else None;
    if arcs.Some? && ValidArcs(arcs.value) then Some(OidValue(arcs.value)) else None
  }

  function BitStringFrom(t: AvnValue): Option<Value> {
    match t
    case BitString(bytes, n) => Some(BitStringValue(BitsOf(bytes, Min(n, 8 * |bytes|))))
    case OctetString(bytes) => Some(BitStringValue(BitsOf(bytes, 8 * |bytes|)))
    case _ => None
  }

  function IntegerFrom(t: AvnValue, range: Option<(int, int)>): Option<Value> {
    if !t.Integer? then None
    else
      var i := ParseInt(t.numeral);
      if i.Some? && InRange(i.value, range) then Some(IntegerValue(i.value)) else None
  }

  function EnumeratedFrom(t: AvnValue, names: seq<string>): Option<Value> {
    if !t.Enumerated? then None
    else
      var i := IndexOf(names, t.id);
      if i < |names| then Some(EnumeratedValue(i)) else None
  }

  /** Text, or octets that are text in UTF-8. */
  function StringFrom(t: AvnValue): Option<Value> {
    match t
    case CharString(chars) => Some(StringValue(chars))
    case OctetString(octets) =>
      var s := Utf8.Decode(octets);
      if s.Some? then Some(StringValue(s.value)) else None
    case _ => None
  }

  /** Octets are read as a text exactly if they are its encoding. */
  lemma TextInOctets(octets: Bytes, s: string)
    ensures FromTree(StringType, OctetString(octets)) == Some(StringValue(s)) <==> octets == Utf8.Encode(s)
  {
    if Utf8.Decode(octets).Some? {
      Utf8.Canonical(octets);
    }
    Utf8.RoundTrip(s);
  }

  /** The first alternative whose name matches, ignoring case. */
  function FindName(alternatives: seq<Alternative>, id: string): (i: nat)
    ensures i <= |alternatives|
    ensures i < |alternatives| ==> SameIgnoringCase(alternatives[i].name, id)
    ensures forall j :: 0 <= j < i ==> !SameIgnoringCase(alternatives[j].name, id)
  {
    if alternatives == [] || SameIgnoringCase(alternatives[0].name, id) then 0
    else 1 + FindName(alternatives[1..], id)
  }

  /** The alternative an identifier selects: by name to a tag, and by tag to an alternative. */
  function Selected(alternatives: seq<Alternative>, id: string): (k: Option<nat>)
    ensures k.Some? ==> k.value < |alternatives|
  {
    var i := FindName(alternatives, id);
    if i == |alternatives| || VariantTags(alternatives)[i] == EOC then None
    else
      var k := IndexOf(AlternativeTags(alternatives), VariantTags(alternatives)[i]);
      if k < |alternatives| then Some(k) else None
  }

  function FromTree(ty: Type, t: AvnValue): Option<Value>
    decreases ty, 0, 0
  {
    match ty
    case BooleanType => if t.Boolean? then Some(BooleanValue(t.b)) else None
    case IntegerType(range) => IntegerFrom(t, range)
    case OctetStringType => if t.OctetString? then Some(OctetStringValue(t.octets)) else None
    case BitStringType => BitStringFrom(t)
    case NullType => if t.Null? then Some(NullValue) else None
    case OidType => OidFrom(t)
    case EnumeratedType(names) => EnumeratedFrom(t, names)
    case StringType => StringFrom(t)
    case SequenceType(components) =>
      var m := FieldsOf(t);
      if m.None? then None
      else
        var fields := FromSlots(components, Slots(Labels(components), m.value));
        if fields.Some? then Some(SequenceValue(fields.value)) else None
    case SequenceOfType(element) =>
      var items := ItemsOf(t);
      if items.None? then None
      else
        var values := FromItems(element, items.value);
        if values.Some? then Some(SequenceOfValue(values.value)) else None
    case ChoiceType(alternatives) =>
      if !t.Choice? then None
      else
        var k := Selected(alternatives, t.identifier);
        if k.None? then None
        else
          var inner := FromTree(alternatives[k.value].ty, t.value);
          if inner.Some? then Some(ChoiceValue(k.value, inner.value)) else None
  }

  function ItemsOf(t: AvnValue): Option<seq<AvnValue>> {
    match t
    case SequenceOf(items) => Some(items)
    case Sequence(fields) => if fields == [] then Some([]) else None
    case _ => None
  }

  function FromItems(element: Type, items: seq<AvnValue>): Option<seq<Value>>
    decreases element, 1, |items|
  {
    if items == [] then Some([])
    else
      var first := FromTree(element, items[0]);
      var rest := if first.Some? then FromItems(element, items[1..]) else None;
      if rest.None? then None else Some([first.value] + rest.value)
  }

  /** The value of a component from its slot: `Some(None)` is an absent OPTIONAL component. */
  function FromSlot(c: Component, slot: Option<AvnValue>): Option<Option<Value>>
    decreases c.ty, 1, 0
  {
    match slot
    case Some(t) =>
      var v := FromTree(c.ty, t);
      if v.Some? then Some(v) else None
    case None =>
      match c.presence
      case Required => None
      case Optional => Some(None)
      case Default(d) => Some(Some(d))
  }

  function FromSlots(components: seq<Component>, slots: seq<Option<AvnValue>>): (r: Option<seq<Option<Value>>>)
    requires |slots| == |components|
    ensures r.Some? ==> |r.value| == |components|
    decreases components, 0, 0
  {
    if components == [] then Some([])
    else
      var first := FromSlot(components[0], slots[0]);
      var rest := if first.Some? then FromSlots(components[1..], slots[1..]) else None;
      if rest.None? then None else Some([first.value] + rest.value)
  }

  /** Decoding a text. */
  function FromText(ty: Type, text: string): Option<Value> {
    match ParseText(text)
    case Ok(t, _) => FromTree(ty, t)
    case Err(_) => None
  }

  // ----- The stack machine -----

  lemma {:induction false} FromSlotsStep(components: seq<Component>, slots: seq<Option<AvnValue>>, k: nat,
                                         done: seq<Option<Value>>)
    requires |slots| == |components| && k < |components|
    requires FromSlots(components, slots) == Continued(done, FromSlots(components[k..], slots[k..]))
    ensures var first := FromSlot(components[k], slots[k]);
            FromSlots(components, slots) ==
            if first.None? then None
            else Continued(done + [first.value], FromSlots(components[k + 1..], slots[k + 1..]))
  {
    assert components[k..][1..] == components[k + 1..] && slots[k..][1..] == slots[k + 1..];
    var first := FromSlot(components[k], slots[k]);
    var rest := FromSlots(components[k + 1..], slots[k + 1..]);
    if first.Some? && rest.Some? {
      assert done + ([first.value] + rest.value) == done + [first.value] + rest.value;
    }
  }

  lemma {:induction false} FromItemsStep(element: Type, items: seq<AvnValue>, k: nat, done: seq<Value>)
    requires k < |items|
    requires FromItems(element, items) == Continued(done, FromItems(element, items[k..]))
    ensures var first := FromTree(element, items[k]);
            FromItems(element, items) ==
            if first.None? then None else Continued(done + [first.value], FromItems(element, items[k + 1..]))
  {
    assert items[k..][1..] == items[k + 1..];
    var first := FromTree(element, items[k]);
    var rest := FromItems(element, items[k + 1..]);
    if first.Some? && rest.Some? {
      assert done + ([first.value] + rest.value) == done + [first.value] + rest.value;
    }
  }

  function Continued<T>(done: seq<T>, rest: Option<seq<T>>): Option<seq<T>> {
    if rest.None? then None else Some(done + rest.value)
  }

  lemma ContinuedNil<T>(rest: Option<seq<T>>)
    ensures Continued([], rest) == rest
  {
    if rest.Some? {
      assert [] + rest.value == rest.value;
    }
  }

  class Decoder {
    var stack: seq<Option<AvnValue>>

    constructor (root: AvnValue)
      ensures stack == [Some(root)]
    {
      stack := [Some(root)];
    }

    /** The value on top, unless the stack is empty or the top is an absent field. */
    method Pop() returns (r: Option<AvnValue>)
      modifies this
      ensures if old(stack) == [] then r == None && stack == []
              else r == old(stack)[|old(stack)| - 1] && stack == old(stack)[..|old(stack)| - 1]
    {
      if stack == [] {
        return None;
      }
      r := stack[|stack| - 1];
      stack := stack[..|stack| - 1];
    }

    /** One slot for each label, pushed in reverse; a label is removed from the map as it is read. */
    method PushSlots(labels: seq<string>, fields: map<string, AvnValue>)
      modifies this
      ensures stack == old(stack) + AvnEncoder.Reverse(Slots(labels, fields))
    {
      var fieldMap := fields;
      ghost var slots := Slots(labels, fields);
      var k := |labels|;
      while k > 0
        invariant 0 <= k <= |labels|
        invariant fieldMap == map name | name in fields && name !in labels[k..] :: fields[name]
        invariant stack == old(stack) + AvnEncoder.Reverse(slots[k..])
      {
        k := k - 1;
        var name := labels[k];
        AvnEncoder.ReverseSnoc(slots[k..]);
        assert slots[k..][1..] == slots[k + 1..];
        assert labels[k..] == [name] + labels[k + 1..];
        stack := stack + [if name in fieldMap then Some(fieldMap[name]) else None];
        fieldMap := map other | other in fieldMap && other != name :: fieldMap[other];
      }
      assert slots[0..] == slots;
    }

    /** Decoding pops exactly the top of the stack and reads it as `FromTree` does. */
    method Decode(ty: Type) returns (r: Option<Value>)
      modifies this
      ensures old(stack) == [] ==> r == None
      ensures old(stack) != [] ==>
                var top := old(stack)[|old(stack)| - 1];
                && r == (if top.Some? then FromTree(ty, top.value) else None)
                && (r.Some? ==> stack == old(stack)[..|old(stack)| - 1])
      decreases ty, 1, 0
    {
      var top := Pop();
      if top.None? {
        return None;
      }
      match ty
      case SequenceType(components) =>
        var m := FieldsOf(top.value);
        if m.None? {
          return None;
        }
        var fields := DecodeFields(components, m.value);
        return if fields.Some? then Some(SequenceValue(fields.value)) else None;
      case SequenceOfType(element) =>
        var items := ItemsOf(top.value);
        if items.None? {
          return None;
        }
        var values := DecodeItems(element, items.value);
        return if values.Some? then Some(SequenceOfValue(values.value)) else None;
      case ChoiceType(alternatives) =>
        if !top.value.Choice? {
          return None;
        }
        var k := Selected(alternatives, top.value.identifier);
        if k.None? {
          return None;
        }
        ghost var below := stack;
        stack := stack + [Some(top.value.value)];
        var inner := Decode(alternatives[k.value].ty);
        return if inner.Some? then Some(ChoiceValue(k.value, inner.value)) else None;
      case _ =>
        return FromTree(ty, top.value);
    }

    /** An absent field is taken off; a present one is put back and decoded. */
    method DecodeComponent(c: Component) returns (r: Option<Option<Value>>)
      requires stack != []
      modifies this
      ensures r == FromSlot(c, old(stack)[|old(stack)| - 1])
      ensures r.Some? ==> stack == old(stack)[..|old(stack)| - 1]
      decreases c.ty, 2, 0
    {
      var top := Pop();
      if top.Some? {
        stack := stack + [top];
        var v := Decode(c.ty);
        return if v.Some? then Some(v) else None;
      }
      match c.presence
      case Required => return None;
      case Optional => return Some(None);
      case Default(d) => return Some(Some(d));
    }

    method DecodeFields(components: seq<Component>, m: map<string, AvnValue>) returns (r: Option<seq<Option<Value>>>)
      modifies this
      ensures r == FromSlots(components, Slots(Labels(components), m))
      ensures r.Some? ==> stack == old(stack)
      decreases components, 0, 0
    {
      ghost var slots := Slots(Labels(components), m);
      PushSlots(Labels(components), m);
      var values: seq<Option<Value>> := [];
      var k := 0;
      assert slots[0..] == slots && components[0..] == components;
      ContinuedNil(FromSlots(components, slots));
      while k < |components|
        invariant 0 <= k <= |components|
        invariant stack == old(stack) + AvnEncoder.Reverse(slots[k..])
        invariant FromSlots(components, slots) == Continued(values, FromSlots(components[k..], slots[k..]))
      {
        FromSlotsStep(components, slots, k, values);
        AvnEncoder.ReverseSnoc(slots[k..]);
        assert slots[k..][1..] == slots[k + 1..];
        var v := DecodeComponent(components[k]);
        if v.None? {
          return None;
        }
        assert stack == old(stack) + AvnEncoder.Reverse(slots[k + 1..]);
        values := values + [v.value];
        k := k + 1;
      }
      assert stack == old(stack);
      assert values + [] == values;
      return Some(values);
    }

    method DecodeItems(element: Type, items: seq<AvnValue>) returns (r: Option<seq<Value>>)
      modifies this
      ensures r == FromItems(element, items)
      ensures r.Some? ==> stack == old(stack)
      decreases element, 2, 0
    {
      var values: seq<Value> := [];
      var k := 0;
      assert items[0..] == items;
      ContinuedNil(FromItems(element, items));
      while k < |items|
        invariant 0 <= k <= |items|
        invariant stack == old(stack)
        invariant FromItems(element, items) == Continued(values, FromItems(element, items[k..]))
      {
        FromItemsStep(element, items, k, values);
        stack := stack + [Some(items[k])];
        var v := Decode(element);
        if v.None? {
          return None;
        }
        assert stack == old(stack);
        values := values + [v.value];
        k := k + 1;
      }
      assert values + [] == values;
      return Some(values);
    }
  }

  /** Parse a text and run the machine on its tree. */
  method DecodeText(ty: Type, text: string) returns (r: Option<Value>)
    ensures r == FromText(ty, text)
  {
    var root := ParseDocument(text);
    if root.Err? {
      return None;
    }
    var decoder := new Decoder(root.value);
    r := decoder.Decode(ty);
  }
}
