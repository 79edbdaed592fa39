/**
 The AVN encoder: a machine with a stack of pending field names and a stack of open frames.
 Encoding any value refines the direct translation `Tree`.
 */
module AvnEncoder {
  import opened Common
  import opened Bits
  import opened Numerals
  import opened AvnTree
  import opened AvnSchema

  datatype State = State(names: seq<string>, frames: seq<seq<Entry>>, root: Option<AvnValue>)

  /** A pending name always has a frame to be deposited in. */
  predicate Ready(s: State) {
    s.names != [] ==> s.frames != []
  }

  /** One entry goes to the top frame under the last pending name. */
  function Deposit(s: State, value: Option<AvnValue>): State
    requires Ready(s) && s.names != []
  {
    var n := |s.names| - 1;
    var f := |s.frames| - 1;
    State(s.names[..n], s.frames[f := s.frames[f] + [Entry(s.names[n], value)]], s.root)
  }

  /** A finished value: the root of an outermost encoding, otherwise one deposit. */
  function Finish(s: State, value: AvnValue): State
    requires Ready(s)
  {
    if s.names == [] then s.(root := Some(value)) else Deposit(s, Some(value))
  }

  function Reverse<T>(s: seq<T>): (r: seq<T>)
    ensures |r| == |s|
  {
    seq(|s|, i requires 0 <= i < |s| => s[|s| - 1 - i])
  }

  lemma ReverseSnoc<T>(s: seq<T>)
    requires s != []
    ensures Reverse(s) == Reverse(s[1..]) + [s[0]]
  {
  }

  class Encoder {
    var stack: seq<string>
    var constructedStack: seq<seq<Entry>>
    var rootValue: Option<AvnValue>

    ghost function Current(): State
      reads this
    {
      State(stack, constructedStack, rootValue)
    }

    constructor ()
      ensures Current() == State([], [], None)
    {
      stack, constructedStack, rootValue := [], [], None;
    }

    /** False is the internal stack mismatch. */
    method UpdateRootOrConstructed(value: AvnValue) returns (ok: bool)
      modifies this
      ensures ok <==> Ready(old(Current()))
      ensures ok ==> Current() == Finish(old(Current()), value)
    {
      if stack == [] {
        rootValue := Some(value);
        return true;
      }
      var id := stack[|stack| - 1];
      stack := stack[..|stack| - 1];
      if constructedStack == [] {
        return false;
      }
      PushEntry(Entry(id, Some(value)));
      return true;
    }

    method PushEntry(entry: Entry)
      requires constructedStack != []
      modifies this`constructedStack
      ensures var f := |old(constructedStack)| - 1;
              constructedStack == old(constructedStack)[f := old(constructedStack)[f] + [entry]]
    {
      var f := |constructedStack| - 1;
      constructedStack := constructedStack[f := constructedStack[f] + [entry]];
    }

    /** An absent component: its name is consumed and recorded without a value. */
    method EncodeNone()
      modifies this
      ensures old(stack) == [] ==> Current() == old(Current())
      ensures Ready(old(Current())) && old(stack) != [] ==> Current() == Deposit(old(Current()), None)
      ensures !Ready(old(Current())) ==> Current() == old(Current()).(names := old(stack)[..|old(stack)| - 1])
    {
      if stack != [] {
        var id := stack[|stack| - 1];
        stack := stack[..|stack| - 1];
        if constructedStack != [] {
          PushEntry(Entry(id, None));
        }
      }
    }

    /** Names go on in reverse, so that they come off in declaration order. */
    method PushNames(labels: seq<string>)
      modifies this`stack
      ensures stack == old(stack) + Reverse(labels)
    {
      var k := |labels|;
      while k > 0
        invariant 0 <= k <= |labels|
        invariant stack == old(stack) + Reverse(labels[k..])
      {
        k := k - 1;
        ReverseSnoc(labels[k..]);
        assert labels[k..][1..] == labels[k + 1..];
        stack := stack + [labels[k]];
      }
      assert labels[0..] == labels;
    }

    method EncodeField(ty: Type, v: Value, k: nat)
      requires ty.SequenceType? && HasType(v, ty) && k < |ty.components|
      requires Ready(Current()) && stack != []
      modifies this
      ensures Current() == Deposit(old(Current()), TreeField(ty, v, k).value)
      ensures TreeField(ty, v, k).name == Labels(ty.components)[k]
      decreases ty, 0
    {
      var c := ty.components[k];
      if Omitted(c, v.fields[k]) {
        EncodeNone();
      } else {
        var done := Encode(c.ty, v.fields[k].value);
      }
    }

    /** Every component in turn consumes its label and adds its entry to the open frame. */
    method EncodeFields(ty: Type, v: Value, ghost names: seq<string>, ghost frames: seq<seq<Entry>>)
      requires ty.SequenceType? && HasType(v, ty)
      requires Current() == State(names + Reverse(Labels(ty.components)), frames + [[]], rootValue)
      modifies this
      ensures Current() == State(names, frames + [TreeFields(ty, v, 0)], old(rootValue))
      decreases ty, 1
    {
      hide TreeField, TreeFields, HasType, Labels, Reverse;
      ghost var labels := Labels(ty.components);
      ghost var entries := TreeFields(ty, v, 0);
      var k := 0;
      assert labels[0..] == labels;
      while k < |ty.components|
        invariant 0 <= k <= |ty.components|
        invariant stack == names + Reverse(labels[k..])
        invariant constructedStack == frames + [entries[..k]]
        invariant rootValue == old(rootValue)
      {
        ReverseSnoc(labels[k..]);
        FieldsPrefix(ty, v, k);
        assert stack == names + Reverse(labels[k + 1..]) + [labels[k]];
        EncodeField(ty, v, k);
        assert stack == names + Reverse(labels[k + 1..]);
        k := k + 1;
      }
      assert stack == names && entries[..k] == entries;
    }

    method EncodeSequence(ty: Type, v: Value) returns (ok: bool)
      requires ty.SequenceType? && HasType(v, ty)
      requires Ready(Current())
      modifies this
      ensures ok && Current() == Finish(old(Current()), Tree(ty, v))
      decreases ty, 2
    {
      PushNames(Labels(ty.components));
      constructedStack := constructedStack + [[]];
      EncodeFields(ty, v, old(stack), old(constructedStack));
      var top := |constructedStack| - 1;
      var fields := constructedStack[top];
      constructedStack := constructedStack[..top];
      assert Current() == old(Current());
      ok := UpdateRootOrConstructed(Sequence(fields));
    }

    method EncodeSequenceOf(ty: Type, v: Value) returns (ok: bool)
      requires ty.SequenceOfType? && HasType(v, ty)
      requires Ready(Current())
      modifies this
      ensures ok && Current() == Finish(old(Current()), Tree(ty, v))
      decreases ty, 0
    {
      var items: seq<AvnValue> := [];
      ghost var tree := Tree(ty, v);
      var i := 0;
      while i < |v.items|
        invariant 0 <= i <= |v.items|
        invariant items == tree.items[..i]
        invariant Current() == old(Current())
      {
        var itemEncoder := new Encoder();
        var done := itemEncoder.Encode(ty.element, v.items[i]);
        items := items + [itemEncoder.rootValue.value];
        i := i + 1;
      }
      assert tree == SequenceOf(items);
      ok := UpdateRootOrConstructed(SequenceOf(items));
    }

    /** The inner value is deposited in a frame of its own and taken out of it again. */
    method EncodeChoice(ty: Type, v: Value) returns (ok: bool)
      requires ty.ChoiceType? && HasType(v, ty)
      requires Ready(Current())
      modifies this
      ensures ok && Current() == Finish(old(Current()), Tree(ty, v))
      decreases ty, 0
    {
      var alternatives := ty.alternatives;
      var tag := alternatives[v.chosen].tag;
      var i := IndexOf(VariantTags(alternatives), tag);
      TagFound(alternatives, v.chosen);
      var identifier := alternatives[i].name;
      constructedStack := constructedStack + [[]];
      stack := stack + [identifier];
      var done := Encode(alternatives[v.chosen].ty, v.inner);
      var top := |constructedStack| - 1;
      var fields := constructedStack[top];
      constructedStack := constructedStack[..top];
      assert constructedStack == old(constructedStack);
      var inner := if fields != [] && fields[0].value.Some? then fields[0].value.value else Null;
      ok := UpdateRootOrConstructed(Choice(identifier, inner));
    }

    /**
     Encoding a value consumes exactly one pending name, or sets the root when none is pending;
     both stacks are otherwise as before, and what was deposited is the tree of the value.
     */
    method Encode(ty: Type, v: Value) returns (ok: bool)
      requires HasType(v, ty)
      requires Ready(Current())
      modifies this
      ensures ok && Current() == Finish(old(Current()), Tree(ty, v))
      decreases ty, 3
    {
      match ty
      case BooleanType => ok := UpdateRootOrConstructed(Boolean(v.b));
      case IntegerType(_) => ok := UpdateRootOrConstructed(Integer(IntText(v.i)));
      case OctetStringType => ok := UpdateRootOrConstructed(OctetString(v.octets));
      case BitStringType => ok := UpdateRootOrConstructed(BitString(PackBits(v.bits), |v.bits|));
      case NullType => ok := UpdateRootOrConstructed(Null);
      case OidType => ok := UpdateRootOrConstructed(Oid(v.arcs));
      case EnumeratedType(names) => ok := UpdateRootOrConstructed(Enumerated(names[v.index]));
      case StringType => ok := UpdateRootOrConstructed(CharString(v.chars));
      case SequenceType(_) => ok := EncodeSequence(ty, v);
      case SequenceOfType(_) => ok := EncodeSequenceOf(ty, v);
      case ChoiceType(_) => ok := EncodeChoice(ty, v);
    }
  }

  /** The tag of an alternative is among the variants, so its identifier is found. */
  lemma TagFound(alternatives: seq<Alternative>, chosen: nat)
    requires chosen < |alternatives|
    ensures IndexOf(VariantTags(alternatives), alternatives[chosen].tag) < |alternatives|
  {
    var flags := seq(|alternatives|, i requires 0 <= i < |alternatives| => alternatives[i].extension);
    RootFirstMember(AlternativeTags(alternatives), flags, chosen);
    assert AlternativeTags(alternatives)[chosen] == alternatives[chosen].tag;
  }

  lemma {:induction false} FieldsIndex(ty: Type, v: Value, from: nat, k: nat)
    requires ty.SequenceType? && HasType(v, ty) && from <= k < |ty.components|
    ensures TreeFields(ty, v, from)[k - from] == TreeField(ty, v, k)
    decreases k - from
  {
    if from < k {
      FieldsIndex(ty, v, from + 1, k);
    }
  }

  lemma FieldsPrefix(ty: Type, v: Value, k: nat)
    requires ty.SequenceType? && HasType(v, ty) && k < |ty.components|
    ensures TreeFields(ty, v, 0)[..k + 1] == TreeFields(ty, v, 0)[..k] + [TreeField(ty, v, k)]
  {
    FieldsIndex(ty, v, 0, k);
  }
}
