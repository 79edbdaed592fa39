/**
 What the OER and COER decoders read, as rules (X.696) stated without the decoder: each rule says of octets
 `s` that a value can be read from their front and that `t` is left. The decoder reads a value exactly if the
 rules do.
 */
module OerReading {
  import opened Common
  import opened Bits
  import opened BigEndian
  import opened Positional
  import opened Decoding
  import opened OerTypes
  import opened OerEncode
  import opened OerDecode

  // ----- Lengths, open types and tags -----

  /** `l` is a length determinant for `n`: one octet below 128, or up to eight octets behind their count. */
  predicate IsLength(l: Bytes, n: nat, coer: bool) {
    || (n < 128 && l == [n])
    || (2 <= |l| <= 9 && l[0] == 127 + |l| && n == Big(l[1..]) && (coer ==> l[1] != 0 && n >= 128))
  }

  /** A length determinant, that many octets `c`, and then `t`. */
  ghost predicate Framed(s: Bytes, c: Bytes, t: Bytes, coer: bool) {
    exists l: Bytes :: IsLength(l, |c|, coer) && s == l + (c + t)
  }

  /** Groups in octets from 128 on, and a last one below; the first group of all is not zero. */
  predicate IsGroups(g: Bytes) {
    && g != [] && g[0] % 128 != 0 && g[|g| - 1] < 128
    && forall i :: 0 <= i < |g| - 1 ==> g[i] >= 128
  }

  /** A tag number below 63 is in the first octet with the class; otherwise it follows, and only 32 bits of it count. */
  ghost predicate TagRead(s: Bytes, tag: Tag, t: Bytes) {
    && s != [] && tag.cls == s[0] / 64
    && if s[0] % 64 < 63 then tag.value == s[0] % 64 && t == s[1..]
       else exists g: Bytes :: IsGroups(g) && s[1..] == g + t && tag.value == Septal(g) % 0x1_0000_0000
  }

  // ----- Primitive values -----

  /** The width of an INTEGER with both bounds: the least of 1, 2, 4 and 8 octets for their magnitudes. */
  function FixedWidth(start: int, end: int): Option<nat> {
    var m := Max(if start < 0 then -start else start, if end < 0 then -end else end);
    if m < 0x100 then Some(1)
    else if m < 0x1_0000 then Some(2)
    else if m < 0x1_0000_0000 then Some(4)
    else if m < 0x1_0000_0000_0000_0000 then Some(8)
    else None
  }

  predicate IntegerOctets(c: Bytes, i: int, signed: bool, short: bool) {
    c != [] && i == (if signed then Two(c) else Big(c)) && (short ==> c[0] != 0)
  }

  ghost predicate IntegerRead(s: Bytes, i: int, t: Bytes, bounds: Option<Bounds>, extensible: bool, coer: bool) {
    var start := if bounds.Some? then bounds.value.start else None;
    var end := if bounds.Some? then bounds.value.end else None;
    var signed := extensible || start.None? || start.value < 0;
    var width := if !extensible && start.Some? && end.Some? then FixedWidth(start.value, end.value) else None;
    && (start.Some? ==> start.value <= i) && (end.Some? ==> i <= end.value)
    && (bounds.Some? ==> -0x8000_0000_0000_0000_0000_0000_0000_0000 <= i < 0x8000_0000_0000_0000_0000_0000_0000_0000)
    && if width.Some? then width.value <= |s| && t == s[width.value..] && IntegerOctets(s[..width.value], i, signed, false)
       else exists c: Bytes :: Framed(s, c, t, coer) && IntegerOctets(c, i, signed, coer && !signed)
  }

  ghost predicate OctetsRead(s: Bytes, octets: Bytes, t: Bytes, size: Size, coer: bool) {
    if size.Fixed? then |octets| == size.n && s == octets + t else Framed(s, octets, t, coer)
  }

  /** `bits` are the first bits of `c`. */
  predicate FirstBits(bits: seq<bool>, c: Bytes) {
    |bits| <= 8 * |c| && forall i :: 0 <= i < |bits| ==> bits[i] == Bit(c, i)
  }

  /** Octets with a count of unused bits before them, or nothing at all. */
  predicate CountedBits(bits: seq<bool>, c: Bytes) {
    if c == [] then bits == []
    else
      && c[0] <= 7 && |bits| == 8 * (|c| - 1) - c[0] && FirstBits(bits, c[1..])
      && 8 * (|c| - 1) < 0x1_0000_0000_0000_0000
  }

  ghost predicate BitsRead(s: Bytes, bits: seq<bool>, t: Bytes, size: Size, coer: bool) {
    if size.Fixed? then
      var k := (size.n + 7) / 8;
      |bits| == size.n && k <= |s| && FirstBits(bits, s[..k]) && t == s[k..]
    else exists c: Bytes :: Framed(s, c, t, coer) && CountedBits(bits, c)
  }

  /** A discriminant below 128 in one octet, or in up to eight behind their count. */
  predicate DiscriminantRead(s: Bytes, d: int, t: Bytes, coer: bool) {
    && s != []
    && if s[0] < 128 then d == s[0] && t == s[1..]
       else
         var k := s[0] - 128;
         && 1 <= k <= 8 && k < |s| && d == Two(s[1..][..k]) && t == s[1..][k..]
         && (coer ==> !(0 <= d < 128))
  }

  ghost predicate IsFirst<T(!new)>(xs: seq<T>, i: nat, x: T) {
    i < |xs| && xs[i] == x && forall j :: 0 <= j < i ==> xs[j] != x
  }

  // ----- Constructed values -----

  /** The number of OPTIONAL and DEFAULT components. */
  function Optionals(components: seq<Component>): nat {
    if components == [] then 0 else (if components[0].presence.Required? then 0 else 1) + Optionals(components[1..])
  }

  ghost predicate NoneRequired(components: seq<Component>) {
    forall i :: 0 <= i < |components| ==> !components[i].presence.Required?
  }

  /** The value of a component that is absent. */
  predicate IsAbsent(c: Component, field: Option<Value>) {
    field == if c.presence.Default? then Some(c.presence.value) else None
  }

  ghost predicate AllAbsent(components: seq<Component>, fields: seq<Option<Value>>) {
    |fields| == |components| && forall i :: 0 <= i < |components| ==> IsAbsent(components[i], fields[i])
  }

  /** Only a CHOICE without a tag of its own and without an alternative tagged UNIVERSAL 0 is not told by its tag. */
  ghost predicate ToldByTag(c: Component) {
    c.tag.Some? || !c.ty.ChoiceType? ||
    exists i :: 0 <= i < |c.ty.alternatives| && c.ty.alternatives[i].tag == Tag(0, 0)
  }

  ghost predicate Reads(ty: Type, s: Bytes, v: Value, t: Bytes, coer: bool, depth: nat)
    decreases ty, 1, 0
  {
    match ty
    case BooleanType =>
      s != [] && t == s[1..] && v == BooleanValue(s[0] != 0) && (coer ==> s[0] == 0 || s[0] == 255)
    case NullType => v == NullValue && t == s
    case IntegerType(bounds, extensible) => v.IntegerValue? && IntegerRead(s, v.i, t, bounds, extensible, coer)
    case OctetStringType(size) => v.OctetStringValue? && OctetsRead(s, v.octets, t, size, coer)
    case BitStringType(size) => v.BitStringValue? && BitsRead(s, v.bits, t, size, coer)
    case EnumeratedType(discriminants) =>
      v.EnumeratedValue? && exists d :: IsFirst(discriminants, v.index, d) && DiscriminantRead(s, d, t, coer)
    case SequenceType(_, _, _) => v.SequenceValue? && depth > 0 && SequenceRead(ty, s, v, t, coer, depth - 1)
    case SequenceOfType(element) =>
      && v.SequenceOfValue? && depth > 0
      && exists q: Bytes, u: Bytes ::
           && Framed(s, q, u, coer)
           && 1 <= |q| <= 8 && Big(q) == |v.items| && (coer && |q| > 1 ==> q[0] != 0)
           && ItemsRead(element, u, v.items, t, coer, depth - 1)
    case ChoiceType(alternatives) =>
      && v.ChoiceValue? && depth > 0 && v.chosen < |alternatives|
      && (forall j :: 0 <= j < v.chosen ==> alternatives[j].tag != alternatives[v.chosen].tag)
      && exists u: Bytes ::
           TagRead(s, alternatives[v.chosen].tag, u) && AlternativeRead(alternatives[v.chosen], u, v.inner, t, coer, depth - 1)
  }

  /** An alternative beyond the extension marker is an open type. */
  ghost predicate AlternativeRead(a: Alternative, s: Bytes, v: Value, t: Bytes, coer: bool, depth: nat)
    decreases a, 0, 0
  {
    if a.extension then ContainedRead(a.ty, s, v, t, coer, depth) else Reads(a.ty, s, v, t, coer, depth)
  }

  /** What an open type holds beyond its value is ignored. */
  ghost predicate ContainedRead(ty: Type, s: Bytes, v: Value, t: Bytes, coer: bool, depth: nat)
    decreases ty, 2, 0
  {
    exists c: Bytes, w: Bytes :: Framed(s, c, t, coer) && Reads(ty, c, v, w, coer, depth)
  }

  ghost predicate ItemsRead(element: Type, s: Bytes, items: seq<Value>, t: Bytes, coer: bool, depth: nat)
    decreases element, 2, |items|, 1
  {
    if items == [] then t == s else exists u: Bytes :: ItemThenItems(element, s, items, u, t, coer, depth)
  }

  ghost predicate ItemThenItems(element: Type, s: Bytes, items: seq<Value>, u: Bytes, t: Bytes, coer: bool, depth: nat)
    requires items != []
    decreases element, 2, |items|, 0
  {
    Reads(element, s, items[0], u, coer, depth) && ItemsRead(element, u, items[1..], t, coer, depth)
  }

  /** Nothing at all, a preamble of bits and padding, the root, and the additions. */
  ghost predicate SequenceRead(ty: Type, s: Bytes, v: Value, t: Bytes, coer: bool, depth: nat)
    requires ty.SequenceType? && v.SequenceValue?
    decreases ty, 0, 1
  {
    if ty.root == [] || (s == [] && NoneRequired(ty.root)) then
      NoneRequired(ty.root) && NoneRequired(ty.additions) && AllAbsent(ty.root, v.root) && AllAbsent(ty.additions, v.additions) && t == s
    else
      var n := Optionals(ty.root) + if ty.extensible then 1 else 0;
      var k := (n + 7) / 8;
      && k <= |s|
      && (forall i :: n <= i < 8 * k ==> !Bit(s, i))
      && exists u: Bytes :: RootThenExtension(ty, s, k, v, u, t, coer, depth)
  }

  ghost predicate RootThenExtension(ty: Type, s: Bytes, k: nat, v: Value, u: Bytes, t: Bytes, coer: bool, depth: nat)
    requires ty.SequenceType? && v.SequenceValue? && k <= |s|
    decreases ty, 0, 0
  {
    && FieldsRead(ty.root, s[..k], if ty.extensible then 1 else 0, s[k..], v.root, u, coer, depth)
    && ExtensionRead(ty.additions, ty.extensible && Bit(s, 0), u, v.additions, t, coer, depth)
  }

  /** The root components in order; `k` is the presence bit of the next one that has one. */
  ghost predicate FieldsRead(
      components: seq<Component>, preamble: Bytes, k: nat, s: Bytes, fields: seq<Option<Value>>, t: Bytes, coer: bool, depth: nat)
    decreases components, 1, 0
  {
    if components == [] then fields == [] && t == s
    else fields != [] && exists u: Bytes :: FieldThenFields(components, preamble, k, s, fields, u, t, coer, depth)
  }

  ghost predicate FieldThenFields(
      components: seq<Component>, preamble: Bytes, k: nat, s: Bytes, fields: seq<Option<Value>>, u: Bytes, t: Bytes,
      coer: bool, depth: nat)
    requires components != [] && fields != []
    decreases components, 0, 0
  {
    var optional := !components[0].presence.Required?;
    && FieldRead(components[0], optional ==> Bit(preamble, k), s, fields[0], u, coer, depth)
    && FieldsRead(components[1..], preamble, if optional then k + 1 else k, u, fields[1..], t, coer, depth)
  }

  ghost predicate FieldRead(c: Component, present: bool, s: Bytes, field: Option<Value>, t: Bytes, coer: bool, depth: nat)
    decreases c, 0, 0
  {
    if !present then IsAbsent(c, field) && t == s
    else field.Some? && (!c.presence.Required? ==> ToldByTag(c)) && Reads(c.ty, s, field.value, t, coer, depth)
  }

  /** The bitmap: a count of unused bits, which is not otherwise used, and one bit for each addition. */
  ghost predicate ExtensionRead(
      additions: seq<Component>, extended: bool, s: Bytes, fields: seq<Option<Value>>, t: Bytes, coer: bool, depth: nat)
    decreases additions, 2, 0
  {
    if additions == [] then fields == [] && t == s
    else if !extended then NoneRequired(additions) && AllAbsent(additions, fields) && t == s
    else
      exists b: Bytes, u: Bytes ::
        && Framed(s, b, u, coer)
        && b != [] && b[0] <= 7 && b[0] <= 8 * (|b| - 1)
        && (forall i :: 0 <= i < |additions| && additions[i].presence.Required? ==> Bit(b, 8 + i))
        && AdditionsRead(additions, b, 8, u, fields, t, coer, depth)
  }

  /** The additions in order; `k` is the bit of the next one. */
  ghost predicate AdditionsRead(
      additions: seq<Component>, bitmap: Bytes, k: nat, s: Bytes, fields: seq<Option<Value>>, t: Bytes, coer: bool, depth: nat)
    decreases additions, 1, 0
  {
    if additions == [] then fields == [] && t == s
    else fields != [] && exists u: Bytes :: AdditionThenAdditions(additions, bitmap, k, s, fields, u, t, coer, depth)
  }

  ghost predicate AdditionThenAdditions(
      additions: seq<Component>, bitmap: Bytes, k: nat, s: Bytes, fields: seq<Option<Value>>, u: Bytes, t: Bytes,
      coer: bool, depth: nat)
    requires additions != [] && fields != []
    decreases additions, 0, 0
  {
    && AdditionRead(additions[0], Bit(bitmap, k), s, fields[0], u, coer, depth)
    && AdditionsRead(additions[1..], bitmap, k + 1, u, fields[1..], t, coer, depth)
  }

  ghost predicate AdditionRead(c: Component, present: bool, s: Bytes, field: Option<Value>, t: Bytes, coer: bool, depth: nat)
    decreases c, 0, 0
  {
    if !present then IsAbsent(c, field) && t == s
    else field.Some? && ContainedRead(c.ty, s, field.value, t, coer, depth)
  }

  // ----- The decoder's parts -----

  lemma LengthExact(s: Bytes, n: nat, t: Bytes, coer: bool)
    ensures DecLength(s, coer) == Ok(n, t) <==> exists l: Bytes :: IsLength(l, n, coer) && s == l + t
  {
    hide UnsignedValue, Big;
    if DecLength(s, coer) == Ok(n, t) {
      var l := LengthRead(s, n, t, coer);
    }
    if l: Bytes :| IsLength(l, n, coer) && s == l + t {
      LengthTaken(l, n, t, coer);
    }
  }

  lemma LengthRead(s: Bytes, n: nat, t: Bytes, coer: bool) returns (l: Bytes)
    requires DecLength(s, coer) == Ok(n, t)
    ensures IsLength(l, n, coer) && s == l + t
  {
    hide UnsignedValue, Big;
    Parts(s, 1);
    if s[0] < 128 {
      l := [s[0]];
    } else {
      var k := s[0] - 128;
      var c := s[1..][..k];
      BigIs(c);
      l := [s[0]] + c;
      assert l[1..] == c;
    }
  }

  lemma LengthTaken(l: Bytes, n: nat, t: Bytes, coer: bool)
    requires IsLength(l, n, coer)
    ensures DecLength(l + t, coer) == Ok(n, t)
  {
    hide UnsignedValue, Big;
    var s := l + t;
    if |l| == 1 {
      assert s[1..] == t;
    } else {
      BigIs(l[1..]);
      assert s[1..] == l[1..] + t;
      TakeBack(l[1..], t);
    }
  }

  lemma FrameExact(s: Bytes, c: Bytes, t: Bytes, coer: bool)
    ensures DecOpen(s, coer) == Ok(c, t) <==> Framed(s, c, t, coer)
  {
    hide DecLength, IsLength;
    if DecOpen(s, coer) == Ok(c, t) {
      var n := DecLength(s, coer);
      Parts(n.rest, n.value);
      LengthExact(s, n.value, n.rest, coer);
      assert n.rest == c + t;
    }
    if l: Bytes :| IsLength(l, |c|, coer) && s == l + (c + t) {
      LengthExact(s, |c|, c + t, coer);
      TakeBack(c, t);
    }
  }

  lemma TagExact(s: Bytes, tag: Tag, t: Bytes)
    ensures DecTag(s) == Ok(tag, t) <==> TagRead(s, tag, t)
  {
    hide DecBase128, Septal;
    if s != [] && s[0] % 64 == 63 {
      if DecTag(s) == Ok(tag, t) {
        var g := GroupsRead(s[1..], 0);
        GroupsFront(g, t);
        assert s[1..][0] == g[0];
      }
      if TagRead(s, tag, t) {
        var g: Bytes :| IsGroups(g) && s[1..] == g + t && tag.value == Septal(g) % 0x1_0000_0000;
        GroupsFront(g, t);
        assert s[1..][0] == g[0];
      }
    }
  }

  lemma IntegerExact(s: Bytes, i: int, t: Bytes, bounds: Option<Bounds>, extensible: bool, coer: bool)
    ensures DecInteger(s, bounds, extensible, coer) == Ok(IntegerValue(i), t) <==> IntegerRead(s, i, t, bounds, extensible, coer)
  {
    hide UnsignedValue, SignedValue, Big, Two, DecOpen, Framed;
    var (signed, octets) := Form(bounds, extensible);
    if octets.Some? {
      if octets.value <= |s| {
        BigIs(s[..octets.value]);
        TwoIs(s[..octets.value]);
      }
    } else {
      var data := DecOpen(s, coer);
      if data.Ok? {
        BigIs(data.value);
        TwoIs(data.value);
        FrameExact(s, data.value, data.rest, coer);
      }
      forall c: Bytes | Framed(s, c, t, coer)
        ensures data == Ok(c, t)
      {
        FrameExact(s, c, t, coer);
      }
    }
  }

  lemma OctetsExact(s: Bytes, octets: Bytes, t: Bytes, size: Size, coer: bool)
    ensures DecOctetString(s, size, coer) == Ok(OctetStringValue(octets), t) <==> OctetsRead(s, octets, t, size, coer)
  {
    hide DecOpen, Framed;
    FrameExact(s, octets, t, coer);
    Joined(octets, t);
    if size.Fixed? && size.n <= |s| {
      Parts(s, size.n);
    }
  }

  lemma FirstBitsOf(bits: seq<bool>, c: Bytes, n: nat)
    requires n <= 8 * |c|
    ensures bits == BitsOf(c, n) <==> |bits| == n && FirstBits(bits, c)
  {
    hide Bit, BitAt;
    forall k | 0 <= k < n
      ensures Bit(c, k) == BitsOf(c, n)[k]
    {
      BitIs(c, k);
    }
  }

  lemma BitsExact(s: Bytes, bits: seq<bool>, t: Bytes, size: Size, coer: bool)
    ensures DecBitString(s, size, coer) == Ok(BitStringValue(bits), t) <==> BitsRead(s, bits, t, size, coer)
  {
    hide DecLength, FirstBits, Framed, BitsOf;
    if size.Fixed? {
      var k := (size.n + 7) / 8;
      if k <= |s| {
        FirstBitsOf(bits, s[..k], size.n);
      }
    } else {
      if DecBitString(s, size, coer) == Ok(BitStringValue(bits), t) {
        var c := CountedRead(s, bits, t, size, coer);
      }
      if c: Bytes :| Framed(s, c, t, coer) && CountedBits(bits, c) {
        CountedTaken(s, c, bits, t, size, coer);
      }
    }
  }

  lemma CountedRead(s: Bytes, bits: seq<bool>, t: Bytes, size: Size, coer: bool) returns (c: Bytes)
    requires !size.Fixed? && DecBitString(s, size, coer) == Ok(BitStringValue(bits), t)
    ensures Framed(s, c, t, coer) && CountedBits(bits, c)
  {
    hide DecLength, FirstBits, Framed, BitsOf;
    var n := DecLength(s, coer);
    c := n.rest[..n.value];
    FrameExact(s, c, t, coer);
    if n.value > 0 {
      assert c[1..] == n.rest[1..][..n.value - 1];
      assert n.rest[1..][n.value - 1..] == n.rest[n.value..];
      FirstBitsOf(bits, c[1..], 8 * (n.value - 1) - c[0]);
    }
  }

  lemma CountedTaken(s: Bytes, c: Bytes, bits: seq<bool>, t: Bytes, size: Size, coer: bool)
    requires !size.Fixed? && Framed(s, c, t, coer) && CountedBits(bits, c)
    ensures DecBitString(s, size, coer) == Ok(BitStringValue(bits), t)
  {
    hide DecLength, FirstBits, Framed, BitsOf;
    FrameExact(s, c, t, coer);
    var n := DecLength(s, coer);
    if c != [] {
      assert c[1..] == n.rest[1..][..n.value - 1];
      assert n.rest[1..][n.value - 1..] == n.rest[n.value..];
      FirstBitsOf(bits, c[1..], 8 * (n.value - 1) - c[0]);
    }
  }

  lemma EnumeratedExact(s: Bytes, index: nat, t: Bytes, discriminants: seq<int>, coer: bool)
    ensures DecEnumerated(s, discriminants, coer) == Ok(EnumeratedValue(index), t) <==>
            exists d :: IsFirst(discriminants, index, d) && DiscriminantRead(s, d, t, coer)
  {
    hide SignedValue, Two;
    if s != [] && s[0] >= 128 && s[0] - 128 <= |s[1..]| {
      TwoIs(s[1..][..s[0] - 128]);
    }
    if DecEnumerated(s, discriminants, coer) == Ok(EnumeratedValue(index), t) {
      assert DiscriminantRead(s, discriminants[index], t, coer);
      assert IsFirst(discriminants, index, discriminants[index]);
    }
  }

  // ----- SEQUENCE -----

  lemma {:induction false} OptionalsAre(components: seq<Component>)
    ensures Optionals(components) == OptionalCount(components)
    ensures NoneRequired(components) <==> AllOptional(components)
  {
    if components != [] {
      OptionalsAre(components[1..]);
    }
  }

  lemma AbsentInitial(components: seq<Component>, fields: seq<Option<Value>>)
    ensures AllAbsent(components, fields) <==> fields == Initial(components)
  {
    assert AllAbsent(components, Initial(components));
  }

  /** The decoder's preamble is the bits at the front. */
  lemma PreambleExact(ty: Type, s: Bytes)
    requires ty.SequenceType?
    ensures var n := Optionals(ty.root) + if ty.extensible then 1 else 0;
            var k := (n + 7) / 8;
            var p := DecPreamble(ty, s);
            && (p.Ok? <==> k <= |s| && forall i :: n <= i < 8 * k ==> !Bit(s, i))
            && (p.Ok? ==> p.rest == s[k..] && |p.value| == n && forall i :: 0 <= i < n ==> p.value[i] == Bit(s, i) == Bit(s[..k], i))
  {
    hide Bit, BitAt;
    OptionalsAre(ty.root);
    var n := Optionals(ty.root) + if ty.extensible then 1 else 0;
    var k := (n + 7) / 8;
    if k <= |s| {
      forall i | 0 <= i < 8 * k
        ensures Bit(s, i) == Bit(s[..k], i) == BitAt(s[..k][i / 8], i % 8)
      {
        BitIs(s, i);
        BitIs(s[..k], i);
      }
    }
  }

  /** The presence bits from the `k`th on. */
  predicate Presence(bits: seq<bool>, preamble: Bytes, k: nat) {
    forall i :: 0 <= i < |bits| ==> bits[i] == Bit(preamble, k + i)
  }

  lemma PreamblePresence(ty: Type, s: Bytes)
    requires ty.SequenceType? && DecPreamble(ty, s).Ok?
    ensures var e := if ty.extensible then 1 else 0;
            var k := (Optionals(ty.root) + e + 7) / 8;
            var bits := DecPreamble(ty, s).value;
            && k <= |s| && e <= |bits| == Optionals(ty.root) + e
            && Presence(bits[e..], s[..k], e) && (ty.extensible ==> bits[0] == Bit(s, 0))
  {
    hide Bit, DecPreamble, Optionals;
    PreambleExact(ty, s);
  }

  lemma NextPresence(bits: seq<bool>, preamble: Bytes, k: nat)
    requires Presence(bits, preamble, k) && bits != []
    ensures bits[0] == Bit(preamble, k) && Presence(bits[1..], preamble, k + 1)
  {
    hide Bit;
    forall i | 0 <= i < |bits[1..]|
      ensures bits[1..][i] == Bit(preamble, k + 1 + i)
    {
      assert bits[i + 1] == Bit(preamble, k + (i + 1));
    }
    assert bits[0] == Bit(preamble, k + 0);
  }

  lemma {:induction false} FieldExact(c: Component, present: bool, s: Bytes, field: Option<Value>, t: Bytes, coer: bool, depth: nat)
    ensures DecField(c, present, s, coer, depth) == Ok(field, t) <==> FieldRead(c, present, s, field, t, coer, depth)
    decreases c, 0, 0
  {
    hide Dec, Reads, Recognized;
    RecognizedComponents(c);
    if present && field.Some? {
      Exact(c.ty, s, field.value, t, coer, depth);
    }
  }

  lemma {:induction false} FieldsPart(
      components: seq<Component>, preamble: Bytes, k: nat, s: Bytes, fields: seq<Option<Value>>, t: Bytes, coer: bool, depth: nat)
    returns (u: Bytes)
    requires components != [] && FieldsRead(components, preamble, k, s, fields, t, coer, depth)
    ensures fields != [] && FieldThenFields(components, preamble, k, s, fields, u, t, coer, depth)
  {
    u :| FieldThenFields(components, preamble, k, s, fields, u, t, coer, depth);
  }

  lemma {:induction false} FieldsExact(
      components: seq<Component>, bits: seq<bool>, preamble: Bytes, k: nat, s: Bytes, fields: seq<Option<Value>>, t: Bytes,
      coer: bool, depth: nat)
    requires |bits| == OptionalCount(components) && Presence(bits, preamble, k)
    ensures DecFields(components, bits, s, coer, depth) == Ok(fields, t) <==>
            FieldsRead(components, preamble, k, s, fields, t, coer, depth)
    decreases components, 0, 0
  {
    hide DecField, FieldRead, Bit, Presence;
    if components != [] {
      var c := components[0];
      var present := IsOptional(c) ==> bits[0];
      var bits', k' := if IsOptional(c) then bits[1..] else bits, if IsOptional(c) then k + 1 else k;
      if IsOptional(c) {
        NextPresence(bits, preamble, k);
      }
      if DecFields(components, bits, s, coer, depth) == Ok(fields, t) {
        var first := DecField(c, present, s, coer, depth);
        FieldExact(c, present, s, first.value, first.rest, coer, depth);
        assert fields[1..] == DecFields(components[1..], bits', first.rest, coer, depth).value;
        FieldsExact(components[1..], bits', preamble, k', first.rest, fields[1..], t, coer, depth);
        assert FieldThenFields(components, preamble, k, s, fields, first.rest, t, coer, depth);
      }
      if FieldsRead(components, preamble, k, s, fields, t, coer, depth) {
        var u := FieldsPart(components, preamble, k, s, fields, t, coer, depth);
        FieldExact(c, present, s, fields[0], u, coer, depth);
        FieldsExact(components[1..], bits', preamble, k', u, fields[1..], t, coer, depth);
        assert [fields[0]] + fields[1..] == fields;
      }
    }
  }

  lemma {:induction false} ContainedExact(ty: Type, s: Bytes, v: Value, t: Bytes, coer: bool, depth: nat)
    ensures DecContained(ty, s, coer, depth) == Ok(v, t) <==> ContainedRead(ty, s, v, t, coer, depth)
    decreases ty, 2, 0
  {
    hide Dec, Reads, DecOpen, Framed;
    if DecContained(ty, s, coer, depth) == Ok(v, t) {
      var data := DecOpen(s, coer);
      FrameExact(s, data.value, t, coer);
      Exact(ty, data.value, v, Dec(ty, data.value, coer, depth).rest, coer, depth);
    }
    if c: Bytes, w: Bytes :| Framed(s, c, t, coer) && Reads(ty, c, v, w, coer, depth) {
      FrameExact(s, c, t, coer);
      Exact(ty, c, v, w, coer, depth);
    }
  }

  lemma {:induction false} AdditionExact(c: Component, present: bool, s: Bytes, field: Option<Value>, t: Bytes, coer: bool, depth: nat)
    ensures DecAddition(c, present, s, coer, depth) == Ok(field, t) <==> AdditionRead(c, present, s, field, t, coer, depth)
    decreases c, 0, 0
  {
    hide DecContained, ContainedRead;
    if present && field.Some? {
      ContainedExact(c.ty, s, field.value, t, coer, depth);
    }
  }

  lemma {:induction false} AdditionsPart(
      additions: seq<Component>, bitmap: Bytes, k: nat, s: Bytes, fields: seq<Option<Value>>, t: Bytes, coer: bool, depth: nat)
    returns (u: Bytes)
    requires additions != [] && AdditionsRead(additions, bitmap, k, s, fields, t, coer, depth)
    ensures fields != [] && AdditionThenAdditions(additions, bitmap, k, s, fields, u, t, coer, depth)
  {
    u :| AdditionThenAdditions(additions, bitmap, k, s, fields, u, t, coer, depth);
  }

  lemma {:induction false} AdditionsExact(
      additions: seq<Component>, bits: seq<bool>, bitmap: Bytes, k: nat, s: Bytes, fields: seq<Option<Value>>, t: Bytes,
      coer: bool, depth: nat)
    requires |bits| == |additions| && Presence(bits, bitmap, k)
    ensures DecAdditions(additions, bits, s, coer, depth) == Ok(fields, t) <==>
            AdditionsRead(additions, bitmap, k, s, fields, t, coer, depth)
    decreases additions, 0, 0
  {
    hide DecAddition, AdditionRead, Bit, Presence;
    if additions != [] {
      var c := additions[0];
      NextPresence(bits, bitmap, k);
      if DecAdditions(additions, bits, s, coer, depth) == Ok(fields, t) {
        var first := DecAddition(c, bits[0], s, coer, depth);
        AdditionExact(c, bits[0], s, first.value, first.rest, coer, depth);
        assert fields[1..] == DecAdditions(additions[1..], bits[1..], first.rest, coer, depth).value;
        AdditionsExact(additions[1..], bits[1..], bitmap, k + 1, first.rest, fields[1..], t, coer, depth);
        assert AdditionThenAdditions(additions, bitmap, k, s, fields, first.rest, t, coer, depth);
      }
      if AdditionsRead(additions, bitmap, k, s, fields, t, coer, depth) {
        var u := AdditionsPart(additions, bitmap, k, s, fields, t, coer, depth);
        AdditionExact(c, bits[0], s, fields[0], u, coer, depth);
        AdditionsExact(additions[1..], bits[1..], bitmap, k + 1, u, fields[1..], t, coer, depth);
        assert [fields[0]] + fields[1..] == fields;
      }
    }
  }

  /** The presence bits of a bitmap; those beyond its end are not set. */
  lemma BitmapPresence(b: Bytes, n: nat)
    requires b != []
    ensures Presence(BitmapBits(b[1..], n), b, 8)
  {
    hide Bit, BitAt;
    forall i | 0 <= i < n
      ensures BitmapBits(b[1..], n)[i] == Bit(b, 8 + i)
    {
      assert (8 + i) / 8 == 1 + i / 8 && (8 + i) % 8 == i % 8;
      if 8 + i < 8 * |b| {
        BitIs(b, 8 + i);
      } else {
        BeyondEnd(b, 8 + i);
      }
    }
  }

  lemma BeyondEnd(b: Bytes, k: nat)
    requires k >= 8 * |b|
    ensures !Bit(b, k)
  {
  }

  lemma {:induction false} ExtensionExact(
      additions: seq<Component>, extended: bool, s: Bytes, fields: seq<Option<Value>>, t: Bytes, coer: bool, depth: nat)
    ensures DecExtension(additions, extended, s, coer, depth) == Ok(fields, t) <==>
            ExtensionRead(additions, extended, s, fields, t, coer, depth)
    decreases additions, 1, 0
  {
    hide DecAdditions, AdditionsRead, Bit, DecOpen, Framed, BitmapBits;
    OptionalsAre(additions);
    AbsentInitial(additions, fields);
    if additions != [] && extended {
      if DecExtension(additions, extended, s, coer, depth) == Ok(fields, t) {
        var data, bitmap := DecOpen(s, coer), DecBitmap(s, additions, coer);
        FrameExact(s, data.value, data.rest, coer);
        BitmapPresence(data.value, |additions|);
        AdditionsExact(additions, bitmap.value, data.value, 8, bitmap.rest, fields, t, coer, depth);
      }
      if ExtensionRead(additions, extended, s, fields, t, coer, depth) {
        var b: Bytes, u: Bytes :|
          && Framed(s, b, u, coer)
          && b != [] && b[0] <= 7 && b[0] <= 8 * (|b| - 1)
          && (forall i :: 0 <= i < |additions| && additions[i].presence.Required? ==> Bit(b, 8 + i))
          && AdditionsRead(additions, b, 8, u, fields, t, coer, depth);
        FrameExact(s, b, u, coer);
        BitmapPresence(b, |additions|);
        AdditionsExact(additions, BitmapBits(b[1..], |additions|), b, 8, u, fields, t, coer, depth);
      }
    }
  }

  lemma {:induction false} SequenceExact(ty: Type, s: Bytes, v: Value, t: Bytes, coer: bool, depth: nat)
    requires ty.SequenceType? && v.SequenceValue?
    ensures DecSequence(ty, s, coer, depth) == Ok(v, t) <==> SequenceRead(ty, s, v, t, coer, depth)
    decreases ty, 0, 0
  {
    hide DecFields, FieldsRead, DecExtension, ExtensionRead, DecPreamble, Bit, Presence, AllOptional, NoneRequired, AllAbsent, Optionals, OptionalCount;
    OptionalsAre(ty.root);
    OptionalsAre(ty.additions);
    AbsentInitial(ty.root, v.root);
    AbsentInitial(ty.additions, v.additions);
    PreambleExact(ty, s);
    var preamble := DecPreamble(ty, s);
    if preamble.Ok? {
      var e := if ty.extensible then 1 else 0;
      var k := (Optionals(ty.root) + e + 7) / 8;
      var bits := preamble.value[e..];
      PreamblePresence(ty, s);
      var extended := ty.extensible && Bit(s, 0);
      if DecSequence(ty, s, coer, depth) == Ok(v, t) && !(ty.root == [] || (s == [] && NoneRequired(ty.root))) {
        var u := DecFields(ty.root, bits, s[k..], coer, depth).rest;
        FieldsExact(ty.root, bits, s[..k], e, s[k..], v.root, u, coer, depth);
        ExtensionExact(ty.additions, extended, u, v.additions, t, coer, depth);
        assert RootThenExtension(ty, s, k, v, u, t, coer, depth);
      }
      if u: Bytes :| RootThenExtension(ty, s, k, v, u, t, coer, depth) {
        FieldsExact(ty.root, bits, s[..k], e, s[k..], v.root, u, coer, depth);
        ExtensionExact(ty.additions, extended, u, v.additions, t, coer, depth);
      }
    }
  }

  // ----- The other constructed types -----

  lemma {:induction false} ItemsPart(element: Type, s: Bytes, items: seq<Value>, t: Bytes, coer: bool, depth: nat) returns (u: Bytes)
    requires items != [] && ItemsRead(element, s, items, t, coer, depth)
    ensures ItemThenItems(element, s, items, u, t, coer, depth)
  {
    u :| ItemThenItems(element, s, items, u, t, coer, depth);
  }

  lemma {:induction false} ItemsExact(element: Type, s: Bytes, items: seq<Value>, t: Bytes, coer: bool, depth: nat)
    ensures DecItems(element, |items|, s, coer, depth) == Ok(items, t) <==> ItemsRead(element, s, items, t, coer, depth)
    decreases element, 2, |items|
  {
    hide Dec, Reads;
    if items != [] {
      if DecItems(element, |items|, s, coer, depth) == Ok(items, t) {
        var first := Dec(element, s, coer, depth);
        Exact(element, s, first.value, first.rest, coer, depth);
        assert items[1..] == DecItems(element, |items| - 1, first.rest, coer, depth).value;
        ItemsExact(element, first.rest, items[1..], t, coer, depth);
        assert ItemThenItems(element, s, items, first.rest, t, coer, depth);
      }
      if ItemsRead(element, s, items, t, coer, depth) {
        var u := ItemsPart(element, s, items, t, coer, depth);
        Exact(element, s, items[0], u, coer, depth);
        ItemsExact(element, u, items[1..], t, coer, depth);
        assert [items[0]] + items[1..] == items;
      }
    }
  }

  lemma {:induction false} SequenceOfExact(element: Type, s: Bytes, v: Value, t: Bytes, coer: bool, depth: nat)
    requires v.SequenceOfValue? && depth > 0
    ensures DecSequenceOf(element, s, coer, depth - 1) == Ok(v, t) <==> Reads(SequenceOfType(element), s, v, t, coer, depth)
    decreases element, 3, 0
  {
    hide DecOpen, Framed, DecItems, ItemsRead, UnsignedValue, Big;
    if DecSequenceOf(element, s, coer, depth - 1) == Ok(v, t) {
      var q := DecOpen(s, coer);
      FrameExact(s, q.value, q.rest, coer);
      BigIs(q.value);
      ItemsExact(element, q.rest, v.items, t, coer, depth - 1);
    }
    if q: Bytes, u: Bytes :|
      && Framed(s, q, u, coer)
      && 1 <= |q| <= 8 && Big(q) == |v.items| && (coer && |q| > 1 ==> q[0] != 0)
      && ItemsRead(element, u, v.items, t, coer, depth - 1)
    {
      FrameExact(s, q, u, coer);
      BigIs(q);
      ItemsExact(element, u, v.items, t, coer, depth - 1);
    }
  }

  lemma {:induction false} AlternativeExact(a: Alternative, s: Bytes, v: Value, t: Bytes, coer: bool, depth: nat)
    ensures DecAlternative(a, s, coer, depth) == Ok(v, t) <==> AlternativeRead(a, s, v, t, coer, depth)
    decreases a, 0, 0
  {
    hide Dec, Reads, DecContained, ContainedRead;
    if a.extension {
      ContainedExact(a.ty, s, v, t, coer, depth);
    } else {
      Exact(a.ty, s, v, t, coer, depth);
    }
  }

  lemma {:induction false} ChoiceExact(ty: Type, s: Bytes, v: Value, t: Bytes, coer: bool, depth: nat)
    requires ty.ChoiceType? && v.ChoiceValue? && depth > 0
    ensures DecChoice(ty.alternatives, s, coer, depth - 1) == Ok(v, t) <==> Reads(ty, s, v, t, coer, depth)
    decreases ty, 0, 0
  {
    hide DecTag, TagRead, DecAlternative, AlternativeRead;
    if DecChoice(ty.alternatives, s, coer, depth - 1) == Ok(v, t) {
      var tag := DecTag(s);
      TagExact(s, tag.value, tag.rest);
      AlternativeExact(ty.alternatives[v.chosen], tag.rest, v.inner, t, coer, depth - 1);
    }
    if Reads(ty, s, v, t, coer, depth) {
      var a := ty.alternatives[v.chosen];
      var u: Bytes :| TagRead(s, a.tag, u) && AlternativeRead(a, u, v.inner, t, coer, depth - 1);
      TagExact(s, a.tag, u);
      AlternativeExact(a, u, v.inner, t, coer, depth - 1);
      assert FindTag(ty.alternatives, a.tag) == v.chosen;
    }
  }

  lemma {:induction false} Shape(ty: Type, s: Bytes, coer: bool, depth: nat)
    requires Dec(ty, s, coer, depth).Ok?
    ensures var v := Dec(ty, s, coer, depth).value;
            match ty
            case BooleanType => v.BooleanValue?
            case NullType => v.NullValue?
            case IntegerType(_, _) => v.IntegerValue?
            case OctetStringType(_) => v.OctetStringValue?
            case BitStringType(_) => v.BitStringValue?
            case EnumeratedType(_) => v.EnumeratedValue?
            case SequenceType(_, _, _) => v.SequenceValue?
            case SequenceOfType(_) => v.SequenceOfValue?
            case ChoiceType(_) => v.ChoiceValue?
  {
    hide DecLength, DecOpen, DecFields, DecExtension, DecPreamble, DecItems, DecTag, DecAlternative, BitsOf, Form;
  }

  /**
   The decoder reads exactly what the rules read: for every type, input, value, rest, depth and both modes,
   a value is decoded and a rest left if and only if the rules say so.
   */
  lemma {:induction false} Exact(ty: Type, s: Bytes, v: Value, t: Bytes, coer: bool, depth: nat)
    ensures Dec(ty, s, coer, depth) == Ok(v, t) <==> Reads(ty, s, v, t, coer, depth)
    decreases ty, 1, 0
  {
    hide DecSequence, SequenceRead, DecSequenceOf, DecChoice, DecInteger, IntegerRead, DecOctetString, OctetsRead, DecBitString, BitsRead,
      DecEnumerated, ItemsRead, AlternativeRead, DiscriminantRead, Framed, TagRead;
    if Dec(ty, s, coer, depth).Ok? {
      Shape(ty, s, coer, depth);
    }
    match ty
    case BooleanType =>
    case NullType =>
    case IntegerType(bounds, extensible) =>
      if v.IntegerValue? {
        IntegerExact(s, v.i, t, bounds, extensible, coer);
      }
    case OctetStringType(size) =>
      if v.OctetStringValue? {
        OctetsExact(s, v.octets, t, size, coer);
      }
    case BitStringType(size) =>
      if v.BitStringValue? {
        BitsExact(s, v.bits, t, size, coer);
      }
    case EnumeratedType(discriminants) =>
      if v.EnumeratedValue? {
        EnumeratedExact(s, v.index, t, discriminants, coer);
      }
    case SequenceType(_, _, _) =>
      if v.SequenceValue? && depth > 0 {
        SequenceExact(ty, s, v, t, coer, depth - 1);
      }
    case SequenceOfType(element) =>
      if v.SequenceOfValue? && depth > 0 {
        SequenceOfExact(element, s, v, t, coer, depth);
      }
    case ChoiceType(_) =>
      if v.ChoiceValue? && depth > 0 {
        ChoiceExact(ty, s, v, t, coer, depth);
      }
  }

  // ----- Consequences -----

  /** Basic OER reads every octet as a BOOLEAN. */
  lemma BasicBoolean(x: Byte, t: Bytes, depth: nat)
    ensures Dec(BooleanType, [x] + t, false, depth) == Ok(BooleanValue(x != 0), t)
  {
    assert ([x] + t)[1..] == t;
    Exact(BooleanType, [x] + t, BooleanValue(x != 0), t, false, depth);
  }

  /** Basic OER reads every long form of a length of one to eight octets. */
  lemma BasicLength(l: Bytes, t: Bytes)
    requires 1 <= |l| <= 8
    ensures DecLength([128 + |l|] + l + t, false) == Ok(Big(l), t)
  {
    hide UnsignedValue, Big;
    var d := [128 + |l|] + l;
    assert d[1..] == l;
    LengthTaken(d, Big(l), t, false);
  }
}
