/** OER decoding as a function of the input; `coer` selects the stricter canonical rules. */
module OerDecode {
  import opened Common
  import opened Bits
  import opened BigEndian
  import opened Decoding
  import opened OerTypes
  import opened OerEncode

  /** `usize::try_from_unsigned_bytes`: at least one octet and at most eight. */
  function Usize(b: Bytes): Option<nat> {
    if 1 <= |b| <= 8 then Some(UnsignedValue(b)) else None
  }

  function DecLength(s: Bytes, coer: bool): Decoded<nat> {
    var first := DecByte(s);
    if first.Err? then Err
    else if first.value < 128 then first
    else if first.value == 128 then Err
    else
      var data := Take(first.rest, first.value - 128);
      if data.Err? || (coer && data.value[0] == 0) then Err
      else
        var n := Usize(data.value);
        if n.None? || (coer && n.value < 128) then Err else Ok(n.value, data.rest)
  }

  /** A length determinant and that many octets. */
  function DecOpen(s: Bytes, coer: bool): Decoded<Bytes> {
    var n := DecLength(s, coer);
    if n.Err? then Err else Take(n.rest, n.value)
  }

  function DecIntegerBytes(s: Bytes, signed: bool, octets: Option<nat>, coer: bool): Decoded<int> {
    var data := if octets.Some? then Take(s, octets.value) else DecOpen(s, coer);
    if data.Err? || data.value == [] then Err
    else if coer && !signed && octets.None? && data.value[0] == 0 then Err
    else Ok(if signed then SignedValue(data.value) else UnsignedValue(data.value), data.rest)
  }

  /** Within the bounds; with any bounds, a value beyond 128 bits is refused as well. */
  predicate Admitted(i: int, bounds: Option<Bounds>) {
    InBounds(i, bounds) && (bounds.Some? ==> -TWO_127 <= i < TWO_127)
  }

  function DecInteger(s: Bytes, bounds: Option<Bounds>, extensible: bool, coer: bool): Decoded<Value> {
    var (signed, octets) := Form(bounds, extensible);
    var i := DecIntegerBytes(s, signed, octets, coer);
    if i.Err? || !Admitted(i.value, bounds) then Err else Ok(IntegerValue(i.value), i.rest)
  }

  function DecBoolean(s: Bytes, coer: bool): Decoded<Value> {
    var b := DecByte(s);
    if b.Err? || (coer && b.value != 0 && b.value != 0xFF) then Err else Ok(BooleanValue(b.value != 0), b.rest)
  }

  function DecOctetString(s: Bytes, size: Size, coer: bool): Decoded<Value> {
    var data := if size.Fixed? then Take(s, size.n) else DecOpen(s, coer);
    if data.Err? then Err else Ok(OctetStringValue(data.value), data.rest)
  }

  function DecBitString(s: Bytes, size: Size, coer: bool): Decoded<Value> {
    if size.Fixed? then
      var data := Take(s, Octets(size.n));
      if data.Err? then Err else Ok(BitStringValue(BitsOf(data.value, size.n)), data.rest)
    else
      var n := DecLength(s, coer);
      if n.Err? then Err
      else if n.value == 0 then Ok(BitStringValue([]), n.rest)
      else
        var unused := DecByte(n.rest);
        if unused.Err? || unused.value > 7 || (n.value == 1 && unused.value > 0) then Err
        else
          var data := Take(unused.rest, n.value - 1);
          if data.Err? || 8 * (n.value - 1) >= TWO_64 then Err
          else Ok(BitStringValue(BitsOf(data.value, 8 * (n.value - 1) - unused.value)), data.rest)
  }

  function FindDiscriminant(discriminants: seq<int>, d: int): (i: nat)
    ensures i <= |discriminants|
    ensures i < |discriminants| ==> discriminants[i] == d
    ensures forall j :: 0 <= j < i ==> discriminants[j] != d
  {
    if discriminants == [] || discriminants[0] == d then 0 else 1 + FindDiscriminant(discriminants[1..], d)
  }

  function DecEnumerated(s: Bytes, discriminants: seq<int>, coer: bool): Decoded<Value> {
    var first := DecByte(s);
    if first.Err? then Err
    else if first.value < 128 then Enumeration(discriminants, first.value, first.rest)
    else
      var data := Take(first.rest, first.value - 128);
      if data.Err? || !(1 <= |data.value| <= 8) then Err
      else
        var d := SignedValue(data.value);
        if coer && 0 <= d < 128 then Err else Enumeration(discriminants, d, data.rest)
  }

  function Enumeration(discriminants: seq<int>, d: int, rest: Bytes): Decoded<Value> {
    var i := FindDiscriminant(discriminants, d);
    if i < |discriminants| then Ok(EnumeratedValue(i), rest) else Err
  }

  function DecTag(s: Bytes): Decoded<Tag> {
    var first := DecByte(s);
    if first.Err? then Err
    else if first.value % 64 != 63 then Ok(Tag(first.value / 64, first.value % 64), first.rest)
    else if first.rest == [] || first.rest[0] % 128 == 0 then Err
    else
      var n := DecBase128(first.rest, 0);
      if n.Err? then Err else Ok(Tag(first.value / 64, n.value), n.rest)
  }

  /** The alternative with the given tag; the number of alternatives if there is none. */
  function FindTag(alternatives: seq<Alternative>, tag: Tag): (i: nat)
    ensures i <= |alternatives|
    ensures i < |alternatives| ==> alternatives[i].tag == tag
    ensures forall j :: 0 <= j < i ==> alternatives[j].tag != tag
  {
    if alternatives == [] || alternatives[0].tag == tag then 0 else 1 + FindTag(alternatives[1..], tag)
  }

  /** The value of a SEQUENCE all of whose components are absent. */
  function Initial(components: seq<Component>): (fields: seq<Option<Value>>)
    ensures |fields| == |components|
  {
    seq(|components|, i requires 0 <= i < |components| =>
        Absent(components[i]))
  }

  /** The value of a component that is not encoded. */
  function Absent(c: Component): Option<Value> {
    if c.presence.Default? then Some(c.presence.value) else None
  }

  function DecPreamble(ty: Type, s: Bytes): (r: Decoded<seq<bool>>)
    requires ty.SequenceType?
    ensures r.Ok? ==> |r.value| == OptionalCount(ty.root) + if ty.extensible then 1 else 0
  {
    var n := OptionalCount(ty.root) + if ty.extensible then 1 else 0;
    var data := Take(s, Octets(n));
    if data.Err? || !ZeroFrom(data.value, n) then Err else Ok(BitsOf(data.value, n), data.rest)
  }

  /** The first `n` bits of a bitmap; bits beyond its end count as zero. */
  function BitmapBits(bitfield: Bytes, n: nat): (bits: seq<bool>)
    ensures |bits| == n
  {
    seq(n, i requires 0 <= i => i < 8 * |bitfield| && BitAt(bitfield[i / 8], i % 8))
  }

  /** The presence of the known additions. */
  function DecBitmap(s: Bytes, additions: seq<Component>, coer: bool): (r: Decoded<seq<bool>>)
    ensures r.Ok? ==> |r.value| == |additions|
  {
    var data := DecOpen(s, coer);
    if data.Err? || data.value == [] then Err
    else
      var bitfield := data.value[1..];
      if data.value[0] > 7 || data.value[0] > 8 * |bitfield| then Err
      else
        var bits := BitmapBits(bitfield, |additions|);
        if exists i :: 0 <= i < |additions| && !IsOptional(additions[i]) && !bits[i] then Err else Ok(bits, data.rest)
  }

  function Dec(ty: Type, s: Bytes, coer: bool, depth: nat): Decoded<Value>
    decreases ty, 1, 0
  {
    match ty
    case BooleanType => DecBoolean(s, coer)
    case NullType => Ok(NullValue, s)
    case IntegerType(bounds, extensible) => DecInteger(s, bounds, extensible, coer)
    case OctetStringType(size) => DecOctetString(s, size, coer)
    case BitStringType(size) => DecBitString(s, size, coer)
    case EnumeratedType(discriminants) => DecEnumerated(s, discriminants, coer)
    case SequenceType(_, _, _) => if depth == 0 then Err else DecSequence(ty, s, coer, depth - 1)
    case SequenceOfType(element) => if depth == 0 then Err else DecSequenceOf(element, s, coer, depth - 1)
    case ChoiceType(alternatives) => if depth == 0 then Err else DecChoice(alternatives, s, coer, depth - 1)
  }

  function DecSequence(ty: Type, s: Bytes, coer: bool, depth: nat): Decoded<Value>
    requires ty.SequenceType?
    decreases ty, 0, 0
  {
    if ty.root == [] || (AllOptional(ty.root) && s == []) then
      if AllOptional(ty.root) && AllOptional(ty.additions)
      then Ok(SequenceValue(Initial(ty.root), Initial(ty.additions)), s)
      else Err
    else
      var preamble := DecPreamble(ty, s);
      if preamble.Err? then Err
      else
        var extended := ty.extensible && preamble.value[0];
        var bits := if ty.extensible then preamble.value[1..] else preamble.value;
        var root := DecFields(ty.root, bits, preamble.rest, coer, depth);
        if root.Err? then Err
        else
          var additions := DecExtension(ty.additions, extended, root.rest, coer, depth);
          if additions.Err? then Err else Ok(SequenceValue(root.value, additions.value), additions.rest)
  }

  /** The root components in order, each OPTIONAL or DEFAULT one by its presence bit and its tag. */
  function DecFields(components: seq<Component>, bits: seq<bool>, s: Bytes, coer: bool, depth: nat)
    : (r: Decoded<seq<Option<Value>>>)
    requires |bits| == OptionalCount(components)
    ensures r.Ok? ==> |r.value| == |components|
    decreases components, 0, 0
  {
    if components == [] then Ok([], s)
    else
      var c := components[0];
      var first := DecField(c, IsOptional(c) ==> bits[0], s, coer, depth);
      if first.Err? then Err
      else
        var rest := DecFields(components[1..], if IsOptional(c) then bits[1..] else bits, first.rest, coer, depth);
        if rest.Err? then Err else Ok([first.value] + rest.value, rest.rest)
  }

  function DecField(c: Component, present: bool, s: Bytes, coer: bool, depth: nat): Decoded<Option<Value>>
    decreases c, 0, 0
  {
    if !present then Ok(Absent(c), s)
    else if IsOptional(c) && !Recognized(c) then Err
    else Present(Dec(c.ty, s, coer, depth))
  }

  function Present(r: Decoded<Value>): Decoded<Option<Value>> {
    if r.Err? then Err else Ok(Some(r.value), r.rest)
  }

  /** Without the extension bit every addition is absent, which a required one may not be. */
  function DecExtension(additions: seq<Component>, extended: bool, s: Bytes, coer: bool, depth: nat)
    : (r: Decoded<seq<Option<Value>>>)
    ensures r.Ok? ==> |r.value| == |additions|
    decreases additions, 1, 0
  {
    if additions == [] then Ok([], s)
    else if !extended then if AllOptional(additions) then Ok(Initial(additions), s) else Err
    else
      var bits := DecBitmap(s, additions, coer);
      if bits.Err? then Err else DecAdditions(additions, bits.value, bits.rest, coer, depth)
  }

  /** Each present addition is an open type; octets its decoder leaves over are ignored. */
  function DecAdditions(additions: seq<Component>, bits: seq<bool>, s: Bytes, coer: bool, depth: nat)
    : (r: Decoded<seq<Option<Value>>>)
    requires |bits| == |additions|
    ensures r.Ok? ==> |r.value| == |additions|
    decreases additions, 0, 0
  {
    if additions == [] then Ok([], s)
    else
      var first := DecAddition(additions[0], bits[0], s, coer, depth);
      if first.Err? then Err
      else
        var rest := DecAdditions(additions[1..], bits[1..], first.rest, coer, depth);
        if rest.Err? then Err else Ok([first.value] + rest.value, rest.rest)
  }

  function DecAddition(c: Component, present: bool, s: Bytes, coer: bool, depth: nat): Decoded<Option<Value>>
    decreases c, 0, 0
  {
    if present then Present(DecContained(c.ty, s, coer, depth)) else Ok(Absent(c), s)
  }

  function DecContained(ty: Type, s: Bytes, coer: bool, depth: nat): Decoded<Value>
    decreases ty, 2, 0
  {
    var data := DecOpen(s, coer);
    if data.Err? then Err
    else
      var inner := Dec(ty, data.value, coer, depth);
      if inner.Err? then Err else Ok(inner.value, data.rest)
  }

  function DecSequenceOf(element: Type, s: Bytes, coer: bool, depth: nat): Decoded<Value>
    decreases element, 3, 0
  {
    var quantity := DecOpen(s, coer);
    if quantity.Err? || (coer && |quantity.value| > 1 && quantity.value[0] == 0) then Err
    else
      var n := Usize(quantity.value);
      if n.None? then Err
      else
        var items := DecItems(element, n.value, quantity.rest, coer, depth);
        if items.Err? then Err else Ok(SequenceOfValue(items.value), items.rest)
  }

  function DecItems(element: Type, n: nat, s: Bytes, coer: bool, depth: nat): (r: Decoded<seq<Value>>)
    ensures r.Ok? ==> |r.value| == n
    decreases element, 2, n
  {
    if n == 0 then Ok([], s)
    else
      var first := Dec(element, s, coer, depth);
      if first.Err? then Err
      else
        var rest := DecItems(element, n - 1, first.rest, coer, depth);
        if rest.Err? then Err else Ok([first.value] + rest.value, rest.rest)
  }

  function DecChoice(alternatives: seq<Alternative>, s: Bytes, coer: bool, depth: nat): Decoded<Value>
    decreases alternatives, 0, 0
  {
    var tag := DecTag(s);
    if tag.Err? then Err
    else
      var i := FindTag(alternatives, tag.value);
      if i == |alternatives| then Err
      else
        var inner := DecAlternative(alternatives[i], tag.rest, coer, depth);
        if inner.Err? then Err else Ok(ChoiceValue(i, inner.value), inner.rest)
  }

  /** An extension alternative is an open type. */
  function DecAlternative(a: Alternative, s: Bytes, coer: bool, depth: nat): Decoded<Value>
    decreases a, 0, 0
  {
    if a.extension then DecContained(a.ty, s, coer, depth) else Dec(a.ty, s, coer, depth)
  }
}
