/** OER encodings as octet sequences (ITU-T X.696); `None` is an encoding error. */
module OerEncode {
  import opened Common
  import opened Bits
  import opened BigEndian
  import opened OerTypes
  import opened OerTag

  function Append(a: Option<Bytes>, b: Option<Bytes>): Option<Bytes> {
    if a.Some? && b.Some? then Some(a.value + b.value) else None
  }

  /** A length determinant (clause 8.6): one octet below 128, otherwise the shortest long form. */
  function EncLength(n: nat): Option<Bytes> {
    if n < 128 then Some([n])
    else if n >= TWO_64 then None
    else
      UsizeLength(n);
      Some([128 + |UnsignedBytes(n)|] + UnsignedBytes(n))
  }

  /** Contents preceded by their length. */
  function EncOpen(contents: Option<Bytes>): Option<Bytes> {
    if contents.None? then None else Append(EncLength(|contents.value|), contents)
  }

  function Abs(i: int): nat {
    if i < 0 then -i else i
  }

  function OctetsForMagnitude(m: nat): (r: Option<nat>)
    ensures r.Some? ==> 1 <= r.value <= 8
  {
    if m < 0x100 then Some(1)
    else if m < 0x1_0000 then Some(2)
    else if m < 0x1_0000_0000 then Some(4)
    else if m < TWO_64 then Some(8)
    else None
  }

  /** Whether an INTEGER is encoded in two's complement, and its fixed width if it has one. */
  function Form(bounds: Option<Bounds>, extensible: bool): (r: (bool, Option<nat>))
    ensures r.1.Some? ==> 1 <= r.1.value <= 8
    ensures !r.0 ==> bounds.Some? && bounds.value.start.Some? && bounds.value.start.value >= 0
  {
    if bounds.None? || extensible || bounds.value.start.None? then (true, None)
    else
      var start := bounds.value.start.value;
      if bounds.value.end.None? then (start < 0, None)
      else (start < 0, OctetsForMagnitude(Max(Abs(start), Abs(bounds.value.end.value))))
  }

  predicate InBounds(i: int, bounds: Option<Bounds>) {
    bounds.Some? ==>
      && (bounds.value.start.Some? ==> bounds.value.start.value <= i)
      && (bounds.value.end.Some? ==> i <= bounds.value.end.value)
  }

  function IntegerBytes(i: int, signed: bool): (b: Bytes)
    requires !signed ==> i >= 0
    ensures b != []
  {
    if signed then SignedBytes(i) else UnsignedBytes(i)
  }

  /** A fixed-width INTEGER: sign or zero octets in front of the minimal form. */
  function EncFixed(i: int, signed: bool, octets: nat): Option<Bytes>
    requires !signed ==> i >= 0
  {
    var b := IntegerBytes(i, signed);
    if |b| > octets then None else Some(Repeat(SignOctet(signed && i < 0), octets - |b|) + b)
  }

  function EncInteger(i: int, bounds: Option<Bounds>, extensible: bool): Option<Bytes> {
    if !InBounds(i, bounds) && !extensible then None
    else
      var (signed, octets) := Form(bounds, extensible);
      if octets.Some? then EncFixed(i, signed, octets.value)
      else EncOpen(Some(IntegerBytes(i, signed)))
  }

  predicate SizeAllows(size: Size, n: nat) {
    match size
    case AnySize => true
    case Fixed(k) => n == k
    case Ranged(least, most) => least <= n <= most
  }

  const MAX_PERMITTED_LENGTH: nat := (TWO_64 - 1) / 8

  function EncOctetString(octets: Bytes, size: Size): Option<Bytes> {
    if !SizeAllows(size, |octets|) then None
    else if size.Fixed? then Some(octets)
    else if |octets| > MAX_PERMITTED_LENGTH then None
    else EncOpen(Some(octets))
  }

  /** The number of unused bits in the last octet of `n` packed bits. */
  function Missing(n: nat): (m: Byte)
    ensures m < 8 && (n + m) % 8 == 0 && n + m == 8 * Octets(n)
  {
    (8 - n % 8) % 8
  }

  /** A bit string never holds more bits than `MAX_PERMITTED_LENGTH`. */
  function EncBitString(bits: seq<bool>, size: Size): Option<Bytes> {
    if size.Fixed? then (if |bits| == size.n then Some(PackBits(bits)) else None)
    else if |bits| > MAX_PERMITTED_LENGTH then None
    else EncOpen(Some([Missing(|bits|)] + PackBits(bits)))
  }

  /** Below 128 one octet; otherwise a count of octets and a two's complement number (clause 11). */
  function EncEnumerated(discriminant: int): Option<Bytes> {
    if 0 <= discriminant < 128 then Some([discriminant])
    else
      var b := SignedBytes(discriminant);
      if |b| > 127 then None else Some([128 + |b|] + b)
  }

  /** The number of elements of a SEQUENCE OF, a `usize` (clause 17). */
  function EncQuantity(n: nat): Option<Bytes> {
    if n >= TWO_64 then None else EncOpen(Some(UnsignedBytes(n)))
  }

  /** The presence bits of the OPTIONAL and DEFAULT root components. */
  function PresenceBits(components: seq<Component>, fields: seq<Option<Value>>): (bits: seq<bool>)
    requires |components| == |fields|
    ensures |bits| == OptionalCount(components)
  {
    if components == [] then []
    else (if IsOptional(components[0]) then [!Omitted(components[0], fields[0])] else []) +
         PresenceBits(components[1..], fields[1..])
  }

  function AdditionBits(fields: seq<Option<Value>>): (bits: seq<bool>)
    ensures |bits| == |fields|
  {
    seq(|fields|, i requires 0 <= i < |fields| => fields[i].Some?)
  }

  predicate AnyAddition(fields: seq<Option<Value>>) {
    exists i :: 0 <= i < |fields| && fields[i].Some?
  }

  function Preamble(ty: Type, v: Value): seq<bool>
    requires ty.SequenceType? && v.SequenceValue? && |ty.root| == |v.root|
  {
    (if ty.extensible then [AnyAddition(v.additions)] else []) + PresenceBits(ty.root, v.root)
  }

  /** The extension addition presence bitmap (clause 16.4). */
  function EncBitmap(bits: seq<bool>): Option<Bytes> {
    EncOpen(Some([Missing(|bits|)] + PackBits(bits)))
  }

  lemma {:induction false} FieldsLength(fields: seq<Option<Value>>, components: seq<Component>)
    requires FieldsMatch(fields, components)
    ensures |fields| == |components|
  {
    if components != [] {
      FieldsLength(fields[1..], components[1..]);
    }
  }

  ghost predicate Encodable(v: Value, ty: Type) {
    Matches(v, ty) && WellFormed(ty)
  }

  ghost predicate FieldsEncodable(fields: seq<Option<Value>>, components: seq<Component>) {
    FieldsMatch(fields, components) && ComponentsWellFormed(components)
  }

  ghost function Enc(ty: Type, v: Value): Option<Bytes>
    requires Encodable(v, ty)
    decreases ty, 1, 0
  {
    match ty
    case BooleanType => Some([if v.b then 0xFF else 0])
    case NullType => Some([])
    case IntegerType(bounds, extensible) => EncInteger(v.i, bounds, extensible)
    case OctetStringType(size) => EncOctetString(v.octets, size)
    case BitStringType(size) => EncBitString(v.bits, size)
    case EnumeratedType(discriminants) => EncEnumerated(discriminants[v.index])
    case SequenceType(_, _, _) => EncSequence(ty, v)
    case SequenceOfType(element) => Append(EncQuantity(|v.items|), EncItems(element, v.items))
    case ChoiceType(alternatives) =>
      var a := alternatives[v.chosen];
      var inner := Enc(a.ty, v.inner);
      Append(Some(EncTag(a.tag)), if a.extension then EncOpen(inner) else inner)
  }

  /** Preamble, root components, and the bitmap and open types of the extension additions (clause 16). */
  ghost function EncSequence(ty: Type, v: Value): Option<Bytes>
    requires ty.SequenceType? && Encodable(v, ty)
    decreases ty, 0, 0
  {
    FieldsLength(v.root, ty.root);
    Append(Some(PackBits(Preamble(ty, v))), Append(EncFields(ty.root, v.root), EncExtension(ty, v)))
  }

  ghost function EncExtension(ty: Type, v: Value): Option<Bytes>
    requires ty.SequenceType? && Encodable(v, ty)
    decreases ty.additions, 1, 0
  {
    if AnyAddition(v.additions)
    then Append(EncBitmap(AdditionBits(v.additions)), EncAdditions(ty.additions, v.additions))
    else Some([])
  }

  ghost function EncFields(components: seq<Component>, fields: seq<Option<Value>>): Option<Bytes>
    requires FieldsEncodable(fields, components)
    decreases components, 0, 0
  {
    if components == [] then Some([])
    else Append(EncField(components[0], fields[0]), EncFields(components[1..], fields[1..]))
  }

  ghost function EncField(c: Component, field: Option<Value>): Option<Bytes>
    requires ComponentWellFormed(c) && FieldMatches(field, c)
    decreases c, 0, 0
  {
    if Omitted(c, field) then Some([]) else Enc(c.ty, field.value)
  }

  /** Each present addition as an open type. */
  ghost function EncAdditions(components: seq<Component>, fields: seq<Option<Value>>): Option<Bytes>
    requires FieldsEncodable(fields, components)
    decreases components, 0, 0
  {
    if components == [] then Some([])
    else Append(EncAddition(components[0], fields[0]), EncAdditions(components[1..], fields[1..]))
  }

  ghost function EncAddition(c: Component, field: Option<Value>): Option<Bytes>
    requires ComponentWellFormed(c) && FieldMatches(field, c)
    decreases c, 0, 0
  {
    if field.None? then Some([]) else EncOpen(Enc(c.ty, field.value))
  }

  ghost function EncItems(element: Type, items: seq<Value>): Option<Bytes>
    requires WellFormed(element) && forall i :: 0 <= i < |items| ==> Matches(items[i], element)
    decreases element, 2, |items|
  {
    if items == [] then Some([]) else Append(Enc(element, items[0]), EncItems(element, items[1..]))
  }
}
