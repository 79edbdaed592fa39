/** Which values the OER encoder accepts, and how long their encodings are, told from type and value alone. */
module OerSize {
  import opened Common
  import opened Bits
  import opened BigEndian
  import opened OerTypes
  import opened OerTag
  import opened OerEncode

  // ----- Widths of integers -----

  /** `i` is within the range of `k` octets, in two's complement if `signed`. */
  predicate FitsOctets(i: int, signed: bool, k: nat) {
    if signed then 0 <= 2 * i + Power256(k) && 2 * i < Power256(k) else 0 <= i < Power256(k)
  }

  lemma {:induction false} SignedBound(b: Bytes)
    requires b != []
    ensures FitsOctets(SignedValue(b), true, |b|)
  {
    if |b| == 1 {
      assert Power256(1) == 256 * Power256(0);
    } else {
      var front := b[..|b| - 1];
      SignedBound(front);
      var half := 128 * Power256(|b| - 2);
      assert Power256(|b| - 1) == 2 * half && Power256(|b|) == 512 * half;
      OneOctetMore(SignedValue(front), half, b[|b| - 1]);
    }
  }

  lemma OneOctetMore(i: int, half: nat, x: Byte)
    requires 0 <= i + half && i < half
    ensures 0 <= (256 * i + x) + 256 * half && 256 * i + x < 256 * half
  {
  }

  lemma {:induction false} PowerMonotone(j: nat, k: nat)
    requires j <= k
    ensures Power256(j) <= Power256(k)
  {
    if j < k {
      PowerMonotone(j, k - 1);
    }
  }

  /** The minimal form takes at most `k` octets exactly if the number is in their range. */
  lemma IntegerWidth(i: int, signed: bool, k: nat)
    requires k > 0 && (!signed ==> i >= 0)
    ensures |IntegerBytes(i, signed)| <= k <==> FitsOctets(i, signed, k)
  {
    hide Power256, UnsignedBytes, SignedBytes, UnsignedValue, SignedValue;
    if !signed {
      UnsignedLength(i, k);
    } else if FitsOctets(i, signed, k) {
      SignedLength(i, k);
    } else if |SignedBytes(i)| <= k {
      SignedRoundTrip(i);
      SignedBound(SignedBytes(i));
      PowerMonotone(|SignedBytes(i)|, k);
    }
  }

  function LengthWidth(n: nat): nat {
    if n < 128 then 1 else 1 + |UnsignedBytes(n)|
  }

  /** A length determinant and that many octets. */
  function OpenWidth(n: nat): nat {
    LengthWidth(n) + n
  }

  lemma OpenSize(contents: Bytes)
    ensures EncOpen(Some(contents)).Some? <==> |contents| < TWO_64
    ensures |contents| < TWO_64 ==> |EncOpen(Some(contents)).value| == OpenWidth(|contents|)
  {
    hide UnsignedBytes;
    UsizeLength(|contents|);
  }

  // ----- Values -----

  predicate IntegerWritable(i: int, bounds: Option<Bounds>, extensible: bool) {
    var (signed, octets) := Form(bounds, extensible);
    && (InBounds(i, bounds) || extensible)
    && FitsOctets(i, signed, if octets.Some? then octets.value else TWO_64 - 1)
  }

  function IntegerSize(i: int, bounds: Option<Bounds>, extensible: bool): nat {
    var (signed, octets) := Form(bounds, extensible);
    if octets.Some? then octets.value
    else if signed || i >= 0 then OpenWidth(|IntegerBytes(i, signed)|)
    else 0
  }

  predicate StringWritable(n: nat, size: Size, checked: bool) {
    match size
    case Fixed(k) => n == k
    case AnySize => n <= MAX_PERMITTED_LENGTH
    case Ranged(least, most) => n <= MAX_PERMITTED_LENGTH && (checked ==> least <= n <= most)
  }

  /** The encoder accepts `v`: bounds, widths, sizes and lengths are respected everywhere. */
  ghost predicate Writable(ty: Type, v: Value)
    requires Encodable(v, ty)
    decreases ty, 1, 0
  {
    match ty
    case IntegerType(bounds, extensible) => IntegerWritable(v.i, bounds, extensible)
    case OctetStringType(size) => StringWritable(|v.octets|, size, true)
    case BitStringType(size) => StringWritable(|v.bits|, size, false)
    case SequenceType(root, _, additions) => FieldsWritable(root, v.root) && AdditionsWritable(additions, v.additions)
    case SequenceOfType(element) => |v.items| < TWO_64 && forall i :: 0 <= i < |v.items| ==> Writable(element, v.items[i])
    case ChoiceType(alternatives) =>
      var a := alternatives[v.chosen];
      Writable(a.ty, v.inner) && (a.extension ==> EncodedSize(a.ty, v.inner) < TWO_64)
    case _ => true
  }

  ghost predicate FieldsWritable(components: seq<Component>, fields: seq<Option<Value>>)
    requires FieldsEncodable(fields, components)
    decreases components, 0, 0
  {
    components != [] ==> FieldWritable(components[0], fields[0]) && FieldsWritable(components[1..], fields[1..])
  }

  ghost predicate FieldWritable(c: Component, field: Option<Value>)
    requires ComponentWellFormed(c) && FieldMatches(field, c)
    decreases c, 0, 0
  {
    !Omitted(c, field) ==> Writable(c.ty, field.value)
  }

  ghost predicate AdditionsWritable(components: seq<Component>, fields: seq<Option<Value>>)
    requires FieldsEncodable(fields, components)
    decreases components, 0, 0
  {
    components != [] ==> AdditionWritable(components[0], fields[0]) && AdditionsWritable(components[1..], fields[1..])
  }

  ghost predicate AdditionWritable(c: Component, field: Option<Value>)
    requires ComponentWellFormed(c) && FieldMatches(field, c)
    decreases c, 0, 0
  {
    field.Some? ==> Writable(c.ty, field.value) && EncodedSize(c.ty, field.value) < TWO_64
  }

  /** The number of octets of an encoding. */
  ghost function EncodedSize(ty: Type, v: Value): nat
    requires Encodable(v, ty)
    decreases ty, 1, 0
  {
    match ty
    case BooleanType => 1
    case NullType => 0
    case IntegerType(bounds, extensible) => IntegerSize(v.i, bounds, extensible)
    case OctetStringType(size) => if size.Fixed? then |v.octets| else OpenWidth(|v.octets|)
    case BitStringType(size) => if size.Fixed? then Octets(|v.bits|) else OpenWidth(1 + Octets(|v.bits|))
    case EnumeratedType(discriminants) =>
      var d := discriminants[v.index];
      if 0 <= d < 128 then 1 else 1 + |SignedBytes(d)|
    case SequenceType(root, extensible, additions) =>
      Octets(OptionalCount(root) + if extensible then 1 else 0) + FieldsSize(root, v.root) +
      if AnyAddition(v.additions) then OpenWidth(BitmapWidth(|additions|)) + AdditionsSize(additions, v.additions) else 0
    case SequenceOfType(element) => OpenWidth(|UnsignedBytes(|v.items|)|) + ItemsSize(element, v.items)
    case ChoiceType(alternatives) =>
      var a := alternatives[v.chosen];
      TagSize(a.tag.value) + if a.extension then OpenWidth(EncodedSize(a.ty, v.inner)) else EncodedSize(a.ty, v.inner)
  }

  ghost function FieldsSize(components: seq<Component>, fields: seq<Option<Value>>): nat
    requires FieldsEncodable(fields, components)
    decreases components, 0, 0
  {
    if components == [] then 0 else FieldSize(components[0], fields[0]) + FieldsSize(components[1..], fields[1..])
  }

  ghost function FieldSize(c: Component, field: Option<Value>): nat
    requires ComponentWellFormed(c) && FieldMatches(field, c)
    decreases c, 0, 0
  {
    if Omitted(c, field) then 0 else EncodedSize(c.ty, field.value)
  }

  ghost function AdditionsSize(components: seq<Component>, fields: seq<Option<Value>>): nat
    requires FieldsEncodable(fields, components)
    decreases components, 0, 0
  {
    if components == [] then 0 else AdditionSize(components[0], fields[0]) + AdditionsSize(components[1..], fields[1..])
  }

  ghost function AdditionSize(c: Component, field: Option<Value>): nat
    requires ComponentWellFormed(c) && FieldMatches(field, c)
    decreases c, 0, 0
  {
    if field.None? then 0 else OpenWidth(EncodedSize(c.ty, field.value))
  }

  ghost function ItemsSize(element: Type, items: seq<Value>): nat
    requires WellFormed(element) && forall i :: 0 <= i < |items| ==> Matches(items[i], element)
    decreases element, 2, |items|
  {
    if items == [] then 0 else EncodedSize(element, items[0]) + ItemsSize(element, items[1..])
  }

  // ----- The encoder accepts exactly these -----

  /** There is an encoding exactly if `writable`, and it has `size` octets. */
  ghost predicate Sized(b: Option<Bytes>, writable: bool, size: nat) {
    (b.Some? <==> writable) && (b.Some? ==> |b.value| == size)
  }

  lemma SizedAppend(a: Option<Bytes>, b: Option<Bytes>, writableA: bool, writableB: bool, sizeA: nat, sizeB: nat)
    requires Sized(a, writableA, sizeA) && Sized(b, writableB, sizeB)
    ensures Sized(Append(a, b), writableA && writableB, sizeA + sizeB)
  {
  }

  lemma SizedOpen(b: Option<Bytes>, writable: bool, size: nat)
    requires Sized(b, writable, size)
    ensures Sized(EncOpen(b), writable && size < TWO_64, OpenWidth(size))
  {
    hide OpenWidth;
    if b.Some? {
      OpenSize(b.value);
    }
  }

  lemma IntegerSized(i: int, bounds: Option<Bounds>, extensible: bool)
    ensures Sized(EncInteger(i, bounds, extensible), IntegerWritable(i, bounds, extensible), IntegerSize(i, bounds, extensible))
  {
    hide FitsOctets, OpenWidth, EncOpen, IntegerBytes, InBounds;
    var (signed, octets) := Form(bounds, extensible);
    if InBounds(i, bounds) || extensible {
      Unsigned(i, bounds, extensible);
      IntegerWidth(i, signed, if octets.Some? then octets.value else TWO_64 - 1);
      OpenSize(IntegerBytes(i, signed));
    }
  }

  /** An INTEGER encoded without sign is not negative. */
  lemma Unsigned(i: int, bounds: Option<Bounds>, extensible: bool)
    requires InBounds(i, bounds) || extensible
    ensures !Form(bounds, extensible).0 ==> i >= 0
  {
  }

  lemma StringsSized(ty: Type, v: Value)
    requires (ty.OctetStringType? || ty.BitStringType?) && Encodable(v, ty)
    ensures Sized(Enc(ty, v), Writable(ty, v), EncodedSize(ty, v))
  {
    hide OpenWidth, EncOpen, PackBits;
    if ty.OctetStringType? {
      OpenSize(v.octets);
    } else {
      OpenSize([Missing(|v.bits|)] + PackBits(v.bits));
    }
  }

  lemma EnumeratedSized(ty: Type, v: Value)
    requires ty.EnumeratedType? && Encodable(v, ty)
    ensures Sized(Enc(ty, v), Writable(ty, v), EncodedSize(ty, v))
  {
    hide SignedBytes;
    EightOctets();
    SignedLength(ty.discriminants[v.index], 8);
  }

  lemma {:induction false} FieldsSized(components: seq<Component>, fields: seq<Option<Value>>)
    requires FieldsEncodable(fields, components)
    ensures Sized(EncFields(components, fields), FieldsWritable(components, fields), FieldsSize(components, fields))
    decreases components, 0, 0
  {
    hide EncField, FieldWritable, FieldSize, FieldMatches, ComponentWellFormed, Sized, Append;
    if components == [] {
      NothingSized();
    } else {
      FieldSized(components[0], fields[0]);
      FieldsSized(components[1..], fields[1..]);
      SizedAppend(EncField(components[0], fields[0]), EncFields(components[1..], fields[1..]),
                  FieldWritable(components[0], fields[0]), FieldsWritable(components[1..], fields[1..]),
                  FieldSize(components[0], fields[0]), FieldsSize(components[1..], fields[1..]));
    }
  }

  lemma NothingSized()
    ensures Sized(Some([]), true, 0)
  {
  }

  lemma {:induction false} FieldSized(c: Component, field: Option<Value>)
    requires ComponentWellFormed(c) && FieldMatches(field, c)
    ensures Sized(EncField(c, field), FieldWritable(c, field), FieldSize(c, field))
    decreases c, 0, 0
  {
    hide Enc, Writable, EncodedSize, Matches, WellFormed;
    if !Omitted(c, field) {
      ValueSized(c.ty, field.value);
    }
  }

  lemma {:induction false} AdditionsSized(components: seq<Component>, fields: seq<Option<Value>>)
    requires FieldsEncodable(fields, components)
    ensures Sized(EncAdditions(components, fields), AdditionsWritable(components, fields), AdditionsSize(components, fields))
    decreases components, 0, 0
  {
    hide EncAddition, AdditionWritable, AdditionSize, FieldMatches, ComponentWellFormed, Sized, Append;
    if components == [] {
      NothingSized();
    } else {
      AdditionSized(components[0], fields[0]);
      AdditionsSized(components[1..], fields[1..]);
      SizedAppend(EncAddition(components[0], fields[0]), EncAdditions(components[1..], fields[1..]),
                  AdditionWritable(components[0], fields[0]), AdditionsWritable(components[1..], fields[1..]),
                  AdditionSize(components[0], fields[0]), AdditionsSize(components[1..], fields[1..]));
    }
  }

  lemma {:induction false} AdditionSized(c: Component, field: Option<Value>)
    requires ComponentWellFormed(c) && FieldMatches(field, c)
    ensures Sized(EncAddition(c, field), AdditionWritable(c, field), AdditionSize(c, field))
    decreases c, 0, 0
  {
    hide Enc, Writable, EncodedSize, Matches, WellFormed, EncOpen, OpenWidth;
    if field.Some? {
      ValueSized(c.ty, field.value);
      SizedOpen(Enc(c.ty, field.value), Writable(c.ty, field.value), EncodedSize(c.ty, field.value));
    }
  }

  lemma {:induction false} NoneWritable(components: seq<Component>, fields: seq<Option<Value>>)
    requires FieldsEncodable(fields, components) && |fields| == |components| && !AnyAddition(fields)
    ensures AdditionsWritable(components, fields)
  {
    hide Writable;
    if components != [] {
      assert forall i :: 0 <= i < |fields[1..]| ==> fields[1..][i] == fields[i + 1];
      NoneWritable(components[1..], fields[1..]);
    }
  }

  lemma {:induction false} ExtensionSized(ty: Type, v: Value)
    requires ty.SequenceType? && Encodable(v, ty)
    ensures Sized(EncExtension(ty, v), AdditionsWritable(ty.additions, v.additions),
                  if AnyAddition(v.additions)
                  then OpenWidth(BitmapWidth(|ty.additions|)) + AdditionsSize(ty.additions, v.additions) else 0)
    decreases ty.additions, 1, 0
  {
    hide AdditionsWritable, EncAdditions, AdditionsSize, OpenWidth, EncOpen, PackBits, AnyAddition;
    FieldsLength(v.additions, ty.additions);
    if AnyAddition(v.additions) {
      AdditionsSized(ty.additions, v.additions);
      OpenSize([Missing(|v.additions|)] + PackBits(AdditionBits(v.additions)));
    } else {
      NoneWritable(ty.additions, v.additions);
    }
  }

  lemma {:induction false} SequenceSized(ty: Type, v: Value)
    requires ty.SequenceType? && Encodable(v, ty)
    ensures Sized(Enc(ty, v), Writable(ty, v), EncodedSize(ty, v))
    decreases ty, 0, 0
  {
    hide FieldsWritable, EncFields, FieldsSize, EncExtension, AdditionsWritable, AdditionsSize, OpenWidth, AnyAddition;
    FieldsLength(v.root, ty.root);
    FieldsSized(ty.root, v.root);
    ExtensionSized(ty, v);
    assert |PackBits(Preamble(ty, v))| == Octets(OptionalCount(ty.root) + if ty.extensible then 1 else 0);
    assert Enc(ty, v) == EncSequence(ty, v);
  }

  lemma {:induction false} ItemsSized(element: Type, items: seq<Value>)
    requires WellFormed(element) && forall i :: 0 <= i < |items| ==> Matches(items[i], element)
    ensures Sized(EncItems(element, items), forall i :: 0 <= i < |items| ==> Writable(element, items[i]), ItemsSize(element, items))
    decreases element, 2, |items|
  {
    hide Enc, Writable, EncodedSize, Matches, WellFormed;
    if items != [] {
      ValueSized(element, items[0]);
      ItemsSized(element, items[1..]);
      assert forall i :: 1 <= i < |items| ==> items[1..][i - 1] == items[i];
    }
  }

  lemma {:induction false} SequenceOfSized(ty: Type, v: Value)
    requires ty.SequenceOfType? && Encodable(v, ty)
    ensures Sized(Enc(ty, v), Writable(ty, v), EncodedSize(ty, v))
    decreases ty, 0, 0
  {
    hide EncItems, ItemsSize, OpenWidth, EncOpen, UnsignedBytes;
    ItemsSized(ty.element, v.items);
    UsizeLength(|v.items|);
    OpenSize(UnsignedBytes(|v.items|));
  }

  lemma {:induction false} ChoiceSized(ty: Type, v: Value)
    requires ty.ChoiceType? && Encodable(v, ty)
    ensures Sized(Enc(ty, v), Writable(ty, v), EncodedSize(ty, v))
    decreases ty, 0, 0
  {
    hide OpenWidth, EncOpen, EncTag, TagSize;
    var a := ty.alternatives[v.chosen];
    ValueSized(a.ty, v.inner);
    SizedOpen(Enc(a.ty, v.inner), Writable(a.ty, v.inner), EncodedSize(a.ty, v.inner));
  }

  /** The encoder accepts a value exactly if it is writable, and its encoding has the computed size. */
  lemma {:induction false} ValueSized(ty: Type, v: Value)
    requires Encodable(v, ty)
    ensures Sized(Enc(ty, v), Writable(ty, v), EncodedSize(ty, v))
    decreases ty, 1, 0
  {
    match ty
    case IntegerType(bounds, extensible) => IntegerSized(v.i, bounds, extensible);
    case OctetStringType(_) => StringsSized(ty, v);
    case BitStringType(_) => StringsSized(ty, v);
    case EnumeratedType(_) => EnumeratedSized(ty, v);
    case SequenceType(_, _, _) => SequenceSized(ty, v);
    case SequenceOfType(_) => SequenceOfSized(ty, v);
    case ChoiceType(_) => ChoiceSized(ty, v);
    case _ =>
  }

  /** INTEGER (-1..200): the width follows the magnitudes, so the value 200 within bounds is refused. */
  lemma MagnitudeWidth()
    ensures var bounds := Some(Bounds(Some(-1), Some(200)));
            InBounds(200, bounds) && Form(bounds, false) == (true, Some(1)) && EncInteger(200, bounds, false) == None
  {
    var bounds := Some(Bounds(Some(-1), Some(200)));
    IntegerSized(200, bounds, false);
    assert Power256(1) == 256 * Power256(0);
  }

  /** Exactly when a value within two-sided bounds is refused: its sign bit does not fit the width. */
  lemma WidthRefuses(i: int, start: int, end: int)
    requires start <= i <= end && OctetsForMagnitude(Max(Abs(start), Abs(end))).Some?
    ensures var k := OctetsForMagnitude(Max(Abs(start), Abs(end))).value;
            EncInteger(i, Some(Bounds(Some(start), Some(end))), false).None? <==>
            start < 0 && !(0 <= 2 * i + Power256(k) && 2 * i < Power256(k))
  {
    hide Power256;
    var bounds := Some(Bounds(Some(start), Some(end)));
    var k := OctetsForMagnitude(Max(Abs(start), Abs(end))).value;
    IntegerSized(i, bounds, false);
    if start >= 0 {
      Magnitudes();
    }
  }

  lemma Magnitudes()
    ensures Power256(1) == 0x100 && Power256(2) == 0x1_0000 && Power256(4) == 0x1_0000_0000 && Power256(8) == TWO_64
  {
    EightOctets();
    assert Power256(2) == 65536;
    assert Power256(4) == 65536 * Power256(2);
  }
}
