/**
 The OER decoder: it advances its input, and decodes a SEQUENCE, a SEQUENCE OF or an open type with a
 further decoder one level deeper. Each method refines the decoding function of the same name.
 */
module OerDecoder {
  import opened Common
  import opened Bits
  import opened BigEndian
  import opened OerTypes
  import opened OerEncode
  import opened Decoding
  import opened OerDecode

  /** A result for the first elements of a list in front of a result for the others. */
  function Prepend<T>(done: seq<T>, r: Decoded<seq<T>>): Decoded<seq<T>> {
    if r.Err? then Err else Ok(done + r.value, r.rest)
  }

  lemma PrependNothing<T>(r: Decoded<seq<T>>)
    ensures Prepend([], r) == r
  {
    assert r.Ok? ==> [] + r.value == r.value;
  }

  lemma PrependLast<T>(done: seq<T>, rest: Bytes)
    ensures Prepend(done, Ok([], rest)) == Ok(done, rest) && Prepend(done, Err) == Err
  {
    assert done + [] == done;
  }

  lemma PrependMore<T>(done: seq<T>, x: T, r: Decoded<seq<T>>)
    ensures Prepend(done, Prepend([x], r)) == Prepend(done + [x], r)
  {
    assert r.Ok? ==> done + ([x] + r.value) == done + [x] + r.value;
  }

  /** What is known of the extension additions: there are none, their bitmap is next, or it was read. */
  datatype Extensions = NotPresent | Pending | Read(present: seq<bool>, index: nat)

  lemma {:induction false} ItemsStep(element: Type, n: nat, s: Bytes, coer: bool, depth: nat)
    requires n > 0
    ensures var first := Dec(element, s, coer, depth);
            DecItems(element, n, s, coer, depth) ==
            if first.Err? then Err else Prepend([first.value], DecItems(element, n - 1, first.rest, coer, depth))
  {
    hide Dec;
  }

  lemma {:induction false} FieldsStep(components: seq<Component>, i: nat, bits: seq<bool>, s: Bytes, coer: bool, depth: nat)
    requires i < |components| && |bits| == OptionalCount(components[i..])
    ensures var c := components[i];
            var more := if IsOptional(c) then 1 else 0;
            && |bits| >= more && |bits[more..]| == OptionalCount(components[i + 1..])
            && var first := DecField(c, IsOptional(c) ==> bits[0], s, coer, depth);
               DecFields(components[i..], bits, s, coer, depth) ==
               if first.Err? then Err
               else Prepend([first.value], DecFields(components[i + 1..], bits[more..], first.rest, coer, depth))
  {
    hide DecField;
    assert components[i..][1..] == components[i + 1..];
  }

  function KnownIf(c: Component, bit: bool): Option<Tag> {
    if bit then Some(KnownTag(c)) else None
  }

  /** The OPTIONAL and DEFAULT components, each with its tag if it is present. */
  function PresentTags(components: seq<Component>, bits: seq<bool>): (tags: seq<Option<Tag>>)
    requires |bits| == OptionalCount(components)
    ensures |tags| == |bits|
  {
    if components == [] then []
    else if IsOptional(components[0]) then [KnownIf(components[0], bits[0])] + PresentTags(components[1..], bits[1..])
    else PresentTags(components[1..], bits)
  }

  lemma {:induction false} TagsStep(components: seq<Component>, i: nat, bits: seq<bool>)
    requires i < |components| && |bits| == OptionalCount(components[i..])
    ensures var c := components[i];
            var more := if IsOptional(c) then 1 else 0;
            && |bits| >= more && |bits[more..]| == OptionalCount(components[i + 1..])
            && (IsOptional(c) ==> PresentTags(components[i..], bits)[0] == KnownIf(c, bits[0]))
            && PresentTags(components[i..], bits)[more..] == PresentTags(components[i + 1..], bits[more..])
  {
    assert components[i..][1..] == components[i + 1..];
  }

  lemma NoFields(components: seq<Component>, bits: seq<bool>, s: Bytes, coer: bool, depth: nat)
    requires components == [] && |bits| == OptionalCount(components)
    ensures DecFields(components, bits, s, coer, depth) == Ok([], s)
  {
  }

  lemma NoAdditionsLeft(additions: seq<Component>, bits: seq<bool>, s: Bytes, coer: bool, depth: nat)
    requires additions == [] && bits == []
    ensures DecAdditions(additions, bits, s, coer, depth) == Ok([], s)
  {
  }

  lemma NoItems(element: Type, s: Bytes, coer: bool, depth: nat)
    ensures DecItems(element, 0, s, coer, depth) == Ok([], s)
  {
  }

  lemma {:induction false} AdditionsStep(additions: seq<Component>, bits: seq<bool>, i: nat, s: Bytes, coer: bool, depth: nat)
    requires i < |additions| == |bits|
    ensures var first := DecAddition(additions[i], bits[i], s, coer, depth);
            DecAdditions(additions[i..], bits[i..], s, coer, depth) ==
            if first.Err? then Err
            else Prepend([first.value], DecAdditions(additions[i + 1..], bits[i + 1..], first.rest, coer, depth))
  {
    hide DecAddition;
    assert additions[i..][1..] == additions[i + 1..] && bits[i..][1..] == bits[i + 1..];
  }

  lemma BitsOfMore(bytes: Bytes, n: nat)
    requires n < 8 * |bytes|
    ensures BitsOf(bytes, n + 1) == BitsOf(bytes, n) + [BitAt(bytes[n / 8], n % 8)]
  {
    hide BitAt;
  }

  lemma NoBits(bytes: Bytes)
    ensures BitsOf(bytes, 0) == []
  {
  }

  method ZeroPadding(bytes: Bytes, width: nat) returns (clear: bool)
    ensures clear == ZeroFrom(bytes, width)
  {
    hide BitAt;
    var i := width;
    while i < 8 * |bytes|
      invariant forall k :: width <= k < i && k < 8 * |bytes| ==> !BitAt(bytes[k / 8], k % 8)
    {
      if BitAt(bytes[i / 8], i % 8) {
        return false;
      }
      i := i + 1;
    }
    return true;
  }

  class Decoder {
    var input: Bytes
    const coer: bool
    var depth: nat
    var fields: seq<Option<Tag>>
    var index: nat
    var extensions: Extensions

    constructor (input: Bytes, coer: bool, depth: nat)
      ensures this.input == input && this.coer == coer && this.depth == depth
      ensures fields == [] && index == 0 && extensions == NotPresent
    {
      this.input := input;
      this.coer := coer;
      this.depth := depth;
      fields := [];
      index := 0;
      extensions := NotPresent;
    }

    // ----- Octets and lengths -----

    method ParseOneByte() returns (r: Option<Byte>)
      modifies this`input
      ensures Refines(DecByte(old(input)), r, input)
    {
      if input == [] {
        return None;
      }
      r := Some(input[0]);
      input := input[1..];
    }

    method ExtractDataByLength(n: nat) returns (r: Option<Bytes>)
      modifies this`input
      ensures Refines(Take(old(input), n), r, input)
      ensures r.Some? ==> |r.value| == n
    {
      if n == 0 {
        assert input[..0] == [] && input[0..] == input;
        return Some([]);
      }
      if n > |input| {
        return None;
      }
      r := Some(input[..n]);
      input := input[n..];
    }

    method DecodeLength() returns (r: Option<nat>)
      modifies this`input
      ensures Refines(DecLength(old(input), coer), r, input)
    {
      var first := ParseOneByte();
      if first.None? || first.value < 128 {
        return first;
      }
      var length := first.value - 128;
      if length == 0 {
        return None;
      }
      var data := ExtractDataByLength(length);
      if data.None? || (coer && data.value[0] == 0) {
        return None;
      }
      r := Usize(data.value);
      if r.Some? && r.value < 128 && coer {
        return None;
      }
    }

    method DecodeOpen() returns (r: Option<Bytes>)
      modifies this`input
      ensures Refines(DecOpen(old(input), coer), r, input)
    {
      hide DecLength;
      var n := DecodeLength();
      if n.None? {
        return None;
      }
      r := ExtractDataByLength(n.value);
    }

    // ----- Primitive types -----

    method DecodeIntegerFromBytes(signed: bool, length: Option<nat>) returns (r: Option<int>)
      modifies this`input
      ensures Refines(DecIntegerBytes(old(input), signed, length, coer), r, input)
    {
      hide DecLength, SignedValue, UnsignedValue;
      var finalLength := length;
      if length.None? {
        finalLength := DecodeLength();
        if finalLength.None? {
          return None;
        }
      }
      var data := ExtractDataByLength(finalLength.value);
      if data.None? || data.value == [] {
        return None;
      }
      if coer && !signed && data.value[0] == 0 && length.None? {
        return None;
      }
      r := Some(if signed then SignedValue(data.value) else UnsignedValue(data.value));
    }

    method DecodeIntegerWithConstraints(bounds: Option<Bounds>, extensible: bool) returns (r: Option<Value>)
      modifies this`input
      ensures Refines(DecInteger(old(input), bounds, extensible, coer), r, input)
    {
      hide DecIntegerBytes;
      var (signed, octets) := Form(bounds, extensible);
      var i := DecodeIntegerFromBytes(signed, octets);
      if i.None? || !Admitted(i.value, bounds) {
        return None;
      }
      r := Some(IntegerValue(i.value));
    }

    method DecodeBool() returns (r: Option<Value>)
      modifies this`input
      ensures Refines(DecBoolean(old(input), coer), r, input)
    {
      var byte := ParseOneByte();
      if byte.None? {
        return None;
      }
      if byte.value == 0 {
        return Some(BooleanValue(false));
      } else if byte.value == 0xFF || !coer {
        return Some(BooleanValue(true));
      }
      return None;
    }

    method DecodeOctetString(size: Size) returns (r: Option<Value>)
      modifies this`input
      ensures Refines(DecOctetString(old(input), size, coer), r, input)
    {
      hide DecOpen, Take;
      var data;
      if size.Fixed? {
        data := ExtractDataByLength(size.n);
      } else {
        data := DecodeOpen();
      }
      if data.None? {
        return None;
      }
      r := Some(OctetStringValue(data.value));
    }

    method ParseBitString(size: Size) returns (r: Option<Value>)
      modifies this`input
      ensures Refines(DecBitString(old(input), size, coer), r, input)
    {
      hide DecLength, BitsOf;
      if size.Fixed? {
        var data := ExtractDataByLength(Octets(size.n));
        if data.None? {
          return None;
        }
        return Some(BitStringValue(BitsOf(data.value, size.n)));
      }
      var length := DecodeLength();
      if length.None? {
        return None;
      }
      if length.value == 0 {
        return Some(BitStringValue([]));
      }
      var unused := ParseOneByte();
      if unused.None? || (length.value == 1 && unused.value > 0) || unused.value > 7 {
        return None;
      }
      var bitLength := (length.value - 1) * 8;
      if bitLength >= TWO_64 {
        return None;
      }
      var data := ExtractDataByLength(length.value - 1);
      if data.None? {
        return None;
      }
      r := Some(BitStringValue(BitsOf(data.value, bitLength - unused.value)));
    }

    method DecodeEnumerated(discriminants: seq<int>) returns (r: Option<Value>)
      modifies this`input
      ensures Refines(DecEnumerated(old(input), discriminants, coer), r, input)
    {
      hide SignedValue, FindDiscriminant;
      var byte := ParseOneByte();
      if byte.None? {
        return None;
      }
      var d;
      if byte.value < 128 {
        d := byte.value;
      } else {
        var data := ExtractDataByLength(byte.value - 128);
        if data.None? || !(1 <= |data.value| <= 8) {
          return None;
        }
        d := SignedValue(data.value);
        if 0 <= d < 128 && coer {
          return None;
        }
      }
      var i := FindDiscriminant(discriminants, d);
      if i < |discriminants| {
        return Some(EnumeratedValue(i));
      }
      return None;
    }

    method ParseTag() returns (r: Option<Tag>)
      modifies this`input
      ensures Refines(DecTag(old(input)), r, input)
    {
      hide DecBase128;
      var first := ParseOneByte();
      if first.None? {
        return None;
      }
      var cls: Class := first.value / 64;
      if first.value % 64 != 63 {
        return Some(Tag(cls, first.value % 64));
      }
      ghost var start := input;
      Base128End(0);
      var tagNumber: U32 := 0;
      var next := ParseOneByte();
      if next.None? || next.value % 128 == 0 {
        return None;
      }
      assert start == [next.value] + input;
      while true
        invariant next.Some?
        invariant DecBase128(start, 0) == DecBase128([next.value] + input, tagNumber)
        decreases |input|
      {
        Base128Step(next.value, input, tagNumber);
        tagNumber := (tagNumber * 128) % TWO_32 + next.value % 128;
        if next.value < 128 {
          break;
        }
        Base128End(tagNumber);
        ghost var rest := input;
        next := ParseOneByte();
        if next.None? {
          return None;
        }
        assert rest == [next.value] + input;
      }
      r := Some(Tag(cls, tagNumber));
    }

    // ----- SEQUENCE -----

    /** Reads the presence bits of the root and the extension bit; the bits after them have to be zero. */
    method ParsePreamble(ty: Type) returns (r: Option<(seq<bool>, bool)>)
      requires ty.SequenceType?
      modifies this`input
      ensures r.Some? <==> DecPreamble(ty, old(input)).Ok?
      ensures r.Some? ==> input == DecPreamble(ty, old(input)).rest
      ensures r.Some? ==> DecPreamble(ty, old(input)).value == (if ty.extensible then [r.value.1] else []) + r.value.0
      ensures r.Some? && !ty.extensible ==> !r.value.1
    {
      hide BitAt, BitsOf, ZeroFrom, Take;
      var extension := if ty.extensible then 1 else 0;
      var width := OptionalCount(ty.root) + extension;
      var data := ExtractDataByLength(Octets(width));
      if data.None? {
        return None;
      }
      var bytes := data.value;
      assert Take(old(input), Octets(width)) == Ok(bytes, input);
      var result, extended := [], false;
      for i := 0 to width
        invariant i == 0 ==> result == [] && !extended
        invariant i > 0 ==> (if ty.extensible then [extended] else []) + result == BitsOf(bytes, i)
        invariant !ty.extensible ==> !extended
        invariant Take(old(input), Octets(width)) == Ok(bytes, input)
      {
        var isSet := BitAt(bytes[i / 8], i % 8);
        BitsOfMore(bytes, i);
        NoBits(bytes);
        if i == 0 && ty.extensible {
          extended := isSet;
        } else {
          result := result + [isSet];
        }
      }
      NoBits(bytes);
      var clear := ZeroPadding(bytes, width);
      if !clear {
        return None;
      }
      r := Some((result, extended));
    }

    /** Whether the next OPTIONAL or DEFAULT root component is present; it has to have the tag asked for. */
    method RequireField(tag: Tag) returns (r: Option<bool>)
      modifies this`index
      ensures old(index) >= |fields| ==> r == None && index == old(index)
      ensures old(index) < |fields| ==>
        var field := fields[old(index)];
        && index == old(index) + 1
        && r == if field.None? then Some(false) else if field.value == tag then Some(true) else None
    {
      if index >= |fields| {
        return None;
      }
      var field := fields[index];
      index := index + 1;
      if field.None? {
        return Some(false);
      }
      return if field.value == tag then Some(true) else None;
    }

    method DecodeField(c: Component, ghost bit: bool) returns (r: Option<Option<Value>>)
      requires IsOptional(c) ==> index < |fields| && fields[index] == KnownIf(c, bit)
      modifies this`input, this`depth, this`index
      ensures Refines(DecField(c, IsOptional(c) ==> bit, old(input), coer, old(depth)), r, input)
      ensures depth == old(depth) && index == old(index) + if IsOptional(c) then 1 else 0
      decreases c, 0, 0
    {
      hide Dec;
      if IsOptional(c) {
        var present := RequireField(AskedTag(c));
        if present.None? {
          return None;
        }
        if !present.value {
          return Some(Absent(c));
        }
      }
      var v := Decode(c.ty);
      r := if v.None? then None else Some(v);
    }

    method DecodeFields(components: seq<Component>, ghost bits: seq<bool>) returns (r: Option<seq<Option<Value>>>)
      requires |bits| == OptionalCount(components) && fields == PresentTags(components, bits) && index == 0
      modifies this`input, this`depth, this`index
      ensures Refines(DecFields(components, bits, old(input), coer, old(depth)), r, input) && depth == old(depth)
      decreases components, 0, 0
    {
      hide DecFields, DecField, OptionalCount, PresentTags;
      var done := [];
      ghost var whole := DecFields(components, bits, input, coer, depth);
      PrependNothing(whole);
      assert components[0..] == components && bits[0..] == bits && fields[0..] == fields;
      for i := 0 to |components|
        invariant depth == old(depth) && index <= |bits| == |fields| && |bits[index..]| == OptionalCount(components[i..])
        invariant fields[index..] == PresentTags(components[i..], bits[index..])
        invariant whole == Prepend(done, DecFields(components[i..], bits[index..], input, coer, depth))
      {
        var c := components[i];
        FieldsStep(components, i, bits[index..], input, coer, depth);
        TagsStep(components, i, bits[index..]);
        ghost var more := if IsOptional(c) then 1 else 0;
        assert bits[index..][more..] == bits[index + more..] && fields[index..][more..] == fields[index + more..];
        var field := DecodeField(c, IsOptional(c) ==> bits[index]);
        if field.None? {
          return None;
        }
        PrependMore(done, field.value, DecFields(components[i + 1..], bits[index..], input, coer, depth));
        done := done + [field.value];
      }
      NoFields(components[|components|..], bits[index..], input, coer, depth);
      assert done + [] == done;
      r := Some(done);
    }

    /** Reads the extension bitmap when the first addition is decoded. */
    method ParseExtensionHeader(additions: seq<Component>) returns (r: Option<bool>)
      modifies this`input, this`extensions
      ensures old(extensions).NotPresent? ==> r == Some(false) && input == old(input) && extensions == old(extensions)
      ensures old(extensions).Read? ==> r == Some(true) && input == old(input) && extensions == old(extensions)
      ensures old(extensions).Pending? ==>
        var bits := DecBitmap(old(input), additions, coer);
        if bits.Err? then r.None? else r == Some(true) && input == bits.rest && extensions == Read(bits.value, 0)
    {
      hide DecOpen, BitAt;
      match extensions
      case Read(_, _) => return Some(true);
      case NotPresent => return Some(false);
      case Pending =>
        var data := DecodeOpen();
        if data.None? || data.value == [] {
          return None;
        }
        var unused, bitfield := data.value[0], data.value[1..];
        if unused > 7 || unused > 8 * |bitfield| {
          return None;
        }
        var present := [];
        for i := 0 to |additions|
          invariant |present| == i
          invariant forall k :: 0 <= k < i ==> present[k] == BitmapBits(bitfield, |additions|)[k]
          invariant forall k :: 0 <= k < i ==> IsOptional(additions[k]) || present[k]
        {
          var isSet := i / 8 < |bitfield| && BitAt(bitfield[i / 8], i % 8);
          if !IsOptional(additions[i]) && !isSet {
            assert !BitmapBits(bitfield, |additions|)[i];
            return None;
          }
          present := present + [isSet];
        }
        assert present == BitmapBits(bitfield, |additions|);
        extensions := Read(present, 0);
        r := Some(true);
    }

    method ExtensionIsPresent() returns (present: bool)
      requires extensions.Read? && extensions.index < |extensions.present|
      modifies this`extensions
      ensures present == old(extensions).present[old(extensions).index]
      ensures extensions == old(extensions).(index := old(extensions).index + 1)
    {
      present := extensions.present[extensions.index];
      extensions := extensions.(index := extensions.index + 1);
    }

    /** An open type, decoded by a decoder of its own. */
    method DecodeContained(ty: Type, depth: nat) returns (r: Option<Value>)
      modifies this`input
      ensures Refines(DecContained(ty, old(input), coer, depth), r, input)
      decreases ty, 2, 0
    {
      hide DecOpen, Dec;
      var data := DecodeOpen();
      if data.None? {
        return None;
      }
      var decoder := new Decoder(data.value, coer, depth);
      r := decoder.Decode(ty);
    }

    /** The value of an addition, or that it is absent, which only an optional one may be. */
    method DecodeExtensionAddition(c: Component, additions: seq<Component>) returns (r: Option<Option<Value>>)
      requires extensions.Read? ==> extensions.index < |extensions.present|
      requires additions != []
      modifies this`input, this`extensions
      ensures old(extensions).NotPresent? ==>
        input == old(input) && extensions == NotPresent && r == if IsOptional(c) then Some(Absent(c)) else None
      ensures old(extensions).Read? ==>
        && extensions == old(extensions).(index := old(extensions).index + 1)
        && Refines(DecAddition(c, old(extensions).present[old(extensions).index], old(input), coer, depth), r, input)
      ensures old(extensions).Pending? ==>
        var bits := DecBitmap(old(input), additions, coer);
        if bits.Err? then r.None?
        else extensions == Read(bits.value, 1) && Refines(DecAddition(c, bits.value[0], bits.rest, coer, depth), r, input)
      decreases c, 0, 0
    {
      hide DecBitmap, DecContained;
      var header := ParseExtensionHeader(additions);
      if header.None? {
        return None;
      }
      if !header.value {
        return if IsOptional(c) then Some(Absent(c)) else None;
      }
      var present := ExtensionIsPresent();
      if !present {
        return Some(Absent(c));
      }
      var v := DecodeContained(c.ty, depth);
      r := if v.None? then None else Some(v);
    }

    method DecodeExtensionAdditions(additions: seq<Component>) returns (r: Option<seq<Option<Value>>>)
      requires !extensions.Read?
      modifies this`input, this`extensions
      ensures Refines(DecExtension(additions, old(extensions).Pending?, old(input), coer, depth), r, input)
      decreases additions, 0, 0
    {
      hide DecBitmap, DecAddition, DecAdditions, IsOptional;
      var done := [];
      ghost var start := input;
      ghost var whole := DecExtension(additions, extensions.Pending?, input, coer, depth);
      if extensions.NotPresent? {
        for i := 0 to |additions|
          invariant input == start && extensions == NotPresent && |done| == i
          invariant forall k :: 0 <= k < i ==> IsOptional(additions[k]) && done[k] == Absent(additions[k])
        {
          var field := DecodeExtensionAddition(additions[i], additions);
          if field.None? {
            return None;
          }
          done := done + [field.value];
        }
        assert done == Initial(additions);
        return Some(done);
      }
      for i := 0 to |additions|
        invariant i == 0 ==> done == [] && extensions == Pending && input == start
        invariant i > 0 ==>
          && extensions.Read? && extensions.index == i && |extensions.present| == |additions|
          && whole == Prepend(done, DecAdditions(additions[i..], extensions.present[i..], input, coer, depth))
      {
        ghost var before := input;
        if i > 0 {
          AdditionsStep(additions, extensions.present, i, input, coer, depth);
        } else if DecBitmap(input, additions, coer).Ok? {
          ghost var bits := DecBitmap(input, additions, coer);
          AdditionsStep(additions, bits.value, 0, bits.rest, coer, depth);
          PrependNothing(DecAdditions(additions, bits.value, bits.rest, coer, depth));
          assert additions[0..] == additions && bits.value[0..] == bits.value;
        }
        var field := DecodeExtensionAddition(additions[i], additions);
        if field.None? {
          return None;
        }
        PrependMore(done, field.value, DecAdditions(additions[i + 1..], extensions.present[i + 1..], input, coer, depth));
        done := done + [field.value];
      }
      if additions != [] {
        NoAdditionsLeft(additions[|additions|..], extensions.present[|additions|..], input, coer, depth);
        assert done + [] == done;
      }
      r := Some(done);
    }

    method DecodeSequence(ty: Type) returns (r: Option<Value>)
      requires ty.SequenceType?
      modifies this`input
      ensures Refines(if depth == 0 then Err else DecSequence(ty, old(input), coer, depth - 1), r, input)
      decreases ty, 0, 0
    {
      hide DecPreamble, DecFields, DecExtension;
      if depth == 0 {
        return None;
      }
      if ty.root == [] || (AllOptional(ty.root) && input == []) {
        if AllOptional(ty.root) && AllOptional(ty.additions) {
          return Some(SequenceValue(Initial(ty.root), Initial(ty.additions)));
        }
        return None;
      }
      ghost var start := input;
      var preamble := ParsePreamble(ty);
      if preamble.None? {
        return None;
      }
      ghost var bits := DecPreamble(ty, start).value;
      assert ty.extensible ==> bits[0] == preamble.value.1 && bits[1..] == preamble.value.0;
      assert !ty.extensible ==> bits == preamble.value.0;
      var decoder := new Decoder(input, coer, depth - 1);
      decoder.fields := PresentTags(ty.root, preamble.value.0);
      decoder.extensions := if preamble.value.1 then Pending else NotPresent;
      var root := decoder.DecodeFields(ty.root, preamble.value.0);
      if root.None? {
        return None;
      }
      var additions := decoder.DecodeExtensionAdditions(ty.additions);
      if additions.None? {
        return None;
      }
      input := decoder.input;
      r := Some(SequenceValue(root.value, additions.value));
    }

    // ----- The other constructed types -----

    method DecodeSequenceOf(element: Type) returns (r: Option<Value>)
      modifies this`input
      ensures Refines(if depth == 0 then Err else DecSequenceOf(element, old(input), coer, depth - 1), r, input)
      decreases element, 3, 0
    {
      hide DecOpen, DecItems, UnsignedValue;
      if depth == 0 {
        return None;
      }
      var quantity := DecodeOpen();
      if quantity.None? || (coer && |quantity.value| > 1 && quantity.value[0] == 0) {
        return None;
      }
      var length := Usize(quantity.value);
      if length.None? {
        return None;
      }
      var items := DecodeElements(element, length.value);
      if items.None? {
        return None;
      }
      r := Some(SequenceOfValue(items.value));
    }

    method DecodeElements(element: Type, n: nat) returns (r: Option<seq<Value>>)
      requires depth > 0
      modifies this`input
      ensures Refines(DecItems(element, n, old(input), coer, depth - 1), r, input)
      decreases element, 2, 0
    {
      hide DecItems, Dec, Prepend;
      var items := [];
      var decoder := new Decoder(input, coer, depth - 1);
      ghost var whole := DecItems(element, n, input, coer, depth - 1);
      PrependNothing(whole);
      for i := 0 to n
        invariant decoder.input == input && decoder.depth == depth - 1
        invariant whole == Prepend(items, DecItems(element, n - i, input, coer, depth - 1))
      {
        ItemsStep(element, n - i, input, coer, depth - 1);
        PrependLast(items, input);
        var v := decoder.Decode(element);
        if v.None? {
          return None;
        }
        input := decoder.input;
        PrependMore(items, v.value, DecItems(element, n - i - 1, input, coer, depth - 1));
        items := items + [v.value];
      }
      NoItems(element, input, coer, depth - 1);
      PrependLast(items, input);
      r := Some(items);
    }

    method DecodeChoice(alternatives: seq<Alternative>) returns (r: Option<Value>)
      modifies this`input, this`depth
      ensures Refines(if old(depth) == 0 then Err else DecChoice(alternatives, old(input), coer, old(depth) - 1), r, input)
      ensures depth == old(depth)
      decreases alternatives, 0, 0
    {
      hide DecTag, DecAlternative;
      if depth == 0 {
        return None;
      }
      var tag := ParseTag();
      if tag.None? {
        return None;
      }
      var i := FindTag(alternatives, tag.value);
      if i == |alternatives| {
        return None;
      }
      var inner := DecodeAlternative(alternatives[i]);
      r := if inner.None? then None else Some(ChoiceValue(i, inner.value));
    }

    method DecodeAlternative(a: Alternative) returns (r: Option<Value>)
      requires depth > 0
      modifies this`input, this`depth
      ensures Refines(DecAlternative(a, old(input), coer, old(depth) - 1), r, input)
      ensures depth == old(depth)
      decreases a, 0, 0
    {
      hide Dec, DecContained;
      if a.extension {
        r := DecodeContained(a.ty, depth - 1);
      } else {
        depth := depth - 1;
        r := Decode(a.ty);
        depth := depth + 1;
      }
    }

    /** Decodes a value: the result and the input left are those of `Dec`, and the depth is restored. */
    method Decode(ty: Type) returns (r: Option<Value>)
      modifies this`input, this`depth
      ensures Refines(Dec(ty, old(input), coer, old(depth)), r, input)
      ensures depth == old(depth)
      decreases ty, 1, 0
    {
      hide DecBoolean, DecInteger, DecOctetString, DecBitString, DecEnumerated, DecSequence, DecSequenceOf, DecChoice;
      match ty
      case BooleanType =>
        r := DecodeBool();
      case NullType =>
        r := Some(NullValue);
      case IntegerType(bounds, extensible) =>
        r := DecodeIntegerWithConstraints(bounds, extensible);
      case OctetStringType(size) =>
        r := DecodeOctetString(size);
      case BitStringType(size) =>
        r := ParseBitString(size);
      case EnumeratedType(discriminants) =>
        r := DecodeEnumerated(discriminants);
      case SequenceType(_, _, _) =>
        r := DecodeSequence(ty);
      case SequenceOfType(element) =>
        r := DecodeSequenceOf(element);
      case ChoiceType(alternatives) =>
        r := DecodeChoice(alternatives);
    }
  }
}
