/**
 The OER encoder: an output and a worker buffer shared by the encoders of nested types. A SEQUENCE
 reserves its preamble and extension bitmap and patches them at the end; an open type is encoded in
 the worker first, where the roles of the buffers are swapped.
 */
module OerEncoder {
  import opened Common
  import opened Bits
  import opened BigEndian
  import opened OerTypes
  import opened OerTag
  import opened OerEncode
  import opened OerCursor

  class Buffer {
    var data: Bytes

    constructor (data: Bytes)
      ensures this.data == data
    {
      this.data := data;
    }
  }

  /** `s` with the octets from `at` on replaced by `b`. */
  function Overwrite(s: Bytes, at: nat, b: Bytes): (r: Bytes)
    requires at + |b| <= |s|
    ensures |r| == |s|
  {
    s[..at] + b + s[at + |b|..]
  }

  lemma OverwriteReserved(before: Bytes, reserved: Bytes, after: Bytes, b: Bytes)
    requires |b| == |reserved|
    ensures Overwrite(before + reserved + after, |before|, b) == before + b + after
  {
  }

  lemma Regroup(a: Bytes, b: Bytes, c: Bytes, d: Bytes, e: Bytes)
    ensures a + b + c + d + e == a + b + (c + d + e)
  {
  }

  /** A SEQUENCE behind existing output: preamble, root, bitmap and additions. */
  function Layout(before: Bytes, preamble: Bytes, root: Bytes, bitmap: Bytes, contents: Bytes): Bytes {
    before + preamble + root + bitmap + contents
  }

  lemma LayoutIs(before: Bytes, preamble: Bytes, root: Bytes, bitmap: Bytes, contents: Bytes)
    ensures before + preamble + root + bitmap + contents == Layout(before, preamble, root, bitmap, contents)
  {
  }

  lemma Reassociate<T>(a: seq<T>, b: seq<T>, c: seq<T>)
    ensures a + b + c == a + (b + c)
  {
  }

  /** The open type that is written when the worker holds `w` already: its octets go in front of the contents. */
  function Displaced(w: Bytes, e: Option<Bytes>): Option<Bytes> {
    if e.None? then None else EncOpen(Some(w + e.value))
  }

  /** That is the open type of the contents exactly if the worker was empty. */
  lemma DisplacedExactly(w: Bytes, e: Option<Bytes>)
    requires Displaced(w, e).Some?
    ensures EncOpen(e).Some? && (Displaced(w, e) == EncOpen(e) <==> w == [])
  {
    hide EncLength;
    LengthGrows(|e.value|, |w + e.value|);
    if w == [] {
      assert w + e.value == e.value;
    } else {
      assert |Displaced(w, e).value| == |EncLength(|w + e.value|).value| + |w + e.value|;
    }
  }

  lemma DisplacedNothing(e: Option<Bytes>)
    ensures Displaced([], e) == EncOpen(e)
  {
    hide EncLength;
    assert e.Some? ==> [] + e.value == e.value;
  }

  lemma LengthGrows(m: nat, n: nat)
    requires m <= n && EncLength(n).Some?
    ensures EncLength(m).Some? && |EncLength(m).value| <= |EncLength(n).value|
  {
    hide UnsignedBytes;
    BytesGrow(m, n);
  }

  lemma {:induction false} BytesGrow(m: nat, n: nat)
    requires m <= n
    ensures 1 <= |UnsignedBytes(m)| <= |UnsignedBytes(n)|
  {
    if n >= 256 {
      BytesGrow(m / 256, n / 256);
    }
  }

  /** The additions that are written when the worker holds `w` already: the first of them displaces it. */
  ghost function AdditionsFrom(components: seq<Component>, fields: seq<Option<Value>>, w: Bytes): Option<Bytes>
    requires FieldsEncodable(fields, components)
  {
    if components == [] then Some([])
    else Append(AdditionFrom(components[0], fields[0], w),
                AdditionsFrom(components[1..], fields[1..], if fields[0].Some? then [] else w))
  }

  ghost function AdditionFrom(c: Component, field: Option<Value>, w: Bytes): Option<Bytes>
    requires ComponentWellFormed(c) && FieldMatches(field, c)
  {
    if field.None? then Some([]) else Displaced(w, Enc(c.ty, field.value))
  }

  /** An addition is written as it should be exactly if the worker is empty. */
  lemma AdditionFromExactly(c: Component, field: Option<Value>, w: Bytes)
    requires ComponentWellFormed(c) && FieldMatches(field, c)
    ensures AdditionFrom(c, field, []) == EncAddition(c, field)
    ensures AdditionFrom(c, field, w).Some? ==>
              && EncAddition(c, field).Some?
              && (AdditionFrom(c, field, w) == EncAddition(c, field) <==> field.None? || w == [])
              && |AdditionFrom(c, field, w).value| >= |EncAddition(c, field).value| + (if field.Some? then |w| else 0)
              && (field.Some? ==> EncAddition(c, field).value != [])
  {
    hide EncOpen, Enc, Matches, WellFormed, Displaced;
    if field.Some? {
      var e := Enc(c.ty, field.value);
      DisplacedNothing(e);
      if Displaced(w, e).Some? {
        DisplacedExactly(w, e);
        DisplacedLonger(w, e);
      }
    }
  }

  lemma {:induction false} AdditionsFromNothing(components: seq<Component>, fields: seq<Option<Value>>)
    requires FieldsEncodable(fields, components)
    ensures AdditionsFrom(components, fields, []) == EncAdditions(components, fields)
  {
    hide AdditionFrom, EncAddition, FieldMatches, ComponentWellFormed;
    if components != [] {
      AdditionsFromNothing(components[1..], fields[1..]);
      AdditionFromExactly(components[0], fields[0], []);
    }
  }

  /** With a worker that is not empty the additions come out longer than they should be. */
  lemma {:induction false} AdditionsFromLonger(components: seq<Component>, fields: seq<Option<Value>>, w: Bytes)
    requires FieldsEncodable(fields, components) && |fields| == |components| && AnyAddition(fields)
    requires AdditionsFrom(components, fields, w).Some?
    ensures EncAdditions(components, fields).Some? && EncAdditions(components, fields).value != []
    ensures |AdditionsFrom(components, fields, w).value| >= |EncAdditions(components, fields).value| + |w|
  {
    hide AdditionFrom, EncAddition, FieldMatches, ComponentWellFormed, AnyAddition;
    AnyAdditionEmpty();
    AnyAdditionStep(fields);
    AdditionFromExactly(components[0], fields[0], w);
    if fields[0].None? {
      AdditionsFromLonger(components[1..], fields[1..], w);
    } else {
      AdditionsFromNothing(components[1..], fields[1..]);
    }
  }

  lemma DisplacedLonger(w: Bytes, e: Option<Bytes>)
    requires Displaced(w, e).Some?
    ensures EncOpen(e).Some? && EncOpen(e).value != [] && |Displaced(w, e).value| >= |EncOpen(e).value| + |w|
  {
    hide EncLength;
    LengthGrows(|e.value|, |w + e.value|);
    LengthSome(|e.value|);
  }

  lemma LengthSome(n: nat)
    requires EncLength(n).Some?
    ensures EncLength(n).value != []
  {
  }

  lemma NoOctets(c: Component, field: Option<Value>, w: Bytes)
    requires ComponentWellFormed(c) && FieldMatches(field, c) && field.None?
    ensures AdditionFrom(c, field, w) == Some([])
  {
  }

  lemma {:induction false} ItemsStep(element: Type, items: seq<Value>, i: nat, written: Bytes)
    requires WellFormed(element) && forall k :: 0 <= k < |items| ==> Matches(items[k], element)
    requires i < |items| && EncItems(element, items) == Append(Some(written), EncItems(element, items[i..]))
    ensures EncItems(element, items) ==
            if Enc(element, items[i]).None? then None
            else Append(Some(written + Enc(element, items[i]).value), EncItems(element, items[i + 1..]))
  {
    hide Enc, Matches, WellFormed;
    assert items[i..][1..] == items[i + 1..];
    var first, rest := Enc(element, items[i]), EncItems(element, items[i + 1..]);
    if first.Some? && rest.Some? {
      Reassociate(written, first.value, rest.value);
    }
  }

  lemma ItemsStart(element: Type, items: seq<Value>)
    requires WellFormed(element) && forall k :: 0 <= k < |items| ==> Matches(items[k], element)
    ensures EncItems(element, items) == Append(Some([]), EncItems(element, items[0..]))
  {
    assert items[0..] == items;
    var all := EncItems(element, items);
    assert all.Some? ==> [] + all.value == all.value;
  }

  lemma OpenParts(a: Bytes, b: Bytes)
    ensures (a + b)[..|a|] == a && (a + b)[|a|..] == b
  {
  }

  lemma Behind(before: Bytes, tag: Bytes, a: Bytes, b: Bytes)
    ensures before + tag + a == before + (tag + a)
    ensures before + tag + a == before + (tag + b) <==> a == b
  {
    if before + tag + a == before + (tag + b) {
      var k := |before + tag|;
      assert (before + tag + a)[k..] == a && (before + (tag + b))[k..] == b;
    }
  }

  lemma ChoiceReady(alternatives: seq<Alternative>, chosen: nat, inner: Value, free: bool)
    requires Encodable(ChoiceValue(chosen, inner), ChoiceType(alternatives))
    requires Ready(ChoiceType(alternatives), ChoiceValue(chosen, inner), free)
    ensures Ready(alternatives[chosen].ty, inner, free) && (alternatives[chosen].extension ==> free)
  {
  }

  lemma ChoiceParts(alternatives: seq<Alternative>, chosen: nat, inner: Value)
    requires Encodable(ChoiceValue(chosen, inner), ChoiceType(alternatives))
    ensures chosen < |alternatives|
    ensures var a := alternatives[chosen];
            && Encodable(inner, a.ty)
            && Enc(ChoiceType(alternatives), ChoiceValue(chosen, inner)) ==
               Append(Some(EncTag(a.tag)), if a.extension then EncOpen(Enc(a.ty, inner)) else Enc(a.ty, inner))
            && (Enc(a.ty, inner).None? ==> EncOpen(Enc(a.ty, inner)).None?)
  {
    hide EncLength, EncTag, Append;
  }

  lemma OverwriteTwice(s: Bytes, at: nat, a: Bytes, b: Bytes)
    requires at + |a| + |b| <= |s|
    ensures Overwrite(Overwrite(s, at, a), at + |a|, b) == Overwrite(s, at, a + b)
  {
  }

  /** The reserved octets for the bitmap, if the first present addition is among `fields`. */
  function Reserved(cursor: Cursor, fields: seq<Option<Value>>): Bytes {
    if cursor.bitmapCursor == 0 && AnyAddition(fields) then Repeat(0, cursor.bitmapTotalWidth) else []
  }

  /** The cursor after the first present addition among `fields`, if any, was met. */
  function Moved(cursor: Cursor, fields: seq<Option<Value>>, at: nat): Cursor {
    if cursor.bitmapCursor == 0 && AnyAddition(fields) then cursor.(bitmapCursor := at) else cursor
  }

  predicate AnyBit(bits: seq<bool>) {
    exists i :: 0 <= i < |bits| && bits[i]
  }

  function PreambleBits(rootCount: nat, extensible: bool, extended: bool, rootBits: seq<bool>): seq<bool> {
    (if extensible && rootCount > 0 then [extended] else []) + rootBits
  }

  /** The reserved bitmap has the widths of the one for `additions` bits, but for `lost` octets. */
  predicate BitmapFits(cursor: Cursor, additions: nat, lost: nat) {
    && cursor.missingBits == Missing(additions) && cursor.bitfieldWidth == Octets(additions)
    && cursor.bitmapWidth == 1 + cursor.bitfieldWidth
    && EncLength(cursor.bitmapWidth).Some?
    && cursor.bitmapTotalWidth + lost == |EncLength(cursor.bitmapWidth).value| + cursor.bitmapWidth
  }

  /** How many octets of the additions the bitmap covers. */
  function Lost(additions: nat): nat {
    if Short(BitmapWidth(additions)) then 1 else 0
  }

  lemma AtMostOne(additions: nat)
    ensures Lost(additions) <= 1
  {
  }

  lemma NewCursorFits(optional: nat, extensible: bool, additions: nat)
    requires BitmapWidth(additions) < TWO_32
    ensures forall p: nat, b: nat ::
              BitmapFits(NewCursor(optional, extensible, additions).(preambleCursor := p, bitmapCursor := b), additions, Lost(additions))
  {
    hide EncLength;
    CursorWidths(optional, extensible, additions);
    ReservedWidth(additions);
  }

  /** The parts of a SEQUENCE encoding, in the order in which they end up in the output. */
  lemma SequenceParts(ty: Type, v: Value, before: Bytes)
    requires ty.SequenceType? && Encodable(v, ty) && |v.root| == |ty.root|
    requires EncFields(ty.root, v.root).Some? && EncAdditions(ty.additions, v.additions).Some?
    requires AnyAddition(v.additions) ==> EncBitmap(AdditionBits(v.additions)).Some?
    requires !AnyAddition(v.additions) ==> EncAdditions(ty.additions, v.additions).value == []
    ensures EncSequence(ty, v).Some?
    ensures Layout(before, PackBits(Preamble(ty, v)), EncFields(ty.root, v.root).value,
                   if AnyAddition(v.additions) then EncBitmap(AdditionBits(v.additions)).value else [],
                   EncAdditions(ty.additions, v.additions).value) == before + EncSequence(ty, v).value
  {
    hide PackBits, EncFields, EncAdditions, EncBitmap, AnyAddition, Preamble;
  }

  /**
   What is appended for a SEQUENCE with additions, when the worker holds `w`: the first addition displaces it, and
   the bitmap covers an octet of the additions if its width is `Short`.
   */
  ghost function SequenceFrom(ty: Type, v: Value, w: Bytes): Option<Bytes>
    requires ty.SequenceType? && Encodable(v, ty)
  {
    FieldsLength(v.root, ty.root);
    var contents := AdditionsFrom(ty.additions, v.additions, w);
    var lost := Lost(|ty.additions|);
    if !AnyAddition(v.additions) then EncSequence(ty, v)
    else if contents.None? || |contents.value| < lost then None
    else
      Append(Some(PackBits(Preamble(ty, v))),
             Append(EncFields(ty.root, v.root), Append(EncBitmap(AdditionBits(v.additions)), Some(contents.value[lost..]))))
  }

  lemma SequenceFromParts(ty: Type, v: Value, w: Bytes, before: Bytes)
    requires ty.SequenceType? && Encodable(v, ty) && |v.root| == |ty.root| && AnyAddition(v.additions)
    requires EncFields(ty.root, v.root).Some? && EncBitmap(AdditionBits(v.additions)).Some?
    requires var contents := AdditionsFrom(ty.additions, v.additions, w); contents.Some? && |contents.value| >= Lost(|ty.additions|)
    ensures SequenceFrom(ty, v, w).Some?
    ensures Layout(before, PackBits(Preamble(ty, v)), EncFields(ty.root, v.root).value, EncBitmap(AdditionBits(v.additions)).value,
                   AdditionsFrom(ty.additions, v.additions, w).value[Lost(|ty.additions|)..]) == before + SequenceFrom(ty, v, w).value
  {
    hide PackBits, EncFields, AdditionsFrom, EncBitmap, AnyAddition, Preamble, Lost;
  }

  /** That is the encoding if the worker is empty and the width is not `Short`; it is not, if one of them fails. */
  lemma SequenceFromExactly(ty: Type, v: Value, w: Bytes)
    requires ty.SequenceType? && Encodable(v, ty) && AnyAddition(v.additions)
    ensures var lost := Lost(|ty.additions|);
            && (w == [] && lost == 0 ==> SequenceFrom(ty, v, w) == EncSequence(ty, v))
            && (SequenceFrom(ty, v, w).Some? ==>
                  && EncSequence(ty, v).Some?
                  && |SequenceFrom(ty, v, w).value| + lost >= |EncSequence(ty, v).value| + |w|
                  && (w == [] ==> |SequenceFrom(ty, v, w).value| + lost == |EncSequence(ty, v).value|))
  {
    hide PackBits, EncFields, AdditionsFrom, EncAdditions, EncBitmap, AnyAddition, Preamble, Lost;
    FieldsLength(v.root, ty.root);
    FieldsLength(v.additions, ty.additions);
    AdditionsFromNothing(ty.additions, v.additions);
    var contents := AdditionsFrom(ty.additions, v.additions, w);
    if contents.Some? {
      AdditionsFromLonger(ty.additions, v.additions, w);
      assert contents.value[0..] == contents.value;
    }
  }

  /** The components of a SEQUENCE can be written. */
  ghost predicate SequenceReady(ty: Type, v: Value, free: bool)
    requires ty.SequenceType? && Encodable(v, ty)
  {
    && (AnyAddition(v.additions) ==> BitmapWidth(|ty.additions|) < TWO_32)
    && FieldsReady(ty.root, v.root, free) && AdditionsReady(ty.additions, v.additions)
  }

  lemma ReadySequence(ty: Type, v: Value, free: bool)
    requires ty.SequenceType? && Encodable(v, ty) && Ready(ty, v, free)
    ensures SequenceReady(ty, v, free)
    ensures AnyAddition(v.additions) ==> free && !Short(BitmapWidth(|ty.additions|))
  {
    hide FieldsReady, AdditionsReady, Short;
  }

  /** What the encoder of a SEQUENCE starts from. */
  lemma SequenceSetup(ty: Type, v: Value, free: bool)
    requires ty.SequenceType? && Encodable(v, ty) && SequenceReady(ty, v, free)
    ensures v.SequenceValue? && FieldsEncodable(v.root, ty.root) && FieldsEncodable(v.additions, ty.additions)
    ensures |v.root| == |ty.root| && |v.additions| == |ty.additions|
    ensures FieldsReady(ty.root, v.root, free) && AdditionsReady(ty.additions, v.additions)
    ensures ty.root != [] || !ty.extensible
    ensures AnyAddition(v.additions) ==> ty.extensible && BitmapWidth(|ty.additions|) < TWO_32
  {
    hide FieldsReady, AdditionsReady, ComponentsWellFormed, FieldsMatch, BitmapWidth, Short;
    FieldsLength(v.root, ty.root);
    FieldsLength(v.additions, ty.additions);
  }

  lemma CursorSetup(ty: Type, v: Value)
    requires ty.SequenceType? && v.SequenceValue? && |v.root| == |ty.root| && (ty.root != [] || !ty.extensible)
    ensures var c := NewCursor(OptionalCount(ty.root), ty.extensible, |ty.additions|);
            var bits := Preamble(ty, v);
            && c.bitmapCursor == 0 && c.numberOptionalDefault == OptionalCount(ty.root)
            && c.preambleWidth == Octets(|bits|) && (ty.extensible ==> c.preambleWidth > 0)
            && PreambleBits(|ty.root|, ty.extensible, AnyAddition(v.additions), PresenceBits(ty.root, v.root)) == bits
  {
    hide ReservedLength, AnyAddition;
    CursorWidths(OptionalCount(ty.root), ty.extensible, |ty.additions|);
  }

  lemma SequenceFails(ty: Type, v: Value, w: Bytes)
    requires ty.SequenceType? && Encodable(v, ty)
    ensures EncFields(ty.root, v.root).None? ==> EncSequence(ty, v).None? && SequenceFrom(ty, v, w).None?
    ensures AdditionsFrom(ty.additions, v.additions, w).None? && AnyAddition(v.additions) ==> SequenceFrom(ty, v, w).None?
    ensures !AnyAddition(v.additions) ==> SequenceFrom(ty, v, w) == EncSequence(ty, v)
  {
    hide EncFields, EncAdditions, AdditionsFrom, EncBitmap, AnyAddition;
  }

  lemma AnyBitAddition(fields: seq<Option<Value>>)
    ensures AnyBit(AdditionBits(fields)) == AnyAddition(fields)
  {
    if AnyAddition(fields) {
      var i :| 0 <= i < |fields| && fields[i].Some?;
      assert AdditionBits(fields)[i];
    }
  }

  lemma AnyAdditionEmpty()
    ensures !AnyAddition([])
  {
  }

  lemma AnyAdditionStep(fields: seq<Option<Value>>)
    requires fields != []
    ensures AnyAddition(fields) <==> fields[0].Some? || AnyAddition(fields[1..])
  {
    if AnyAddition(fields) && fields[0].None? {
      var i :| 0 <= i < |fields| && fields[i].Some?;
      assert fields[1..][i - 1].Some?;
    }
    if AnyAddition(fields[1..]) {
      var i :| 0 <= i < |fields[1..]| && fields[1..][i].Some?;
      assert fields[i + 1].Some?;
    }
  }

  method EncodeLength(buffer: Buffer, n: nat) returns (ok: bool)
    modifies buffer
    ensures ok <==> EncLength(n).Some?
    ensures buffer.data == old(buffer.data) + if ok then EncLength(n).value else []
  {
    UsizeLength(n);
    var bytes := UnsignedBytes(n);
    if n < 128 {
      buffer.data := buffer.data + bytes;
      return true;
    }
    if |bytes| > 8 {
      return false;
    }
    buffer.data := buffer.data + [128 + |bytes|];
    buffer.data := buffer.data + bytes;
    return true;
  }

  lemma EvenMultiple(k: nat, q: nat)
    ensures (2 * k + q) % 2 == q % 2
  {
  }

  /** The number bits of a tag octet do not depend on the class. */
  lemma TagBit(tag: Tag, i: nat)
    requires tag.value < 63 && i < 6
    ensures BitAt(TagOctet(tag), 7 - i) == BitAt(tag.value, 7 - i)
  {
    var w := Weight(7 - i);
    var k := tag.cls * (32 / w);
    assert 64 == 2 * (32 / w) * w;
    assert TagOctet(tag) == (2 * k) * w + tag.value;
    QuotientOfSum(2 * k, w, tag.value);
    EvenMultiple(k, tag.value / w);
  }

  lemma QuotientOfSum(k: nat, w: nat, v: nat)
    requires w > 0
    ensures (k * w + v) / w == k + v / w
  {
    var q, r := v / w, v % w;
    assert k * w + v == (k + q) * w + r;
    Quotient(k * w + v, w, k + q, r);
  }

  lemma Quotient(n: nat, w: nat, q: nat, r: nat)
    requires w > 0 && r < w && n == q * w + r
    ensures n / w == q
  {
    var d := n / w - q;
    assert n == (n / w) * w + n % w;
    assert d * w == (n / w) * w - q * w;
    assert d >= 1 ==> d * w >= 1 * w;
    assert d <= -1 ==> d * w <= -1 * w;
  }

  lemma {:induction false} PrefixStable(a: seq<bool>, b: seq<bool>, n: nat)
    requires n <= 8 && n <= |a| && a <= b
    ensures PrefixValue(a, 0, n) == PrefixValue(b, 0, n)
  {
    if n > 0 {
      PrefixStable(a, b, n - 1);
    }
  }

  function TagOctet(tag: Tag): Byte
    requires tag.value < 63
  {
    64 * tag.cls + tag.value
  }

  lemma TagStart(tag: Tag)
    requires tag.value < 63
    ensures PrefixValue([tag.cls >= 2, tag.cls % 2 == 1], 0, 2) == TagOctet(tag) / Weight(1)
  {
    var bits := [tag.cls >= 2, tag.cls % 2 == 1];
    assert PrefixValue(bits, 0, 0) == 0;
    assert PrefixValue(bits, 0, 1) == tag.cls / 2;
    assert PrefixValue(bits, 0, 2) == 2 * (tag.cls / 2) + tag.cls % 2;
    assert TagOctet(tag) / 64 == tag.cls;
  }

  lemma TagStep(tag: Tag, bits: seq<bool>, i: nat)
    requires tag.value < 63 && i < 6 && |bits| == 7 - i
    requires PrefixValue(bits, 0, 7 - i) == TagOctet(tag) / Weight(6 - i)
    ensures PrefixValue(bits + [BitAt(tag.value, 7 - i)], 0, 8 - i) == TagOctet(tag) / Weight(7 - i)
  {
    TagBit(tag, i);
    HalvePrefix(TagOctet(tag), 6 - i);
    var longer := bits + [BitAt(tag.value, 7 - i)];
    PrefixStable(bits, longer, 7 - i);
    assert Padded(longer, 7 - i) == BitAt(TagOctet(tag), 7 - i);
  }

  lemma LongTagStart(tag: Tag)
    ensures PackBits([tag.cls >= 2, tag.cls % 2 == 1, true, true, true, true, true, true]) == [64 * tag.cls + 63]
  {
    var bits := [tag.cls >= 2, tag.cls % 2 == 1, true, true, true, true, true, true];
    assert PrefixValue(bits, 0, 0) == 0;
    assert PrefixValue(bits, 0, 1) == tag.cls / 2;
    assert PrefixValue(bits, 0, 2) == tag.cls;
    assert PrefixValue(bits, 0, 3) == 2 * tag.cls + 1;
    assert PrefixValue(bits, 0, 4) == 4 * tag.cls + 3;
    assert PrefixValue(bits, 0, 5) == 8 * tag.cls + 7;
    assert PrefixValue(bits, 0, 6) == 16 * tag.cls + 15;
    assert PrefixValue(bits, 0, 7) == 32 * tag.cls + 31;
  }

  lemma NextDigit(group: seq<bool>, n: nat, all: seq<bool>)
    requires |group| < 7 <= |all| && group + Digits(n) == all
    ensures n > 0 && group + [n % 2 == 1] + Digits(n / 2) == all
  {
  }

  lemma NoDigits()
    ensures Digits(0) == []
  {
  }

  lemma SomeDigits(n: nat)
    requires n > 0
    ensures Digits(n) != []
  {
  }

  lemma MarkedFirst(group: seq<bool>)
    requires |group| == 7
    ensures Marked(group) == [true] + group
  {
    assert group[..0] == [] && group[0..] == group;
  }

  lemma MarkedNext(written: seq<bool>, group: seq<bool>)
    requires |written| % 7 == 0 && |group| == 7
    ensures Marked(written + group) == Marked(written) + ([true] + group)
  {
    var all := written + group;
    assert all[..|all| - 7] == written && all[|all| - 7..] == group;
  }

  lemma TagEnd(tag: Tag, bits: seq<bool>)
    requires tag.value < 63 && |bits| == 8 && PrefixValue(bits, 0, 8) == TagOctet(tag) / Weight(7)
    ensures PackBits(bits) == EncTag(tag)
  {
    hide PrefixValue;
    assert TagOctet(tag) / Weight(7) == TagOctet(tag);
  }

  lemma {:induction false} NothingAdded(components: seq<Component>, fields: seq<Option<Value>>, w: Bytes)
    requires FieldsEncodable(fields, components) && |fields| == |components| && !AnyAddition(fields)
    ensures EncAdditions(components, fields) == Some([]) && AdditionsFrom(components, fields, w) == Some([])
  {
    if components != [] {
      AnyAdditionStep(fields);
      NothingAdded(components[1..], fields[1..], w);
      assert fields[0].None?;
      var none: Bytes := [];
      assert none + none == none;
    }
  }

  lemma NoPadding(x: Byte, b: Bytes)
    ensures Repeat(x, 0) + b == b
  {
  }

  class Encoder {
    const output: Buffer
    const worker: Buffer
    var rootBits: seq<bool>
    var extensionBits: seq<bool>
    var cursor: Cursor

    constructor (output: Buffer, worker: Buffer)
      ensures this.output == output && this.worker == worker
      ensures rootBits == [] && extensionBits == [] && cursor == Cursor(0, 0, 0, 0, 0, 0, 0, 0)
    {
      this.output := output;
      this.worker := worker;
      rootBits := [];
      extensionBits := [];
      cursor := NoCursor;
    }

    // ----- Primitive types -----

    method EncodeUnconstrainedInteger(i: int, signed: bool) returns (ok: bool)
      requires !signed ==> i >= 0
      modifies output
      ensures ok <==> EncOpen(Some(IntegerBytes(i, signed))).Some?
      ensures old(output.data) <= output.data
      ensures ok ==> output.data == old(output.data) + EncOpen(Some(IntegerBytes(i, signed))).value
    {
      hide EncLength;
      var bytes := IntegerBytes(i, signed);
      ok := EncodeLength(output, |bytes|);
      if ok {
        output.data := output.data + bytes;
      }
    }

    method EncodeConstrainedInteger(octets: nat, i: int, signed: bool) returns (ok: bool)
      requires !signed ==> i >= 0
      modifies output
      ensures ok <==> EncFixed(i, signed, octets).Some?
      ensures output.data == old(output.data) + if ok then EncFixed(i, signed, octets).value else []
    {
      hide Repeat, IntegerBytes;
      var bytes := IntegerBytes(i, signed);
      if octets > |bytes| {
        var padding := Repeat(SignOctet(signed && i < 0), octets - |bytes|);
        output.data := output.data + padding;
      } else if octets < |bytes| {
        return false;
      } else {
        NoPadding(SignOctet(signed && i < 0), bytes);
      }
      output.data := output.data + bytes;
      return true;
    }

    method EncodeInteger(i: int, bounds: Option<Bounds>, extensible: bool) returns (ok: bool)
      modifies output
      ensures ok <==> EncInteger(i, bounds, extensible).Some?
      ensures old(output.data) <= output.data
      ensures ok ==> output.data == old(output.data) + EncInteger(i, bounds, extensible).value
    {
      hide EncFixed, EncOpen;
      if !InBounds(i, bounds) && !extensible {
        return false;
      }
      var (signed, octets) := Form(bounds, extensible);
      if octets.Some? {
        ok := EncodeConstrainedInteger(octets.value, i, signed);
      } else {
        ok := EncodeUnconstrainedInteger(i, signed);
      }
    }

    method EncodeOctetString(octets: Bytes, size: Size) returns (ok: bool)
      modifies output
      ensures ok <==> EncOctetString(octets, size).Some?
      ensures old(output.data) <= output.data
      ensures ok ==> output.data == old(output.data) + EncOctetString(octets, size).value
    {
      hide EncLength;
      if !SizeAllows(size, |octets|) {
        return false;
      }
      if !size.Fixed? {
        if |octets| > MAX_PERMITTED_LENGTH {
          return false;
        }
        ok := EncodeLength(output, |octets|);
        if !ok {
          return;
        }
      }
      output.data := output.data + octets;
      ok := true;
    }

    method EncodeBitString(bits: seq<bool>, size: Size) returns (ok: bool)
      modifies output
      ensures ok <==> EncBitString(bits, size).Some?
      ensures old(output.data) <= output.data
      ensures ok ==> output.data == old(output.data) + EncBitString(bits, size).value
    {
      hide EncLength, PackBits;
      if size.Fixed? {
        ok := |bits| == size.n;
        if ok {
          output.data := output.data + PackBits(bits);
        }
        return;
      }
      if |bits| > MAX_PERMITTED_LENGTH {
        return false;
      }
      var contents := if bits == [] then [0] else [Missing(|bits|)] + PackBits(bits);
      assert bits == [] ==> contents == [Missing(|bits|)] + PackBits(bits);
      ok := EncodeLength(output, |contents|);
      if ok {
        output.data := output.data + contents;
      }
    }

    method EncodeEnumerated(discriminant: int) returns (ok: bool)
      modifies output
      ensures ok <==> EncEnumerated(discriminant).Some?
      ensures output.data == old(output.data) + if ok then EncEnumerated(discriminant).value else []
    {
      if 0 <= discriminant < 128 {
        ok := EncodeConstrainedInteger(1, discriminant, false);
        assert EncFixed(discriminant, false, 1).value == [discriminant];
        return;
      }
      var bytes := SignedBytes(discriminant);
      if |bytes| > 127 {
        return false;
      }
      output.data := output.data + [128 + |bytes|];
      output.data := output.data + bytes;
      return true;
    }

    /** The bits of a tag: its class and its number. */
    method TagBits(tag: Tag) returns (bits: seq<bool>)
      ensures PackBits(bits) == EncTag(tag)
    {
      if tag.value < 63 {
        bits := ShortTagBits(tag);
      } else {
        bits := LongTagBits(tag);
      }
    }

    /** Six ones, and the number from 63 on in groups of seven digits behind markers, least significant digit first. */
    method LongTagBits(tag: Tag) returns (bits: seq<bool>)
      requires tag.value >= 63
      ensures PackBits(bits) == EncTag(tag)
    {
      hide PackBits, Digits, Marked, Septets, Continued, Number, Filled;
      var head := [tag.cls >= 2, tag.cls % 2 == 1, true, true, true, true, true, true];
      LongTagStart(tag);
      var count := DigitsOf(tag.value);
      ghost var all := Filled(Digits(tag.value));
      var zeros := 7 - count % 7;
      var group, number := FirstDigits(tag.value, zeros);
      bits := [true] + group;
      ghost var written := group;
      MarkedFirst(group);
      while number > 0
        invariant |written| % 7 == 0 && written != [] && written + Digits(number) == all && bits == Marked(written)
      {
        ghost var before := number;
        group, number := NextDigits(number);
        bits := bits + ([true] + group);
        MarkedNext(written, group);
        assert written + group + Digits(number) == written + (group + Digits(number));
        written := written + group;
      }
      assert Digits(0) == [] by {
        NoDigits();
      }
      assert written == all;
      LastCleared(all);
      bits := bits[|bits| - 8 := false];
      PackJoin(head, bits);
      bits := head + bits;
    }

    /** The number of binary digits. */
    method DigitsOf(n: nat) returns (count: nat)
      ensures count == |Digits(n)|
    {
      var rest := n;
      count := 0;
      while rest > 0
        invariant count + |Digits(rest)| == |Digits(n)|
      {
        rest := rest / 2;
        count := count + 1;
      }
    }

    /** The first group: zeros, and then digits. */
    method FirstDigits(n: nat, zeros: nat) returns (group: seq<bool>, number: nat)
      requires n > 0 && zeros == 7 - |Digits(n)| % 7
      ensures |group| == 7 && group + Digits(number) == Filled(Digits(n))
    {
      hide Digits;
      group, number := [], n;
      var remainder := zeros;
      assert [] + seq(remainder, _ => false) + Digits(number) == Filled(Digits(n));
      while |group| < 7
        invariant |group| <= 7 && remainder <= 7
        invariant group + seq(remainder, _ => false) + Digits(number) == Filled(Digits(n))
        invariant |group| + remainder <= 7 || remainder == 0
        decreases 7 - |group|
      {
        if remainder != 0 {
          ghost var more := seq(remainder, _ => false);
          assert more == [false] + seq(remainder - 1, _ => false);
          group := group + [false];
          remainder := remainder - 1;
        } else {
          NextDigit(group, number, Filled(Digits(n)));
          group, number := group + [number % 2 == 1], number / 2;
        }
      }
    }

    /** Seven digits more. */
    method NextDigits(n: nat) returns (group: seq<bool>, number: nat)
      requires n > 0 && |Digits(n)| % 7 == 0
      ensures |group| == 7 && group + Digits(number) == Digits(n) && number < n
    {
      hide Digits;
      SomeDigits(n);
      group, number := [], n;
      while |group| < 7
        invariant |group| <= 7 && group + Digits(number) == Digits(n) && (if group == [] then number == n else number < n)
        decreases 7 - |group|
      {
        NextDigit(group, number, Digits(n));
        group, number := group + [number % 2 == 1], number / 2;
      }
    }

    /** Two bits for the class and six for a number below 63, most significant first. */
    method ShortTagBits(tag: Tag) returns (bits: seq<bool>)
      requires tag.value < 63
      ensures |bits| == 8 && PackBits(bits) == EncTag(tag)
    {
      hide BitAt, Weight, PrefixValue, PackBits, EncTag;
      bits := [tag.cls >= 2, tag.cls % 2 == 1];
      TagStart(tag);
      var i := 6;
      while i > 0
        invariant 0 <= i <= 6 && |bits| == 8 - i
        invariant PrefixValue(bits, 0, 8 - i) == TagOctet(tag) / Weight(7 - i)
      {
        i := i - 1;
        TagStep(tag, bits, i);
        bits := bits + [BitAt(tag.value, 7 - i)];
      }
      TagEnd(tag, bits);
    }

    // ----- SEQUENCE -----

    /** Records the presence of an OPTIONAL or DEFAULT root component, of which there are only so many. */
    method SetPresence(bit: bool)
      modifies this`rootBits
      ensures rootBits == old(rootBits) + if |old(rootBits)| < cursor.numberOptionalDefault then [bit] else []
    {
      if cursor.numberOptionalDefault < |rootBits| + 1 {
        return;
      }
      rootBits := rootBits + [bit];
    }

    method SetExtensionPresence(bit: bool)
      modifies this`extensionBits
      ensures extensionBits == old(extensionBits) + [bit]
    {
      extensionBits := extensionBits + [bit];
    }

    /** Reserves the octets of the extension bitmap at the end of the output. */
    method ExtensionBitmapReserve()
      modifies this`cursor, output
      ensures cursor == old(cursor).(bitmapCursor := |old(output.data)|)
      ensures output.data == old(output.data) + Repeat(0, cursor.bitmapTotalWidth)
    {
      cursor := cursor.(bitmapCursor := |output.data|);
      output.data := output.data + Repeat(0, cursor.bitmapTotalWidth);
    }

    method EncodeField(c: Component, field: Option<Value>, ghost free: bool) returns (ok: bool)
      requires output != worker && (free ==> worker.data == [])
      requires ComponentWellFormed(c) && FieldMatches(field, c) && FieldReady(c, field, free)
      requires IsOptional(c) ==> |rootBits| < cursor.numberOptionalDefault
      modifies this`rootBits, output, worker
      ensures old(output.data) <= output.data && (!free || ok ==> worker.data == old(worker.data))
      ensures ok <==> EncField(c, field).Some?
      ensures ok ==> output.data == old(output.data) + EncField(c, field).value
      ensures ok ==> rootBits == old(rootBits) + if IsOptional(c) then [!Omitted(c, field)] else []
      decreases c, 0, 0
    {
      hide Enc, Ready, Matches, WellFormed;
      if Omitted(c, field) {
        SetPresence(false);
        return true;
      }
      if IsOptional(c) {
        SetPresence(true);
      }
      ok := Encode(c.ty, field.value, free);
    }

    method EncodeFields(components: seq<Component>, fields: seq<Option<Value>>, ghost free: bool) returns (ok: bool)
      requires output != worker && (free ==> worker.data == [])
      requires FieldsEncodable(fields, components) && FieldsReady(components, fields, free)
      requires |fields| == |components| && |rootBits| + OptionalCount(components) <= cursor.numberOptionalDefault
      modifies this`rootBits, output, worker
      ensures old(output.data) <= output.data && (!free || ok ==> worker.data == old(worker.data))
      ensures ok <==> EncFields(components, fields).Some?
      ensures ok ==> output.data == old(output.data) + EncFields(components, fields).value
      ensures ok ==> rootBits == old(rootBits) + PresenceBits(components, fields)
      decreases components, 0, 0
    {
      hide EncField, FieldReady, FieldMatches, ComponentWellFormed, Omitted;
      if components == [] {
        return true;
      }
      ghost var before, bits := output.data, rootBits;
      ok := EncodeField(components[0], fields[0], free);
      if ok {
        ghost var first := EncField(components[0], fields[0]).value;
        ghost var bit := if IsOptional(components[0]) then [!Omitted(components[0], fields[0])] else [];
        ok := EncodeFields(components[1..], fields[1..], free);
        if ok {
          Reassociate(before, first, EncFields(components[1..], fields[1..]).value);
          Reassociate(bits, bit, PresenceBits(components[1..], fields[1..]));
        }
      }
    }

    /**
     Encodes an addition as an open type, with the buffers swapped: the value goes to the worker, whose
     length is then known.
     */
    method EncodeExtensionAddition(c: Component, field: Option<Value>) returns (ok: bool)
      requires output != worker
      requires ComponentWellFormed(c) && FieldMatches(field, c) && AdditionReady(c, field)
      modifies this`extensionBits, this`cursor, output, worker
      ensures old(output.data) <= output.data
      ensures field.None? ==> worker.data == old(worker.data)
      ensures field.Some? && ok ==> worker.data == []
      ensures ok <==> AdditionFrom(c, field, old(worker.data)).Some?
      ensures ok ==> output.data == old(output.data) + Reserved(old(cursor), [field]) + AdditionFrom(c, field, old(worker.data)).value
      ensures ok ==> extensionBits == old(extensionBits) + [field.Some?]
      ensures ok ==> cursor == Moved(old(cursor), [field], |old(output.data)|)
      decreases c, 0, 0
    {
      hide Enc, Ready, Matches, WellFormed, EncLength, Repeat;
      assert AnyAddition([field]) <==> field.Some? by {
        assert field.Some? ==> [field][0].Some?;
      }
      if field.None? {
        SetExtensionPresence(false);
        return true;
      }
      if cursor.bitmapCursor == 0 {
        ExtensionBitmapReserve();
      }
      var end := |output.data|;
      var encoder := new Encoder(worker, output);
      ok := encoder.Encode(c.ty, field.value, false);
      if !ok {
        return;
      }
      output.data := output.data[..end];
      ok := EncodeLength(output, |worker.data|);
      if !ok {
        return;
      }
      output.data := output.data + worker.data;
      worker.data := [];
      SetExtensionPresence(true);
    }

    method EncodeExtensionAdditions(components: seq<Component>, fields: seq<Option<Value>>) returns (ok: bool)
      requires output != worker && (AnyAddition(fields) ==> output.data != [])
      requires FieldsEncodable(fields, components) && AdditionsReady(components, fields) && |fields| == |components|
      modifies this`extensionBits, this`cursor, output, worker
      ensures old(output.data) <= output.data
      ensures if AnyAddition(fields) then ok ==> worker.data == [] else worker.data == old(worker.data)
      ensures ok <==> AdditionsFrom(components, fields, old(worker.data)).Some?
      ensures ok ==>
        output.data == old(output.data) + Reserved(old(cursor), fields) + AdditionsFrom(components, fields, old(worker.data)).value
      ensures ok ==> extensionBits == old(extensionBits) + AdditionBits(fields)
      ensures ok ==> cursor == Moved(old(cursor), fields, |old(output.data)|)
      decreases components, 0, 0
    {
      hide AdditionFrom, AdditionReady, FieldMatches, ComponentWellFormed, Repeat, AnyAddition;
      AnyAdditionEmpty();
      if components == [] {
        return true;
      }
      AnyAdditionStep(fields);
      AnyAdditionStep([fields[0]]);
      assert [fields[0]][1..] == [];
      assert AdditionBits(fields) == [fields[0].Some?] + AdditionBits(fields[1..]);
      ghost var before, cursor0, bits := output.data, cursor, extensionBits;
      ok := EncodeExtensionAddition(components[0], fields[0]);
      if ok {
        ghost var first := AdditionFrom(components[0], fields[0], old(worker.data)).value;
        ghost var middle, w := output.data, worker.data;
        ok := EncodeExtensionAdditions(components[1..], fields[1..]);
        if ok {
          ghost var rest := AdditionsFrom(components[1..], fields[1..], w).value;
          Reassociate(bits, [fields[0].Some?], AdditionBits(fields[1..]));
          if fields[0].Some? {
            assert output.data == before + Reserved(cursor0, fields) + first + [] + rest;
            assert before + Reserved(cursor0, fields) + first + [] + rest == before + Reserved(cursor0, fields) + (first + rest);
          } else {
            assert first == [] && middle == before by {
              NoOctets(components[0], fields[0], old(worker.data));
              assert before + [] + [] == before;
            }
            assert [] + rest == rest;
          }
        }
      }
    }

    /** Replaces the reserved preamble; an encoder without root components appends an octet instead. */
    method PatchPreamble(rootCount: nat, extensible: bool, extended: bool)
      requires rootCount > 0 || !extensible ==>
        cursor.preambleWidth == Octets(|PreambleBits(rootCount, extensible, extended, rootBits)|)
      requires cursor.preambleCursor + cursor.preambleWidth <= |output.data|
      requires rootCount == 0 ==> rootBits == []
      modifies output
      ensures rootCount == 0 && extensible ==> output.data == old(output.data) + [if extended then 0x80 else 0]
      ensures var bits := PreambleBits(rootCount, extensible, extended, rootBits);
              rootCount > 0 || !extensible ==>
                output.data == Overwrite(old(output.data), cursor.preambleCursor, PackBits(bits))
    {
      hide PackBits;
      var preamble := PreambleBits(rootCount, extensible, extended, rootBits);
      if |rootBits| > 0 || extensible {
        if rootCount == 0 && extensible {
          output.data := output.data + [if extended then 0x80 else 0];
        } else {
          output.data := Overwrite(output.data, cursor.preambleCursor, PackBits(preamble));
        }
      } else {
        assert PackBits(preamble) == [];
      }
    }

    /** Replaces the reserved extension bitmap, whose length determinant passes through the worker. */
    method PatchBitmap(ghost lost: nat) returns (ok: bool)
      requires output != worker && worker.data == []
      requires BitmapFits(cursor, |extensionBits|, lost) && cursor.bitmapCursor + cursor.bitmapTotalWidth + lost <= |output.data|
      modifies output, worker
      ensures ok && worker.data == [] && EncBitmap(extensionBits).Some?
      ensures |EncBitmap(extensionBits).value| == cursor.bitmapTotalWidth + lost
      ensures output.data == Overwrite(old(output.data), cursor.bitmapCursor, EncBitmap(extensionBits).value)
    {
      hide PackBits, EncLength, Overwrite;
      ok := EncodeLength(worker, cursor.bitmapWidth);
      ghost var length := worker.data;
      var at := cursor.bitmapCursor + |worker.data|;
      output.data := Overwrite(output.data, cursor.bitmapCursor, worker.data);
      worker.data := [];
      output.data := Overwrite(output.data, at, [cursor.missingBits]);
      at := at + 1;
      output.data := Overwrite(output.data, at, PackBits(extensionBits));
      OverwriteTwice(old(output.data), cursor.bitmapCursor, length, [cursor.missingBits]);
      OverwriteTwice(old(output.data), cursor.bitmapCursor, length + [cursor.missingBits], PackBits(extensionBits));
      assert length + [cursor.missingBits] + PackBits(extensionBits) == EncBitmap(extensionBits).value;
    }

    /** Patches the preamble, and the bitmap, which may cover octets of the additions. */
    method EncodeConstructed(
      rootCount: nat, extensible: bool, ghost before: Bytes, ghost root: Bytes, ghost contents: Bytes, ghost lost: nat)
      returns (ok: bool)
      requires output != worker && (rootCount > 0 || (!extensible && rootBits == []))
      requires cursor.preambleCursor == |before|
      requires cursor.preambleWidth == Octets(|PreambleBits(rootCount, extensible, AnyBit(extensionBits), rootBits)|)
      requires AnyBit(extensionBits) ==>
        && extensible && worker.data == []
        && BitmapFits(cursor, |extensionBits|, lost) && lost <= |contents|
        && cursor.bitmapCursor == |before| + cursor.preambleWidth + |root|
      requires output.data == Layout(before, Repeat(0, cursor.preambleWidth), root,
                                     if AnyBit(extensionBits) then Repeat(0, cursor.bitmapTotalWidth) else [], contents)
      modifies output, worker
      ensures ok && worker.data == old(worker.data)
      ensures AnyBit(extensionBits) ==> EncBitmap(extensionBits).Some?
      ensures output.data == Layout(before, PackBits(PreambleBits(rootCount, extensible, AnyBit(extensionBits), rootBits)), root,
                                    if AnyBit(extensionBits) then EncBitmap(extensionBits).value else [],
                                    if AnyBit(extensionBits) then contents[lost..] else contents)
    {
      hide PackBits, EncBitmap, Repeat, Octets, PreambleBits, AnyBit, Overwrite, BitmapFits;
      var extended := extensible && AnyBit(extensionBits);
      ghost var zeros, bitmap := Repeat(0, cursor.preambleWidth), if extended then Repeat(0, cursor.bitmapTotalWidth) else [];
      ghost var preamble := PackBits(PreambleBits(rootCount, extensible, extended, rootBits));
      PatchPreamble(rootCount, extensible, extended);
      Regroup(before, zeros, root, bitmap, contents);
      OverwriteReserved(before, zeros, root + bitmap + contents, preamble);
      Regroup(before, preamble, root, bitmap, contents);
      if !extensible || !extended {
        return true;
      }
      ghost var covered := bitmap + contents[..lost];
      assert Layout(before, preamble, root, bitmap, contents) == before + preamble + root + covered + contents[lost..];
      ok := PatchBitmap(lost);
      OverwriteReserved(before + preamble + root, covered, contents[lost..], EncBitmap(extensionBits).value);
    }

    /** Encodes the components: the root in order, then the additions. */
    method EncodeScope(ty: Type, v: Value, ghost free: bool) returns (ok: bool)
      requires output != worker && (free ==> worker.data == []) && rootBits == [] && extensionBits == []
      requires ty.SequenceType? && Encodable(v, ty) && SequenceReady(ty, v, free) && (ty.extensible ==> output.data != [])
      requires cursor.bitmapCursor == 0 && cursor.numberOptionalDefault == OptionalCount(ty.root)
      modifies this, output, worker
      ensures old(output.data) <= output.data
      ensures if AnyAddition(v.additions) then ok ==> worker.data == [] else !free || ok ==> worker.data == old(worker.data)
      ensures |v.root| == |ty.root|
      ensures ok <==> EncFields(ty.root, v.root).Some? && AdditionsFrom(ty.additions, v.additions, old(worker.data)).Some?
      ensures ok ==> rootBits == PresenceBits(ty.root, v.root) && extensionBits == AdditionBits(v.additions)
      ensures ok ==> cursor == Moved(old(cursor), v.additions, |old(output.data)| + |EncFields(ty.root, v.root).value|)
      ensures ok ==> output.data == old(output.data) + EncFields(ty.root, v.root).value +
                                    Reserved(old(cursor), v.additions) +
                                    AdditionsFrom(ty.additions, v.additions, old(worker.data)).value
      decreases ty, 0, 0
    {
      hide EncFields, AdditionsFrom, AnyAddition, SequenceReady, FieldsReady, AdditionsReady, Ready, Matches, WellFormed, FieldsMatch, ComponentsWellFormed, PresenceBits,
        AdditionBits, Reserved, Moved;
      SequenceSetup(ty, v, free);
      ok := EncodeFields(ty.root, v.root, free);
      if ok {
        ok := EncodeExtensionAdditions(ty.additions, v.additions);
      }
      assert [] + PresenceBits(ty.root, v.root) == PresenceBits(ty.root, v.root);
      assert [] + AdditionBits(v.additions) == AdditionBits(v.additions);
    }

    method EncodeSequence(ty: Type, v: Value, ghost free: bool) returns (ok: bool)
      requires output != worker && (free ==> worker.data == [])
      requires ty.SequenceType? && Encodable(v, ty) && SequenceReady(ty, v, free)
      modifies output, worker
      ensures old(output.data) <= output.data
      ensures if AnyAddition(v.additions) then ok ==> worker.data == [] else !free || ok ==> worker.data == old(worker.data)
      ensures ok <==> SequenceFrom(ty, v, old(worker.data)).Some?
      ensures ok ==> output.data == old(output.data) + SequenceFrom(ty, v, old(worker.data)).value
      decreases ty, 0, 1
    {
      hide PackBits, EncSequence, SequenceFrom, EncFields, AdditionsFrom, EncAdditions, EncBitmap, SequenceReady, Lost, Repeat, Octets, AnyAddition, AnyBit, FieldsReady, AdditionsReady, Ready, Preamble,
        FieldsMatch, Matches, WellFormed, ComponentsWellFormed, BitmapFits, NewCursor, PresenceBits, AdditionBits, PreambleBits, Layout;
      SequenceSetup(ty, v, free);
      SequenceFails(ty, v, worker.data);
      CursorSetup(ty, v);
      AnyBitAddition(v.additions);
      if AnyAddition(v.additions) {
        NewCursorFits(OptionalCount(ty.root), ty.extensible, |ty.additions|);
      } else {
        NothingAdded(ty.additions, v.additions, worker.data);
      }
      var encoder := new Encoder(output, worker);
      var cursor := NewCursor(OptionalCount(ty.root), ty.extensible, |ty.additions|);
      cursor := cursor.(preambleCursor := |output.data|);
      output.data := output.data + Repeat(0, cursor.preambleWidth);
      encoder.cursor := cursor;
      ok := encoder.EncodeScope(ty, v, free);
      if ok {
        ghost var contents := AdditionsFrom(ty.additions, v.additions, old(worker.data)).value;
        LayoutIs(old(output.data), Repeat(0, cursor.preambleWidth), EncFields(ty.root, v.root).value,
                 Reserved(cursor, v.additions), contents);
        if AnyAddition(v.additions) {
          AdditionsFromLonger(ty.additions, v.additions, old(worker.data));
          AtMostOne(|ty.additions|);
        }
        ok := encoder.EncodeConstructed(|ty.root|, ty.extensible, old(output.data),
                                        EncFields(ty.root, v.root).value, contents, Lost(|ty.additions|));
        if AnyAddition(v.additions) {
          SequenceFromParts(ty, v, old(worker.data), old(output.data));
        } else {
          SequenceParts(ty, v, old(output.data));
        }
      }
    }

    // ----- The other constructed types -----

    method EncodeSequenceOf(element: Type, items: seq<Value>, ghost free: bool) returns (ok: bool)
      requires output != worker && (free ==> worker.data == [])
      requires WellFormed(element)
      requires forall i :: 0 <= i < |items| ==> Matches(items[i], element) && Ready(element, items[i], free)
      modifies output, worker
      ensures old(output.data) <= output.data && (!free || ok ==> worker.data == old(worker.data))
      ensures ok <==> Append(EncQuantity(|items|), EncItems(element, items)).Some?
      ensures ok ==> output.data == old(output.data) + EncQuantity(|items|).value + EncItems(element, items).value
      decreases element, 2, 0
    {
      hide Enc, Ready, Matches, WellFormed, EncOpen;
      if |items| >= TWO_64 {
        return false;
      }
      ok := EncodeUnconstrainedInteger(|items|, false);
      if !ok {
        return;
      }
      var encoder := new Encoder(output, worker);
      ghost var quantity, written := output.data, [];
      var i := 0;
      ItemsStart(element, items);
      while i < |items|
        invariant 0 <= i <= |items| && old(output.data) <= quantity
        invariant output.data == quantity + written
        invariant worker.data == old(worker.data)
        invariant EncItems(element, items) == Append(Some(written), EncItems(element, items[i..]))
      {
        ItemsStep(element, items, i, written);
        ok := encoder.Encode(element, items[i], free);
        if !ok {
          return;
        }
        Reassociate(quantity, written, Enc(element, items[i]).value);
        written := written + Enc(element, items[i]).value;
        i := i + 1;
      }
      assert EncItems(element, items[i..]) == Some([]) && written + [] == written;
      return true;
    }

    method EncodeChoice(alternatives: seq<Alternative>, chosen: nat, inner: Value, ghost free: bool) returns (ok: bool)
      requires output != worker && (free ==> worker.data == [])
      requires Encodable(ChoiceValue(chosen, inner), ChoiceType(alternatives))
      requires Ready(alternatives[chosen].ty, inner, free)
      modifies output, worker
      ensures old(output.data) <= output.data
      ensures !alternatives[chosen].extension && (!free || ok) ==> worker.data == old(worker.data)
      ensures alternatives[chosen].extension ==> (ok <==> Displaced(old(worker.data), Enc(alternatives[chosen].ty, inner)).Some?)
      ensures alternatives[chosen].extension && ok ==>
        && worker.data == []
        && output.data == old(output.data) + EncTag(alternatives[chosen].tag) +
                          Displaced(old(worker.data), Enc(alternatives[chosen].ty, inner)).value
      ensures ok ==> Enc(ChoiceType(alternatives), ChoiceValue(chosen, inner)).Some?
      ensures ok ==>
        (output.data == old(output.data) + Enc(ChoiceType(alternatives), ChoiceValue(chosen, inner)).value <==>
         (alternatives[chosen].extension ==> old(worker.data) == []))
      ensures (alternatives[chosen].extension ==> old(worker.data) == []) ==>
        (ok <==> Enc(ChoiceType(alternatives), ChoiceValue(chosen, inner)).Some?)
      decreases alternatives, 0, 0
    {
      hide EncOpen, PackBits, EncTag, Enc, Ready, Matches, WellFormed;
      ChoiceParts(alternatives, chosen, inner);
      DisplacedNothing(Enc(alternatives[chosen].ty, inner));
      var a := alternatives[chosen];
      var tagBits := TagBits(a.tag);
      output.data := output.data + PackBits(tagBits);
      var end := |output.data|;
      ok := Encode(a.ty, inner, free);
      if !ok || !a.extension {
        return;
      }
      ok := WrapTail(end);
      OpenParts(old(output.data) + EncTag(a.tag), Enc(a.ty, inner).value);
      if ok {
        DisplacedExactly(old(worker.data), Enc(a.ty, inner));
        Behind(old(output.data), EncTag(a.tag), Displaced(old(worker.data), Enc(a.ty, inner)).value, EncOpen(Enc(a.ty, inner)).value);
      }
    }

    /** Moves the output from `end` on to the worker and back, behind its length, with whatever the worker held. */
    method WrapTail(end: nat) returns (ok: bool)
      requires output != worker && end <= |output.data|
      modifies output, worker
      ensures ok <==> Displaced(old(worker.data), Some(old(output.data)[end..])).Some?
      ensures old(output.data)[..end] <= output.data
      ensures ok ==> output.data == old(output.data)[..end] + Displaced(old(worker.data), Some(old(output.data)[end..])).value
      ensures ok ==> worker.data == []
    {
      hide EncLength;
      worker.data := worker.data + output.data[end..];
      output.data := output.data[..end];
      ok := EncodeLength(output, |worker.data|);
      if ok {
        output.data := output.data + worker.data;
        worker.data := [];
      }
    }

    /**
     Encodes `v`. Existing output is never altered, and the worker is left as it was found; the octets
     appended are the encoding, or else encoding fails.
     */
    method Encode(ty: Type, v: Value, ghost free: bool) returns (ok: bool)
      requires output != worker && (free ==> worker.data == [])
      requires Encodable(v, ty) && Ready(ty, v, free)
      modifies output, worker
      ensures old(output.data) <= output.data && (!free || ok ==> worker.data == old(worker.data))
      ensures ok <==> Enc(ty, v).Some?
      ensures ok ==> output.data == old(output.data) + Enc(ty, v).value
      decreases ty, 1, 0
    {
      hide EncInteger, EncOctetString, EncBitString, EncEnumerated, EncSequence, EncItems, EncQuantity;
      match ty
      case BooleanType =>
        output.data := output.data + [if v.b then 0xFF else 0];
        ok := true;
      case NullType =>
        ok := true;
      case IntegerType(bounds, extensible) =>
        ok := EncodeInteger(v.i, bounds, extensible);
      case OctetStringType(size) =>
        ok := EncodeOctetString(v.octets, size);
      case BitStringType(size) =>
        ok := EncodeBitString(v.bits, size);
      case EnumeratedType(discriminants) =>
        ok := EncodeEnumerated(discriminants[v.index]);
      case SequenceType(_, _, _) =>
        ReadySequence(ty, v, free);
        if AnyAddition(v.additions) {
          SequenceFromExactly(ty, v, []);
        } else {
          SequenceFails(ty, v, worker.data);
        }
        ok := EncodeSequence(ty, v, free);
      case SequenceOfType(element) =>
        ok := EncodeSequenceOf(element, v.items, free);
      case ChoiceType(alternatives) =>
        ChoiceReady(alternatives, v.chosen, v.inner, free);
        ok := EncodeChoice(alternatives, v.chosen, v.inner, free);
    }
  }
}
