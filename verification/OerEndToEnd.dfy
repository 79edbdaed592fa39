/** The OER encoder and decoder run one after the other. */
module OerEndToEnd {
  import opened Common
  import opened BigEndian
  import opened OerTypes
  import opened OerTag
  import opened OerEncode
  import opened OerSize
  import opened OerCursor
  import opened Decoding
  import opened OerDecode
  import opened OerRoundTrip
  import opened OerEncoder
  import opened OerDecoder

  /**
   Encodes `v` behind `before`, appends `tail` and decodes from where the encoding starts. The value
   comes back and the tail is left exactly if the value is writable and the decoder carries it; another value
   comes back only if some tag of the type is not read as it was written.
   */
  method RoundTrip(ty: Type, v: Value, coer: bool, depth: nat, before: Bytes, tail: Bytes)
    returns (r: Option<Value>, left: Bytes)
    requires Encodable(v, ty) && Ready(ty, v, true)
    ensures r == Some(v) <==> Writable(ty, v) && Carries(ty, v, coer, depth)
    ensures r == Some(v) ==> left == tail
    ensures r.Some? && r.value != v ==> Writable(ty, v) && !TagsReturn(ty)
  {
    hide Enc, Dec, Carries, TagsReturn, Ready, Matches, WellFormed, Writable, EncodedSize;
    ValueSized(ty, v);
    var output := new Buffer(before);
    var worker := new Buffer([]);
    var encoder := new OerEncoder.Encoder(output, worker);
    var ok := encoder.Encode(ty, v, true);
    if !ok {
      return None, tail;
    }
    var s := output.data[|before|..] + tail;
    assert output.data[|before|..] == Enc(ty, v).value;
    ValueBack(ty, v, coer, depth, tail);
    var decoder := new OerDecoder.Decoder(s, coer, depth);
    r := decoder.Decode(ty);
    left := decoder.input;
  }

  // ----- What the encoder accepts and the decoder refuses -----

  lemma SixteenOctets()
    ensures Power256(16) == 2 * TWO_127
  {
    EightOctets();
    assert Power256(10) == 0x1_0000 * Power256(8);
    assert Power256(12) == 0x1_0000 * Power256(10);
    assert Power256(14) == 0x1_0000 * Power256(12);
    assert Power256(16) == 0x1_0000 * Power256(14);
  }

  /** An INTEGER bounded on one side, with a value that needs more than 128 bits: encoded, and refused. */
  lemma BeyondI128(i: int, bound: int, lower: bool, coer: bool, depth: nat, t: Bytes)
    requires FitsOctets(i, true, 17) && !(-TWO_127 <= i < TWO_127)
    requires if lower then 0 <= bound <= i else i <= bound
    ensures var bounds := Some(if lower then Bounds(Some(bound), None) else Bounds(None, Some(bound)));
            var b := EncInteger(i, bounds, false);
            InBounds(i, bounds) && b.Some? && Dec(IntegerType(bounds, false), b.value + t, coer, depth) == Err
  {
    hide Power256;
    var bounds := Some(if lower then Bounds(Some(bound), None) else Bounds(None, Some(bound)));
    PowerMonotone(17, TWO_64 - 1);
    IntegerSized(i, bounds, false);
    IntegerBack(i, bounds, false, t, coer);
  }

  /** INTEGER (0..MAX) with 2^127, and INTEGER (MIN..0) with one less than -2^127. */
  lemma FirstBeyondI128(coer: bool, depth: nat)
    ensures var b := EncInteger(TWO_127, Some(Bounds(Some(0), None)), false);
            b.Some? && Dec(IntegerType(Some(Bounds(Some(0), None)), false), b.value + [], coer, depth) == Err
    ensures var b := EncInteger(-TWO_127 - 1, Some(Bounds(None, Some(0))), false);
            b.Some? && Dec(IntegerType(Some(Bounds(None, Some(0))), false), b.value + [], coer, depth) == Err
  {
    hide EncInteger, Dec;
    SixteenOctets();
    assert Power256(17) == 256 * Power256(16);
    BeyondI128(TWO_127, 0, true, coer, depth, []);
    BeyondI128(-TWO_127 - 1, 0, false, coer, depth, []);
  }

  lemma DigitsOf131()
    ensures Digits(131) == [true, true, false, false] + [false, false, false, true]
  {
    assert Digits(8) == [false, false, false, true];
    assert Digits(32) == [false, false] + Digits(8);
  }

  lemma NumberOf193()
    ensures Number([true, true, false, false] + [false, false, false, true], 0) == 193
  {
    hide Number;
    NumberJoin([true, true, false, false], [false, false, false, true], 0);
    FourDigits(true, true, false, false, 0);
    FourDigits(false, false, false, true, 12);
  }

  lemma FourDigits(a: bool, b: bool, c: bool, d: bool, acc: nat)
    ensures Number([a, b, c, d], acc) ==
            16 * acc + (if a then 8 else 0) + (if b then 4 else 0) + (if c then 2 else 0) + if d then 1 else 0
  {
    hide Number;
    NumberJoin([a, b, c], [d], acc);
    NumberJoin([a, b], [c], acc);
    NumberJoin([a], [b], acc);
    Digit(a, acc);
    Digit(b, Number([a], acc));
    Digit(c, Number([a, b], acc));
    Digit(d, Number([a, b, c], acc));
    assert [a, b, c] + [d] == [a, b, c, d] && [a, b] + [c] == [a, b, c] && [a] + [b] == [a, b];
  }

  lemma Mirrored()
    ensures Mirror(131) == 193 && Number(Filled(Digits(131))[..7], 0) != 0
  {
    hide Digits, Number;
    DigitsOf131();
    NumberOf193();
    NumberPositive(Filled(Digits(131))[..7], 6, 0);
  }

  /** CHOICE { a [131] BOOLEAN, b [193] BOOLEAN }: a is written, and b is read. */
  lemma AnotherAlternative(b: bool, coer: bool, depth: nat, t: Bytes)
    requires depth > 0
    ensures var ty := ChoiceType([Alternative(Tag(2, 131), BooleanType, false), Alternative(Tag(2, 193), BooleanType, false)]);
            var v := ChoiceValue(0, BooleanValue(b));
            Encodable(v, ty) && Enc(ty, v).Some? && Dec(ty, Enc(ty, v).value + t, coer, depth) == Ok(ChoiceValue(1, BooleanValue(b)), t)
  {
    hide Digits, Number, Filled, EncTag, DecTag;
    var a := Alternative(Tag(2, 131), BooleanType, false);
    var alternatives := [a, Alternative(Tag(2, 193), BooleanType, false)];
    var ty := ChoiceType(alternatives);
    var v := ChoiceValue(0, BooleanValue(b));
    Mirrored();
    var inner := Enc(BooleanType, v.inner).value;
    LargeTag(a.tag, inner + t);
    assert Enc(ty, v).value + t == EncTag(a.tag) + (inner + t);
    assert (inner + t)[1..] == t;
    assert FindTag(alternatives[1..], Tag(2, 193)) == 0;
    assert Dec(ty, Enc(ty, v).value + t, coer, depth) == DecChoice(alternatives, Enc(ty, v).value + t, coer, depth - 1);
  }

  /** A present OPTIONAL component whose type is an untagged CHOICE: encoded, and refused. */
  lemma UnrecognizedChoice(coer: bool, depth: nat, t: Bytes)
    ensures var c := Component(Optional, ChoiceType([Alternative(Tag(2, 0), BooleanType, false)]), None);
            var ty := SequenceType([c], false, []);
            var v := SequenceValue([Some(ChoiceValue(0, BooleanValue(true)))], []);
            Encodable(v, ty) && Enc(ty, v).Some? && Dec(ty, Enc(ty, v).value + t, coer, depth) == Err
  {
    var alternatives := [Alternative(Tag(2, 0), BooleanType, false)];
    var c := Component(Optional, ChoiceType(alternatives), None);
    var root := [c];
    var ty := SequenceType(root, false, []);
    var inner := ChoiceValue(0, BooleanValue(true));
    var fields := [Some(inner)];
    var v := SequenceValue(fields, []);
    assert root[1..] == [] && fields[1..] == [];
    assert ComponentWellFormed(c) && FieldMatches(fields[0], c);
    assert FieldsMatch(fields, root) && ComponentsWellFormed(root);
    assert FieldsMatch([], []) && ComponentsWellFormed([]);
    assert Encodable(v, ty);
    assert Writable(c.ty, inner);
    assert FieldsWritable(root[1..], fields[1..]) && FieldWritable(c, fields[0]);
    assert FieldsWritable(root, fields) && AdditionsWritable([], []);
    ValueSized(ty, v);
    RecognizedComponents(c);
    assert FieldTagsReturn(c) && ComponentTagsReturn(root[1..]);
    assert ComponentTagsReturn(root) && ComponentTagsReturn([]);
    assert !FieldCarries(c, fields[0], coer, if depth > 0 then depth - 1 else 0);
    ValueBack(ty, v, coer, depth, t);
  }
}
