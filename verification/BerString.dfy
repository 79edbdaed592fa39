/**
 OCTET STRING: one primitive value, or under CER, above 1000 octets, a constructed value of segments
 ended by end-of-contents octets (X.690 clause 9.2).
 */
module BerString {
  import opened Common
  import opened Decoding
  import opened BerBase128
  import opened BerTree

  const START_OF_CONTENTS: Byte := 0x80
  const END_OF_CONTENTS: Bytes := [0, 0]
  const OCTET_STRING := Tag(0, 4)

  const SEGMENT: nat := 1000

  function MaxStringLength(rules: Rules): nat {
    if rules.Cer? then SEGMENT else TWO_64 - 1
  }

  // ----- Writing -----

  function Chunks(value: Bytes): seq<Bytes> {
    if value == [] then []
    else if |value| <= SEGMENT then [value]
    else [value[..SEGMENT]] + Chunks(value[SEGMENT..])
  }

  /** All segments but the last hold exactly 1000 octets, the last at least one, and together they are the string. */
  lemma {:induction false} ChunkSizes(value: Bytes)
    ensures Flatten(Chunks(value)) == value
    ensures forall i :: 0 <= i < |Chunks(value)| - 1 ==> |Chunks(value)[i]| == 1000
    ensures value != [] ==> 1 <= |Chunks(value)[|Chunks(value)| - 1]| <= 1000
    ensures value != [] ==> Chunks(value) != []
  {
    if |value| > SEGMENT {
      ChunkSizes(value[SEGMENT..]);
      assert Chunks(value)[1..] == Chunks(value[SEGMENT..]);
      assert value == value[..SEGMENT] + value[SEGMENT..];
    } else if value != [] {
      assert Chunks(value)[1..] == [];
    }
  }

  lemma {:induction false} ChunksFit(value: Bytes)
    ensures forall i :: 0 <= i < |Chunks(value)| ==> |Chunks(value)[i]| <= SEGMENT
  {
    if |value| > SEGMENT {
      ChunksFit(value[SEGMENT..]);
    }
  }

  function Segments(nested: Tag, chunks: seq<Bytes>): Bytes
    requires forall i :: 0 <= i < |chunks| ==> |chunks[i]| <= SEGMENT
  {
    if chunks == [] then [] else EncValue(Identifier(nested, false), chunks[0]) + Segments(nested, chunks[1..])
  }

  function EncString(rules: Rules, tag: Tag, nested: Tag, value: Bytes): Bytes
    requires |value| < TWO_64
  {
    if |value| > MaxStringLength(rules) then
      ChunksFit(value);
      EncIdentifier(Identifier(tag, true)) + [START_OF_CONTENTS] + Segments(nested, Chunks(value)) + END_OF_CONTENTS
    else EncValue(Identifier(tag, false), value)
  }

  // ----- Reading -----

  predicate AtEnd(s: Bytes) {
    |s| >= 2 && s[0] == 0 && s[1] == 0
  }

  /** One value with the given tag, or the parts of a constructed one up to an end-of-contents. */
  function ParseEncoded(rules: Rules, s: Bytes, tag: Tag): (r: Decoded<Bytes>)
    ensures r.Ok? ==> |r.rest| < |s|
    decreases |s|, 0
  {
    var v := ParseValue(rules, s, tag);
    if v.Err? then Err
    else if !v.value.0.constructed then (if v.value.1.None? then Err else Ok(v.value.1.value, v.rest))
    else if rules.Der? then Err
    else
      var parts := ParseParts(rules, v.rest);
      if parts.Err? then Err
      else if v.value.1.Some? then parts
      else if AtEnd(parts.rest) then Ok(parts.value, parts.rest[2..])
      else Err
  }

  function ParseParts(rules: Rules, s: Bytes): (r: Decoded<Bytes>)
    ensures r.Ok? ==> |r.rest| <= |s|
    decreases |s|, 1
  {
    if s == [] || AtEnd(s) then Ok([], s)
    else
      var id := ParseIdentifier(s);
      if id.Err? then Err
      else
        var first := ParseEncoded(rules, s, id.value.tag);
        if first.Err? then Err
        else
          var rest := ParseParts(rules, first.rest);
          if rest.Err? then Err else Ok(first.value + rest.value, rest.rest)
  }

  /** Segments up to the end of definite contents. */
  function WholeSegments(rules: Rules, s: Bytes): Option<Bytes>
    decreases |s|
  {
    if s == [] then Some([])
    else
      var first := ParseEncoded(rules, s, OCTET_STRING);
      if first.Err? then None
      else
        var rest := WholeSegments(rules, first.rest);
        if rest.None? then None else Some(first.value + rest.value)
  }

  /** Segments up to the end-of-contents octets, which are consumed. */
  function EndedSegments(rules: Rules, s: Bytes): Decoded<Bytes>
    decreases |s|
  {
    if AtEnd(s) then Ok([], s[2..])
    else
      var first := ParseEncoded(rules, s, OCTET_STRING);
      if first.Err? then Err
      else
        var rest := EndedSegments(rules, first.rest);
        if rest.Err? then Err else Ok(first.value + rest.value, rest.rest)
  }

  function DecString(rules: Rules, s: Bytes, tag: Tag): Decoded<Bytes> {
    var v := ParseValue(rules, s, tag);
    if v.Err? then Err
    else if !v.value.0.constructed then (if v.value.1.None? then Err else Ok(v.value.1.value, v.rest))
    else if rules.Der? then Err
    else if v.value.1.None? then EndedSegments(rules, v.rest)
    else
      var buffer := WholeSegments(rules, v.value.1.value);
      if buffer.None? then Err else Ok(buffer.value, v.rest)
  }

  // ----- What was written is read back -----

  lemma PrimitiveBack(rules: Rules, tag: Tag, value: Bytes, t: Bytes)
    requires tag != EOC && !AlwaysConstructed(tag) && |value| < TWO_64
    ensures ParseValue(rules, EncValue(Identifier(tag, false), value) + t, tag) == Ok((Identifier(tag, false), Some(value)), t)
  {
    hide EncValue, RefValue, ParseValue;
    ValueBack(Identifier(tag, false), value, t);
    ParserAgrees(rules, EncValue(Identifier(tag, false), value) + t);
  }

  /** A segment is read whole, and does not look like an end of contents. */
  lemma SegmentBack(rules: Rules, chunk: Bytes, t: Bytes)
    requires |chunk| < TWO_64
    ensures var s := EncValue(Identifier(OCTET_STRING, false), chunk) + t;
            !AtEnd(s) && ParseEncoded(rules, s, OCTET_STRING) == Ok(chunk, t)
  {
    hide ParseValue, DefiniteLength, Base128;
    PrimitiveBack(rules, OCTET_STRING, chunk, t);
    var s := EncValue(Identifier(OCTET_STRING, false), chunk) + t;
    assert s[0] == 4;
  }

  lemma {:induction false} SegmentsBack(rules: Rules, chunks: seq<Bytes>, t: Bytes)
    requires forall i :: 0 <= i < |chunks| ==> |chunks[i]| <= SEGMENT
    ensures EndedSegments(rules, Segments(OCTET_STRING, chunks) + END_OF_CONTENTS + t) == Ok(Flatten(chunks), t)
  {
    hide EncValue, ParseEncoded;
    var s := Segments(OCTET_STRING, chunks) + END_OF_CONTENTS + t;
    if chunks == [] {
      assert s == [0, 0] + t;
      assert s[2..] == t;
    } else {
      var rest := Segments(OCTET_STRING, chunks[1..]) + END_OF_CONTENTS + t;
      assert s == EncValue(Identifier(OCTET_STRING, false), chunks[0]) + rest;
      SegmentBack(rules, chunks[0], rest);
      SegmentsBack(rules, chunks[1..], t);
    }
  }

  lemma ConstructedBack(rules: Rules, tag: Tag, t: Bytes)
    requires tag != EOC && !rules.Der?
    ensures ParseValue(rules, EncIdentifier(Identifier(tag, true)) + ([START_OF_CONTENTS] + t), tag) == Ok((Identifier(tag, true), None), t)
  {
    hide EncIdentifier, ParseIdentifier, RefIdentifier;
    var id := Identifier(tag, true);
    IdentifierBack(id, [START_OF_CONTENTS] + t);
    IdentifierAgrees(EncIdentifier(id) + ([START_OF_CONTENTS] + t));
    assert ([START_OF_CONTENTS] + t)[1..] == t;
  }

  /**
   A string that is not split comes back under every set of rules and any ordinary tag, and a split
   one under any tag; what follows is left.
   */
  lemma UsualStringBack(rules: Rules, tag: Tag, value: Bytes, t: Bytes)
    requires tag != EOC && |value| < TWO_64 && (AlwaysConstructed(tag) ==> |value| > MaxStringLength(rules))
    ensures DecString(rules, EncString(rules, tag, OCTET_STRING, value) + t, tag) == Ok(value, t)
  {
    hide EncValue, ParseValue, EncIdentifier, Chunks, EndedSegments, Segments, AlwaysConstructed;
    if |value| > MaxStringLength(rules) {
      ChunksFit(value);
      ChunkSizes(value);
      var segments := Segments(OCTET_STRING, Chunks(value));
      var id := EncIdentifier(Identifier(tag, true));
      var rest := segments + END_OF_CONTENTS + t;
      assert id + [START_OF_CONTENTS] + segments + END_OF_CONTENTS + t == id + ([START_OF_CONTENTS] + rest);
      SegmentsBack(rules, Chunks(value), t);
      ConstructedBack(rules, tag, rest);
    } else {
      PrimitiveBack(rules, tag, value, t);
    }
  }

  lemma ContentsShorter(rules: Rules, s: Bytes, tag: Tag)
    requires ParseValue(rules, s, tag).Ok? && ParseValue(rules, s, tag).value.1.Some?
    ensures var v := ParseValue(rules, s, tag); |v.value.1.value| + |v.rest| < |s|
  {
    hide DecBase128;
  }

  /** A string that was read is shorter than what it was read from. */
  lemma {:induction false} EncodedShorter(rules: Rules, s: Bytes, tag: Tag)
    requires ParseEncoded(rules, s, tag).Ok?
    ensures var r := ParseEncoded(rules, s, tag); |r.value| + |r.rest| < |s|
    decreases |s|, 0
  {
    hide ParseValue;
    var v := ParseValue(rules, s, tag);
    if !v.value.0.constructed {
      ContentsShorter(rules, s, tag);
    } else {
      PartsShorter(rules, v.rest);
    }
  }

  lemma {:induction false} PartsShorter(rules: Rules, s: Bytes)
    requires ParseParts(rules, s).Ok?
    ensures var r := ParseParts(rules, s); |r.value| + |r.rest| <= |s|
    decreases |s|, 1
  {
    hide ParseEncoded, ParseIdentifier;
    if s != [] && !AtEnd(s) {
      var tag := ParseIdentifier(s).value.tag;
      EncodedShorter(rules, s, tag);
      PartsShorter(rules, ParseEncoded(rules, s, tag).rest);
    }
  }

  lemma {:induction false} WholeShorter(rules: Rules, s: Bytes)
    requires WholeSegments(rules, s).Some?
    ensures |WholeSegments(rules, s).value| <= |s| && (s != [] ==> |WholeSegments(rules, s).value| < |s|)
    decreases |s|
  {
    hide ParseEncoded;
    if s != [] {
      EncodedShorter(rules, s, OCTET_STRING);
      WholeShorter(rules, ParseEncoded(rules, s, OCTET_STRING).rest);
    }
  }

  /** EXTERNAL, SEQUENCE and SET identifiers say constructed even for a value that is not. */
  lemma UnusualTag(rules: Rules, tag: Tag, value: Bytes, t: Bytes)
    requires AlwaysConstructed(tag) && |value| < TWO_64
    ensures ParseValue(rules, EncValue(Identifier(tag, false), value) + t, tag) == Ok((Identifier(tag, true), Some(value)), t)
  {
    hide RefValue, ParseValue, DefiniteLength, Base128;
    assert EncValue(Identifier(tag, false), value) == EncValue(Identifier(tag, true), value);
    ValueBack(Identifier(tag, true), value, t);
    ParserAgrees(rules, EncValue(Identifier(tag, false), value) + t);
  }

  lemma EocRejected(rules: Rules, constructed: bool, t: Bytes)
    ensures ParseValue(rules, EncIdentifier(Identifier(EOC, constructed)) + t, EOC) == Err
  {
    var s := EncIdentifier(Identifier(EOC, constructed)) + t;
    assert s[0] == if constructed then 32 else 0;
  }

  /** When a string comes back that is written and read under `tag`. */
  predicate Returns(rules: Rules, tag: Tag, value: Bytes) {
    && tag != EOC
    && (AlwaysConstructed(tag) ==> |value| > MaxStringLength(rules) || (value == [] && !rules.Der?))
  }

  /**
   The round trip of an octet string under every set of rules and every tag: what was written, in one
   piece or in segments, is read back, and what follows is left, exactly if the tag is not that of
   end-of-contents, nor one that is always constructed on a value that is not split.
   */
  lemma StringBack(rules: Rules, tag: Tag, value: Bytes, t: Bytes)
    requires |value| < TWO_64
    ensures DecString(rules, EncString(rules, tag, OCTET_STRING, value) + t, tag) == Ok(value, t) <==> Returns(rules, tag, value)
  {
    hide EncValue, ParseValue, EncIdentifier, WholeSegments, EndedSegments, AlwaysConstructed, Segments, Chunks;
    if tag == EOC {
      EocString(rules, value, t);
    } else if !AlwaysConstructed(tag) || |value| > MaxStringLength(rules) {
      UsualStringBack(rules, tag, value, t);
    } else {
      UnusualTag(rules, tag, value, t);
      if WholeSegments(rules, value).Some? {
        WholeShorter(rules, value);
      }
      NoSegments(rules);
    }
  }

  lemma NoSegments(rules: Rules)
    ensures WholeSegments(rules, []) == Some([])
  {
  }

  lemma EocString(rules: Rules, value: Bytes, t: Bytes)
    requires |value| < TWO_64
    ensures DecString(rules, EncString(rules, EOC, OCTET_STRING, value) + t, EOC) == Err
  {
    hide ParseValue, EncIdentifier, DefiniteLength, Segments, Chunks, EndedSegments, WholeSegments;
    var s := EncString(rules, EOC, OCTET_STRING, value) + t;
    if |value| > MaxStringLength(rules) {
      ChunksFit(value);
      var rest := [START_OF_CONTENTS] + Segments(OCTET_STRING, Chunks(value)) + END_OF_CONTENTS + t;
      EocRejected(rules, true, rest);
      assert s == EncIdentifier(Identifier(EOC, true)) + rest;
    } else {
      var rest := DefiniteLength(|value|) + value + t;
      EocRejected(rules, false, rest);
      assert s == EncIdentifier(Identifier(EOC, false)) + rest;
    }
  }

  // ----- Strings of nested parts -----

  /** A string as any encoder may write it: parts within parts, of definite or indefinite length. */
  datatype Part = Segment(octets: Bytes) | Indefinite(parts: seq<Part>) | Definite(parts: seq<Part>)

  predicate PartFits(p: Part)
    decreases p, 0
  {
    match p
    case Segment(octets) => |octets| < TWO_64
    case Indefinite(parts) => PartsFit(parts)
    case Definite(parts) => PartsFit(parts) && |EncParts(parts)| < TWO_64
  }

  predicate PartsFit(parts: seq<Part>)
    decreases parts, 0
  {
    forall i :: 0 <= i < |parts| ==> PartFits(parts[i])
  }

  function EncPart(p: Part): Bytes
    requires PartFits(p)
    decreases p, 1
  {
    match p
    case Segment(octets) => EncValue(Identifier(OCTET_STRING, false), octets)
    case Indefinite(parts) =>
      EncIdentifier(Identifier(OCTET_STRING, true)) + ([START_OF_CONTENTS] + (EncParts(parts) + END_OF_CONTENTS))
    case Definite(parts) => EncValue(Identifier(OCTET_STRING, true), EncParts(parts))
  }

  function EncParts(parts: seq<Part>): Bytes
    requires PartsFit(parts)
    decreases parts, 1
  {
    if parts == [] then [] else EncPart(parts[0]) + EncParts(parts[1..])
  }

  /** The octets of a string. */
  function Whole(p: Part): Bytes
    decreases p, 0
  {
    match p
    case Segment(octets) => octets
    case Indefinite(parts) => WholeOf(parts)
    case Definite(parts) => WholeOf(parts)
  }

  function WholeOf(parts: seq<Part>): Bytes
    decreases parts, 1
  {
    if parts == [] then [] else Whole(parts[0]) + WholeOf(parts[1..])
  }

  /** The octets that are read: a part of definite length is skipped. */
  function Kept(p: Part): Bytes
    decreases p, 0
  {
    match p
    case Segment(octets) => octets
    case Indefinite(parts) => KeptOf(parts)
    case Definite(_) => []
  }

  function KeptOf(parts: seq<Part>): Bytes
    decreases parts, 1
  {
    if parts == [] then [] else Kept(parts[0]) + KeptOf(parts[1..])
  }

  /** The first octet of a part tells it from the end of contents, and its tag. */
  lemma PartHead(p: Part, t: Bytes)
    requires PartFits(p)
    ensures var s := EncPart(p) + t; s != [] && !AtEnd(s) && ParseIdentifier(s).Ok? && ParseIdentifier(s).value.tag == OCTET_STRING
  {
    hide DefiniteLength, DecBase128, Base128, EncParts;
    var s := EncPart(p) + t;
    assert s[0] == if p.Segment? then 4 else 0x24;
  }

  lemma DefiniteBack(rules: Rules, tag: Tag, contents: Bytes, t: Bytes)
    requires tag != EOC && |contents| < TWO_64
    ensures ParseValue(rules, EncValue(Identifier(tag, true), contents) + t, tag) == Ok((Identifier(tag, true), Some(contents)), t)
  {
    hide EncValue, RefValue, ParseValue;
    ValueBack(Identifier(tag, true), contents, t);
    ParserAgrees(rules, EncValue(Identifier(tag, true), contents) + t);
  }

  /** What the parser makes of one part: after a part of definite length it goes on with what follows. */
  lemma {:induction false} PartBack(rules: Rules, p: Part, t: Bytes)
    requires PartFits(p) && !rules.Der?
    ensures ParseEncoded(rules, EncPart(p) + t, OCTET_STRING) == if p.Definite? then ParseParts(rules, t) else Ok(Kept(p), t)
    decreases p, 0
  {
    hide ParseValue, EncValue, ParseParts, EncParts, EncIdentifier, KeptOf;
    match p
    case Segment(octets) => PrimitiveBack(rules, OCTET_STRING, octets, t);
    case Indefinite(parts) =>
      var contents := EncParts(parts) + (END_OF_CONTENTS + t);
      var id := EncIdentifier(Identifier(OCTET_STRING, true));
      assert EncPart(p) + t == id + ([START_OF_CONTENTS] + contents);
      ConstructedBack(rules, OCTET_STRING, contents);
      PartsBack(rules, parts, END_OF_CONTENTS + t);
      assert (END_OF_CONTENTS + t)[2..] == t;
    case Definite(parts) => DefiniteBack(rules, OCTET_STRING, EncParts(parts), t);
  }

  lemma {:induction false} PartsBack(rules: Rules, parts: seq<Part>, t: Bytes)
    requires PartsFit(parts) && !rules.Der? && (t == [] || AtEnd(t))
    ensures ParseParts(rules, EncParts(parts) + t) == Ok(KeptOf(parts), t)
    decreases parts, 1
  {
    hide ParseEncoded, EncPart, ParseIdentifier, PartFits;
    if parts == [] {
      assert [] + t == t;
    } else {
      var rest := EncParts(parts[1..]) + t;
      var s := EncPart(parts[0]) + rest;
      assert EncParts(parts) + t == s;
      PartHead(parts[0], rest);
      PartBack(rules, parts[0], rest);
      PartsBack(rules, parts[1..], t);
      var kept := KeptOf(parts[1..]);
      if parts[0].Definite? {
        assert ParseParts(rules, t) == Ok([], t);
        assert kept + [] == kept && [] + kept == kept;
      }
    }
  }

  lemma {:induction false} EndedBack(rules: Rules, parts: seq<Part>, t: Bytes)
    requires PartsFit(parts) && !rules.Der?
    ensures EndedSegments(rules, EncParts(parts) + (END_OF_CONTENTS + t)) == Ok(KeptOf(parts), t)
  {
    hide ParseEncoded, EncPart, ParseParts, PartFits, ParseIdentifier;
    var end := END_OF_CONTENTS + t;
    assert end[2..] == t && AtEnd(end);
    if parts == [] {
      assert [] + end == end;
    } else {
      var rest := EncParts(parts[1..]) + end;
      assert EncParts(parts) + end == EncPart(parts[0]) + rest;
      PartHead(parts[0], rest);
      PartBack(rules, parts[0], rest);
      if parts[0].Definite? {
        PartsBack(rules, parts[1..], end);
        var kept := KeptOf(parts[1..]);
        assert EndedSegments(rules, end) == Ok([], t);
        assert kept + [] == kept && [] + kept == kept;
      } else {
        EndedBack(rules, parts[1..], t);
      }
    }
  }

  lemma {:induction false} WholeBack(rules: Rules, parts: seq<Part>)
    requires PartsFit(parts) && !rules.Der?
    ensures WholeSegments(rules, EncParts(parts)) == Some(KeptOf(parts))
  {
    hide ParseEncoded, EncPart, ParseParts, PartFits, ParseIdentifier;
    if parts != [] {
      var rest := EncParts(parts[1..]);
      PartHead(parts[0], rest);
      PartBack(rules, parts[0], rest);
      if parts[0].Definite? {
        PartsBack(rules, parts[1..], []);
        assert rest + [] == rest;
        var kept := KeptOf(parts[1..]);
        assert WholeSegments(rules, []) == Some([]);
        assert kept + [] == kept && [] + kept == kept;
      } else {
        WholeBack(rules, parts[1..]);
      }
    }
  }

  /** A constructed string is read as its parts, without those of definite length among them. */
  lemma NestedBack(rules: Rules, tag: Tag, parts: seq<Part>, definite: bool, t: Bytes)
    requires tag != EOC && PartsFit(parts) && !rules.Der? && (definite ==> |EncParts(parts)| < TWO_64)
    ensures var s := if definite then EncValue(Identifier(tag, true), EncParts(parts))
                     else EncIdentifier(Identifier(tag, true)) + ([START_OF_CONTENTS] + (EncParts(parts) + END_OF_CONTENTS));
            DecString(rules, s + t, tag) == Ok(KeptOf(parts), t)
  {
    hide ParseValue, EncValue, EncParts, EncIdentifier, KeptOf, EndedSegments, WholeSegments;
    if definite {
      DefiniteBack(rules, tag, EncParts(parts), t);
      WholeBack(rules, parts);
    } else {
      var contents := EncParts(parts) + (END_OF_CONTENTS + t);
      var id := EncIdentifier(Identifier(tag, true));
      assert id + ([START_OF_CONTENTS] + (EncParts(parts) + END_OF_CONTENTS)) + t == id + ([START_OF_CONTENTS] + contents);
      ConstructedBack(rules, tag, contents);
      EndedBack(rules, parts, t);
    }
  }

  /** No part of definite length, on any level, has octets that are skipped. */
  predicate NothingLost(p: Part)
    decreases p, 0
  {
    match p
    case Segment(_) => true
    case Indefinite(parts) => NothingLostOf(parts)
    case Definite(_) => Whole(p) == []
  }

  predicate NothingLostOf(parts: seq<Part>)
    decreases parts, 1
  {
    parts != [] ==> NothingLost(parts[0]) && NothingLostOf(parts[1..])
  }

  lemma {:induction false} PartLost(p: Part)
    ensures |Kept(p)| <= |Whole(p)| && (|Kept(p)| == |Whole(p)| <==> NothingLost(p)) && (NothingLost(p) ==> Kept(p) == Whole(p))
    decreases p, 0
  {
    if p.Indefinite? {
      PartsLost(p.parts);
    }
  }

  /** The parts are reassembled to the string exactly if nothing is lost. */
  lemma {:induction false} PartsLost(parts: seq<Part>)
    ensures |KeptOf(parts)| <= |WholeOf(parts)| && (|KeptOf(parts)| == |WholeOf(parts)| <==> NothingLostOf(parts))
    ensures KeptOf(parts) == WholeOf(parts) <==> NothingLostOf(parts)
    decreases parts, 1
  {
    if parts != [] {
      PartLost(parts[0]);
      PartsLost(parts[1..]);
    }
  }

  /** A string of two octets within two levels of definite length decodes to the empty string. */
  lemma SkippedPart(rules: Rules)
    requires !rules.Der?
    ensures DecString(rules, [0x24, 6, 0x24, 4, 4, 2, 0xAA, 0xBB], OCTET_STRING) == Ok([], [])
  {
    hide DecString;
    var inner := [4, 2, 0xAA, 0xBB];
    var segment := Segment([0xAA, 0xBB]);
    var part := Definite([segment]);
    assert EncPart(segment) == inner;
    assert EncParts([segment]) == inner by {
      assert [segment][1..] == [];
      assert inner + [] == inner;
    }
    var middle := [0x24, 4] + inner;
    assert EncPart(part) == middle;
    assert EncParts([part]) == middle by {
      assert [part][1..] == [];
      assert middle + [] == middle;
    }
    NestedBack(rules, OCTET_STRING, [part], true, []);
    var all := [0x24, 6] + middle;
    assert EncValue(Identifier(OCTET_STRING, true), middle) == all;
    assert all + [] == [0x24, 6, 0x24, 4, 4, 2, 0xAA, 0xBB];
    assert KeptOf([part]) == [] by {
      assert [part][1..] == [];
    }
  }
}
