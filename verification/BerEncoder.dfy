/**
 The BER, CER and DER encoder: an output buffer, and for a SET an ordered map into which every
 complete value is moved from the output.
 */
module BerEncoder {
  import opened Common
  import opened Decoding
  import opened BigEndian
  import opened BerBase128
  import opened BerTree
  import opened BerString
  import opened BerCer
  import opened BerOrder

  function Encoding(rules: Rules, v: Node): Bytes {
    if TreeFits(rules, v) then TreeBytes(rules, v) else []
  }

  function EncodingUnder(rules: Rules): Node -> Bytes {
    v => Encoding(rules, v)
  }

  function EntryUnder(rules: Rules): Node -> Entry {
    (v: Node) => Entry(v.tag, Encoding(rules, v))
  }

  /** The components of a SET with their tags. */
  function Entries(rules: Rules, fields: seq<Node>): seq<Entry> {
    Map(fields, EntryUnder(rules))
  }

  function Encodings(rules: Rules, elements: seq<Node>): seq<Bytes> {
    Map(elements, EncodingUnder(rules))
  }

  lemma LowestOctet(n: nat, after: Bytes)
    ensures UnsignedBytes(n) + after == if n < 256 then [n % 256] + after else UnsignedBytes(n / 256) + ([n % 256] + after)
  {
  }

  lemma CollectedStep(entries: seq<Entry>, i: nat)
    requires i < |entries|
    ensures Collected(entries[..i + 1]) == Insert(Collected(entries[..i]), entries[i])
  {
    hide Insert;
    assert entries[..i + 1][..i] == entries[..i];
  }

  lemma CollectedNothing(entries: seq<Entry>)
    ensures Collected(entries[..0]) == []
  {
  }

  class Encoder {
    const rules: Rules
    const isSetEncoding: bool
    var output: Bytes
    var setBuffer: seq<Entry>

    constructor (rules: Rules, isSetEncoding: bool)
      ensures this.rules == rules && this.isSetEncoding == isSetEncoding && output == [] && setBuffer == []
    {
      this.rules := rules;
      this.isSetEncoding := isSetEncoding;
      output := [];
      setBuffer := [];
    }

    /** The encoding: the output, or for a SET the values of the map in order. */
    method Output() returns (bytes: Bytes)
      ensures bytes == if isSetEncoding then Values(setBuffer) else output
    {
      if !isSetEncoding {
        return output;
      }
      bytes := [];
      for i := 0 to |setBuffer|
        invariant bytes + Values(setBuffer[i..]) == Values(setBuffer)
      {
        assert setBuffer[i..][1..] == setBuffer[i + 1..];
        ghost var rest := Values(setBuffer[i + 1..]);
        assert bytes + (setBuffer[i].bytes + rest) == bytes + setBuffer[i].bytes + rest;
        bytes := bytes + setBuffer[i].bytes;
      }
      assert bytes + [] == bytes;
    }

    method EncodeIdentifier(id: Identifier) returns (bytes: Bytes)
      ensures bytes == EncIdentifier(id)
    {
      var tagByte := id.tag.cls;
      tagByte := 2 * tagByte + if AlwaysConstructed(id.tag) then 1 else if id.constructed then 1 else 0;
      tagByte := 32 * tagByte;
      if id.tag.value >= 31 {
        bytes := EncodeAsBase128(id.tag.value, [tagByte + 31]);
      } else {
        bytes := [tagByte + id.tag.value];
      }
    }

    method EncodeDefiniteLength(n: nat) returns (bytes: Bytes)
      requires n < TWO_64
      ensures bytes == DefiniteLength(n)
    {
      hide UnsignedBytes;
      if n <= 127 {
        return [n];
      }
      var length := n;
      bytes := [];
      assert UnsignedBytes(n) + [] == UnsignedBytes(n);
      while length != 0
        invariant UnsignedBytes(n) == if length == 0 then bytes else UnsignedBytes(length) + bytes
        decreases length
      {
        LowestOctet(length, bytes);
        bytes := [length % 256] + bytes;
        length := length / 256;
      }
      UsizeLength(n);
      bytes := [128 + |bytes|] + bytes;
    }

    method EncodeLength(id: Identifier, value: Bytes)
      requires |value| < TWO_64 || (id.constructed && rules.Cer?)
      modifies this`output
      ensures output == old(output) +
        if !id.constructed || !rules.Cer? then DefiniteLength(|value|) + value else [START_OF_CONTENTS] + value + END_OF_CONTENTS
    {
      if !id.constructed || !rules.Cer? {
        var length := EncodeDefiniteLength(|value|);
        output := output + length;
        output := output + value;
      } else {
        output := output + [START_OF_CONTENTS];
        output := output + value;
        output := output + END_OF_CONTENTS;
      }
    }

    /** Moves a complete value to the map of a SET. */
    method EncodeToSet(tag: Tag)
      modifies this`output, this`setBuffer
      ensures isSetEncoding ==> output == [] && setBuffer == Insert(old(setBuffer), Entry(tag, old(output)))
      ensures !isSetEncoding ==> output == old(output) && setBuffer == old(setBuffer)
    {
      if isSetEncoding {
        setBuffer := Insert(setBuffer, Entry(tag, output));
        output := [];
      }
    }

    /** The encoder has written the octets `bytes` of a complete value. */
    twostate predicate Wrote(tag: Tag, bytes: Bytes)
      reads this
    {
      if isSetEncoding
      then output == [] && setBuffer == Insert(old(setBuffer), Entry(tag, old(output) + bytes))
      else output == old(output) + bytes && setBuffer == old(setBuffer)
    }

    method EncodeValue(id: Identifier, value: Bytes)
      requires |value| < TWO_64 || (id.constructed && rules.Cer?)
      modifies this`output, this`setBuffer
      ensures Wrote(id.tag, EncTlv(rules, id, value))
    {
      hide EncIdentifier, DefiniteLength;
      var identifier := EncodeIdentifier(id);
      output := output + identifier;
      EncodeLength(id, value);
      assert output == old(output) + EncTlv(rules, id, value);
      EncodeToSet(id.tag);
    }

    /**
     Encodes a string, in segments if it is long. In a SET each segment is filed like a complete value, in place of
     the one before, so that of a long string the last segment and the end mark remain.
     */
    method EncodeString(tag: Tag, nested: Tag, value: Bytes)
      requires |value| < TWO_64
      modifies this`output, this`setBuffer
      ensures !(isSetEncoding && |value| > MaxStringLength(rules)) ==> Wrote(tag, EncString(rules, tag, nested, value))
      ensures isSetEncoding && |value| > MaxStringLength(rules) ==>
        && output == []
        && setBuffer == Insert(Insert(old(setBuffer), Entry(nested, LastSegment(nested, value))), Entry(tag, END_OF_CONTENTS))
    {
      hide Segments, Chunks, EncIdentifier, EncValue, Insert;
      if |value| > MaxStringLength(rules) {
        ChunksFit(value);
        var identifier := EncodeIdentifier(Identifier(tag, true));
        output := output + identifier;
        output := output + [START_OF_CONTENTS];
        EncodeSegments(nested, value);
        output := output + END_OF_CONTENTS;
        assert isSetEncoding ==> output == END_OF_CONTENTS;
        Joined(old(output), identifier, [START_OF_CONTENTS], Segments(nested, Chunks(value)), END_OF_CONTENTS);
        EncodeToSet(tag);
      } else {
        EncodeValue(Identifier(tag, false), value);
      }
    }

    method EncodeSegments(nested: Tag, value: Bytes)
      requires isSetEncoding ==> |value| > SEGMENT
      modifies this`output, this`setBuffer
      ensures forall i :: 0 <= i < |Chunks(value)| ==> |Chunks(value)[i]| <= SEGMENT
      ensures !isSetEncoding ==> output == old(output) + Segments(nested, Chunks(value)) && setBuffer == old(setBuffer)
      ensures isSetEncoding ==>
        output == [] && setBuffer == Insert(old(setBuffer), Entry(nested, LastSegment(nested, value)))
    {
      hide EncValue, Insert, Segments, Chunks, LastSegment;
      ChunksFit(value);
      var rest := value;
      ghost var filed: Bytes := [];
      while rest != []
        invariant forall i :: 0 <= i < |Chunks(rest)| ==> |Chunks(rest)[i]| <= SEGMENT
        invariant !isSetEncoding ==>
          output + Segments(nested, Chunks(rest)) == old(output) + Segments(nested, Chunks(value)) && setBuffer == old(setBuffer)
        invariant isSetEncoding && rest == value ==> setBuffer == old(setBuffer)
        invariant isSetEncoding && rest != value ==> output == [] && setBuffer == Insert(old(setBuffer), Entry(nested, filed))
        invariant isSetEncoding && rest != [] ==> LastSegment(nested, rest) == LastSegment(nested, value)
        invariant isSetEncoding && rest == [] ==> filed == LastSegment(nested, value)
        decreases |rest|
      {
        ChunksFit(rest);
        var n := Min(SEGMENT, |rest|);
        ChunksFit(rest[n..]);
        SegmentsStep(nested, rest);
        ghost var before, last := output, filed;
        EncodeValue(Identifier(nested, false), rest[..n]);
        assert before + (EncValue(Identifier(nested, false), rest[..n]) + Segments(nested, Chunks(rest[n..]))) ==
               before + EncValue(Identifier(nested, false), rest[..n]) + Segments(nested, Chunks(rest[n..]));
        filed := before + EncValue(Identifier(nested, false), rest[..n]);
        InsertTwice(old(setBuffer), Entry(nested, last), Entry(nested, filed));
        LastSegmentStep(nested, rest);
        if isSetEncoding && |rest| <= SEGMENT {
          assert before == [] && rest[..n] == rest && filed == EncValue(Identifier(nested, false), rest);
        }
        rest := rest[n..];
      }
      NothingSegmented(nested);
      assert output + [] == output;
    }

    /** Encodes a tree: a constructed value by an encoder of its own for the contents. */
    method EncodeNode(v: Node)
      requires TreeFits(rules, v)
      modifies this`output, this`setBuffer
      ensures Wrote(v.tag, TreeBytes(rules, v))
      decreases v, 0
    {
      hide TreeFits, TreeBytes, TreesBytes, EncTlv, Insert;
      TreeParts(rules, v);
      match v
      case Primitive(tag, contents) =>
        EncodeValue(Identifier(tag, false), contents);
      case Constructed(tag, children) =>
        var encoder := new Encoder(rules, false);
        encoder.EncodeNodes(children);
        assert encoder.output == TreesBytes(rules, children);
        EncodeValue(Identifier(tag, true), encoder.output);
    }

    method EncodeNodes(nodes: seq<Node>)
      requires TreesFit(rules, nodes) && !isSetEncoding
      modifies this`output, this`setBuffer
      ensures output == old(output) + TreesBytes(rules, nodes) && setBuffer == old(setBuffer)
      decreases nodes, 1
    {
      hide TreeFits, TreeBytes;
      for i := 0 to |nodes|
        invariant output == old(output) + TreesBytes(rules, nodes[..i]) && setBuffer == old(setBuffer)
      {
        TreesStep(rules, nodes, i);
        ghost var before := TreesBytes(rules, nodes[..i]);
        assert old(output) + (before + TreeBytes(rules, nodes[i])) == old(output) + before + TreeBytes(rules, nodes[i]);
        EncodeNode(nodes[i]);
      }
      assert nodes[..|nodes|] == nodes;
    }

    /** Encodes a SET: the components in the order of their tags, whatever order they come in. */
    method EncodeSet(tag: Tag, fields: seq<Node>)
      requires TreesFit(rules, fields) && (rules.Cer? || |Values(Collected(Entries(rules, fields)))| < TWO_64)
      modifies this`output, this`setBuffer
      ensures Wrote(tag, EncTlv(rules, Identifier(tag, true), Values(Collected(Entries(rules, fields)))))
    {
      hide TreeFits, TreeBytes, EncTlv, Insert, Values, Collected;
      ghost var entries := Entries(rules, fields);
      CollectedNothing(entries);
      var encoder := new Encoder(rules, true);
      for i := 0 to |fields|
        invariant output == old(output) && setBuffer == old(setBuffer)
        invariant encoder.output == [] && encoder.setBuffer == Collected(entries[..i])
      {
        CollectedStep(entries, i);
        assert entries[i] == Entry(fields[i].tag, TreeBytes(rules, fields[i]));
        assert [] + TreeBytes(rules, fields[i]) == TreeBytes(rules, fields[i]);
        encoder.EncodeNode(fields[i]);
      }
      assert entries[..|fields|] == entries;
      var contents := encoder.Output();
      EncodeValue(Identifier(tag, true), contents);
    }

    /** Encodes a SET OF: the encodings of the elements in ascending order. */
    method EncodeSetOf(tag: Tag, elements: seq<Node>)
      requires TreesFit(rules, elements) && (rules.Cer? || |Flatten(Sort(Encodings(rules, elements)))| < TWO_64)
      modifies this`output, this`setBuffer
      ensures Wrote(tag, EncTlv(rules, Identifier(tag, true), Flatten(Sort(Encodings(rules, elements)))))
    {
      hide TreeFits, TreeBytes, EncTlv;
      var encodings := [];
      for i := 0 to |elements|
        invariant output == old(output) && setBuffer == old(setBuffer)
        invariant encodings == Encodings(rules, elements)[..i]
      {
        var encoder := new Encoder(rules, false);
        encoder.EncodeNode(elements[i]);
        assert [] + TreeBytes(rules, elements[i]) == TreeBytes(rules, elements[i]);
        assert Encodings(rules, elements)[i] == TreeBytes(rules, elements[i]);
        encodings := encodings + [encoder.output];
      }
      assert encodings == Encodings(rules, elements);
      EncodeValue(Identifier(tag, true), Flatten(Sort(encodings)));
    }
  }

  lemma Joined(a: Bytes, b: Bytes, c: Bytes, d: Bytes, e: Bytes)
    ensures a + b + c + d + e == a + (b + c + d + e)
  {
  }

  lemma NothingSegmented(nested: Tag)
    ensures Chunks([]) == [] && Segments(nested, Chunks([])) == []
  {
  }

  function LastSegment(nested: Tag, value: Bytes): Bytes
    requires value != []
  {
    ChunkSizes(value);
    EncValue(Identifier(nested, false), Chunks(value)[|Chunks(value)| - 1])
  }

  lemma LastSegmentStep(nested: Tag, rest: Bytes)
    requires rest != []
    ensures LastSegment(nested, rest) ==
            if |rest| <= SEGMENT then EncValue(Identifier(nested, false), rest) else LastSegment(nested, rest[SEGMENT..])
  {
    hide EncValue;
    ChunkSizes(rest);
    if |rest| > SEGMENT {
      ChunkSizes(rest[SEGMENT..]);
    }
  }

  lemma SegmentsStep(nested: Tag, rest: Bytes)
    requires rest != []
    ensures forall i :: 0 <= i < |Chunks(rest)| ==> |Chunks(rest)[i]| <= SEGMENT
    ensures var n := Min(SEGMENT, |rest|);
            && (forall i :: 0 <= i < |Chunks(rest[n..])| ==> |Chunks(rest[n..])[i]| <= SEGMENT)
            && Segments(nested, Chunks(rest)) ==
               EncValue(Identifier(nested, false), rest[..n]) + Segments(nested, Chunks(rest[n..]))
  {
    hide EncValue;
    ChunksFit(rest);
    var n := Min(SEGMENT, |rest|);
    ChunksFit(rest[n..]);
    if |rest| <= SEGMENT {
      assert rest[n..] == [] && rest[..n] == rest;
      assert Chunks(rest)[1..] == [];
    } else {
      assert Chunks(rest)[1..] == Chunks(rest[n..]);
    }
  }

  // ----- The orders of SET and SET OF -----

  /** A SET does not depend on the order in which its components are written, and holds each once by ascending tag. */
  lemma SetIsOrdered(rules: Rules, a: seq<Node>, b: seq<Node>)
    requires multiset(a) == multiset(b)
    requires forall i, j :: 0 <= i < j < |a| ==> a[i].tag != a[j].tag
    ensures Collected(Entries(rules, a)) == Collected(Entries(rules, b)) && Ascending(Collected(Entries(rules, a)))
    ensures multiset(Collected(Entries(rules, a))) == multiset(Entries(rules, a))
  {
    hide Encoding, Collected, Ascending;
    MapPermutation(a, b, EntryUnder(rules));
    assert forall i :: 0 <= i < |a| ==> Entries(rules, a)[i].tag == a[i].tag;
    CollectedKeeps(Entries(rules, a));
    assert DistinctTags(Entries(rules, b)) by {
      SameTags(Entries(rules, a), Entries(rules, b));
    }
    SetOrder(Entries(rules, a), Entries(rules, b));
  }

  /** A SET OF does not depend on the order of its elements. */
  lemma SetOfIsOrdered(rules: Rules, a: seq<Node>, b: seq<Node>)
    requires multiset(a) == multiset(b)
    ensures Flatten(Sort(Encodings(rules, a))) == Flatten(Sort(Encodings(rules, b)))
  {
    hide Encoding, Sort;
    MapPermutation(a, b, EncodingUnder(rules));
    SortKeeps(Encodings(rules, b));
    SetOfCanonical(Encodings(rules, a), Encodings(rules, b), Sort(Encodings(rules, b)));
  }

  ghost predicate IsEntry(rules: Rules, e: Entry) {
    exists v :: TreeFits(rules, v) && e == Entry(v.tag, TreeBytes(rules, v))
  }

  /** Complete values one after the other are read back one by one. */
  lemma {:induction false} ValuesReadBack(rules: Rules, m: seq<Entry>)
    requires forall e :: e in m ==> IsEntry(rules, e)
    ensures RefTrees(rules, Values(m)).Some? && Entries(rules, RefTrees(rules, Values(m)).value) == m
  {
    hide TreeFits, TreeBytes, RefTrees, Values, Entries;
    if m == [] {
      NothingReadBack(rules);
    } else {
      assert m[0] in m;
      var v :| TreeFits(rules, v) && m[0] == Entry(v.tag, TreeBytes(rules, v));
      assert forall e :: e in m[1..] ==> e in m;
      ValuesReadBack(rules, m[1..]);
      FirstReadBack(rules, m, v);
    }
  }

  lemma NothingReadBack(rules: Rules)
    ensures RefTrees(rules, Values([])) == Some([]) && Entries(rules, []) == []
  {
    hide RefTrees;
    NoTrees(rules);
  }

  lemma {:induction false} FirstReadBack(rules: Rules, m: seq<Entry>, v: Node)
    requires m != [] && TreeFits(rules, v) && m[0] == Entry(v.tag, TreeBytes(rules, v))
    requires var rest := RefTrees(rules, Values(m[1..])); rest.Some? && Entries(rules, rest.value) == m[1..]
    ensures RefTrees(rules, Values(m)).Some? && Entries(rules, RefTrees(rules, Values(m)).value) == m
  {
    hide TreeFits, TreeBytes, RefTrees;
    FirstTree(rules, v, Values(m[1..]));
    var rest := RefTrees(rules, Values(m[1..])).value;
    assert RefTrees(rules, Values(m)) == Some([v] + rest);
    var back := Entries(rules, [v] + rest);
    assert back[0] == m[0];
    assert forall i :: 0 < i < |m| ==> back[i] == Entries(rules, rest)[i - 1] == m[i];
  }

  /** A SET is read back as its components, each once, in ascending order of their tags. */
  lemma SetReadsBack(rules: Rules, fields: seq<Node>)
    requires TreesFit(rules, fields)
    requires forall i, j :: 0 <= i < j < |fields| ==> fields[i].tag != fields[j].tag
    ensures var back := RefTrees(rules, Values(Collected(Entries(rules, fields))));
            && back.Some? && multiset(Entries(rules, back.value)) == multiset(Entries(rules, fields))
            && forall i, j :: 0 <= i < j < |back.value| ==>
                 back.value[i].tag.cls * 0x1_0000_0000 + back.value[i].tag.value <
                 back.value[j].tag.cls * 0x1_0000_0000 + back.value[j].tag.value
  {
    hide TreeFits, TreeBytes, Collected, RefTrees, Values, TagLess;
    SetIsOrdered(rules, fields, fields);
    var m := Collected(Entries(rules, fields));
    forall e | e in m
      ensures IsEntry(rules, e)
    {
      assert e in multiset(m);
      assert e in Entries(rules, fields);
    }
    ValuesReadBack(rules, m);
    var back := RefTrees(rules, Values(m)).value;
    assert forall i :: 0 <= i < |back| ==> back[i].tag == m[i].tag;
    forall i, j | 0 <= i < j < |back|
      ensures Rank(back[i].tag) < Rank(back[j].tag)
    {
      RankIs(m[i].tag, m[j].tag);
    }
  }

  /** A tag as one number: the class first. */
  function Rank(tag: Tag): nat {
    tag.cls * 0x1_0000_0000 + tag.value
  }

  lemma RankIs(a: Tag, b: Tag)
    ensures TagLess(a, b) <==> Rank(a) < Rank(b)
  {
  }

  /** A tree written by the encoder and read by the reference parser, under every set of rules. */
  method RoundTrip(rules: Rules, v: Node, tail: Bytes) returns (r: Decoded<Node>)
    requires TreeFits(rules, v)
    ensures r == Ok(v, tail)
  {
    hide TreeFits, TreeBytes, RefTree;
    var encoder := new Encoder(rules, false);
    encoder.EncodeNode(v);
    assert encoder.output == TreeBytes(rules, v);
    TreeBack(rules, v, tail);
    r := RefTree(rules, encoder.output + tail);
  }
}
