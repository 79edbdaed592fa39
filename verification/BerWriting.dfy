/**
 The octets that the BER, CER and DER encoder writes (X.690 clauses 8.1 and 9.2), as rules stated without the
 encoder.
 */
module BerWriting {
  import opened Common
  import opened BigEndian
  import opened Positional
  import opened Decoding
  import opened BerBase128
  import opened BerTree
  import opened BerString
  import opened BerCer

  // ----- The rules -----

  /** EXTERNAL, SEQUENCE and SET. */
  predicate OnlyConstructed(tag: Tag) {
    tag.cls == 0 && tag.value in {8, 16, 17}
  }

  /** Class, constructed bit and number; a number from 31 on in its shortest form behind the octet. */
  predicate IdentifierWritten(tag: Tag, constructed: bool, b: Bytes) {
    && b != []
    && b[0] == 64 * tag.cls + (if constructed || OnlyConstructed(tag) then 32 else 0) + (if tag.value < 31 then tag.value else 31)
    && if tag.value < 31 then |b| == 1
       else
         var g := b[1..];
         && g != [] && g[0] != 128 && g[|g| - 1] < 128 && (forall i :: 0 <= i < |g| - 1 ==> g[i] >= 128)
         && tag.value == Septal(g)
  }

  /** The shortest definite length. */
  predicate LengthWritten(n: nat, l: Bytes) {
    (n < 128 && l == [n]) || (2 <= |l| <= 9 && l[0] == 127 + |l| && n == Big(l[1..]) && l[1] != 0 && n >= 128)
  }

  ghost predicate ValueWritten(tag: Tag, constructed: bool, contents: Bytes, b: Bytes) {
    exists i: Bytes, l: Bytes :: IdentifierWritten(tag, constructed, i) && LengthWritten(|contents|, l) && b == i + l + contents
  }

  /** Primitive values of 1000 octets, and a last one of 1 to 1000. */
  ghost predicate SegmentsWritten(tag: Tag, value: Bytes, b: Bytes)
    decreases |value|
  {
    if value == [] then b == []
    else if |value| <= 1000 then ValueWritten(tag, false, value, b)
    else exists a: Bytes, z: Bytes :: b == a + z && SegmentThen(tag, value, a, z)
  }

  ghost predicate SegmentThen(tag: Tag, value: Bytes, a: Bytes, z: Bytes)
    requires |value| > 1000
    decreases |value|, 0
  {
    ValueWritten(tag, false, value[..1000], a) && SegmentsWritten(tag, value[1000..], z)
  }

  /** Only CER splits a string, and only above 1000 octets. */
  ghost predicate StringWritten(rules: Rules, tag: Tag, nested: Tag, value: Bytes, b: Bytes) {
    if rules == Cer && |value| > 1000 then
      exists i: Bytes, z: Bytes :: IdentifierWritten(tag, true, i) && SegmentsWritten(nested, value, z) && b == i + [0x80] + z + [0, 0]
    else ValueWritten(tag, false, value, b)
  }

  /** A tree: contents between a marked start and end under CER, and behind their length under BER and DER. */
  ghost predicate TreeWritten(rules: Rules, v: Node, b: Bytes)
    decreases v, 0
  {
    match v
    case Primitive(tag, contents) => ValueWritten(tag, false, contents, b)
    case Constructed(tag, children) =>
      if rules == Cer then
        exists i: Bytes, z: Bytes ::
          IdentifierWritten(tag, true, i) && TreesWritten(rules, children, z) && b == i + [0x80] + z + [0, 0]
      else exists z: Bytes :: TreesWritten(rules, children, z) && ValueWritten(tag, true, z, b)
  }

  ghost predicate TreesWritten(rules: Rules, nodes: seq<Node>, b: Bytes)
    decreases nodes, 1
  {
    if nodes == [] then b == [] else exists a: Bytes, z: Bytes :: b == a + z && TreeThen(rules, nodes, a, z)
  }

  ghost predicate TreeThen(rules: Rules, nodes: seq<Node>, a: Bytes, z: Bytes)
    requires nodes != []
    decreases nodes, 0
  {
    TreeWritten(rules, nodes[0], a) && TreesWritten(rules, nodes[1..], z)
  }

  // ----- The encoder's parts -----

  lemma {:induction false} ContinuedGroups(n: nat)
    ensures var g := Continued(n); Septal(g) == n && forall i :: 0 <= i < |g| ==> g[i] >= 128
  {
    var g := Continued(n);
    if n >= 128 {
      ContinuedGroups(n / 128);
      assert g[..|g| - 1] == Continued(n / 128);
    } else {
      assert g[..0] == [];
    }
  }

  lemma Base128Groups(n: nat)
    ensures var g := Base128(n);
            Septal(g) == n && g[0] != 128 && g[|g| - 1] < 128 && forall i :: 0 <= i < |g| - 1 ==> g[i] >= 128
  {
    hide Continued;
    var g := Base128(n);
    Base128Minimal(n);
    if n >= 128 {
      ContinuedGroups(n / 128);
      assert g[..|g| - 1] == Continued(n / 128);
    } else {
      assert g[..0] == [];
    }
  }

  /** Groups without a leading group of zeros are the base-128 form of their number. */
  lemma {:induction false} GroupsBase128(g: Bytes, t: Bytes)
    requires g != [] && g[0] != 128 && g[|g| - 1] < 128 && forall i :: 0 <= i < |g| - 1 ==> g[i] >= 128
    ensures g == Base128(Septal(g))
  {
    hide Continued, Base128, Septal;
    GroupsNumber(g, 0);
    Base128Canonical(g);
    assert g + [] == g;
  }

  lemma {:induction false} GroupsNumber(g: Bytes, acc: nat)
    requires g != [] && g[|g| - 1] < 128 && forall i :: 0 <= i < |g| - 1 ==> g[i] >= 128
    ensures Number(g, acc) == Ok(acc * Seven(|g|) + Septal(g), [])
    decreases |g|
  {
    hide Septal, Seven, Number;
    SeptalHead(g);
    SeptalHead(g[1..]);
    SevenIs(|g| - 1);
    SevenIs(0);
    NumberStep(g, acc);
    if |g| > 1 {
      GroupsNumber(g[1..], 128 * acc + (g[0] - 128));
      var p := Seven(|g| - 1);
      assert (128 * acc + (g[0] - 128)) * p == acc * (128 * p) + (g[0] - 128) * p;
    } else {
      assert g[1..] == [];
    }
  }

  lemma NumberStep(g: Bytes, acc: nat)
    requires g != []
    ensures Number(g, acc) == if g[0] < 128 then Ok(128 * acc + g[0], g[1..]) else Number(g[1..], 128 * acc + (g[0] - 128))
  {
  }

  lemma LeadIs(tag: Tag, constructed: bool)
    ensures 64 * tag.cls + (if constructed || OnlyConstructed(tag) then 32 else 0) == Lead(Identifier(tag, constructed))
  {
  }

  lemma IdentifierIs(tag: Tag, constructed: bool, b: Bytes)
    ensures IdentifierWritten(tag, constructed, b) <==> b == EncIdentifier(Identifier(tag, constructed))
  {
    hide Septal, Base128, OnlyConstructed, Lead;
    LeadIs(tag, constructed);
    if tag.value >= 31 {
      LongIs(tag, constructed, b);
    }
  }

  lemma LongIs(tag: Tag, constructed: bool, b: Bytes)
    requires tag.value >= 31
    ensures IdentifierWritten(tag, constructed, b) <==> b == EncIdentifier(Identifier(tag, constructed))
  {
    hide Septal, Base128, OnlyConstructed, Lead;
    LeadIs(tag, constructed);
    Base128Groups(tag.value);
    var lead: Byte := Lead(Identifier(tag, constructed)) + 31;
    assert ([lead] + Base128(tag.value))[1..] == Base128(tag.value);
    if IdentifierWritten(tag, constructed, b) {
      GroupsBase128(b[1..], []);
      assert b == [b[0]] + b[1..];
    }
  }

  lemma LengthIs(n: nat, l: Bytes)
    requires n < 0x1_0000_0000_0000_0000
    ensures LengthWritten(n, l) <==> l == DefiniteLength(n)
  {
    hide UnsignedBytes, UnsignedValue, Big;
    if n >= 128 {
      var c := UnsignedBytes(n);
      UsizeLength(n);
      UnsignedRoundTrip(n);
      UnsignedMinimal(n);
      BigIs(c);
      assert ([128 + |c|] + c)[1..] == c;
      if |l| >= 2 {
        BigIs(l[1..]);
        assert l == [l[0]] + l[1..];
        if l[1] != 0 {
          UnsignedCanonical(l[1..]);
        }
      }
    }
  }

  lemma ValueIs(tag: Tag, constructed: bool, contents: Bytes, b: Bytes)
    requires |contents| < 0x1_0000_0000_0000_0000
    ensures ValueWritten(tag, constructed, contents, b) <==> b == EncValue(Identifier(tag, constructed), contents)
  {
    hide EncIdentifier, DefiniteLength, IdentifierWritten, LengthWritten;
    var e, n := EncIdentifier(Identifier(tag, constructed)), DefiniteLength(|contents|);
    IdentifierIs(tag, constructed, e);
    LengthIs(|contents|, n);
    if i: Bytes, l: Bytes :| IdentifierWritten(tag, constructed, i) && LengthWritten(|contents|, l) && b == i + l + contents {
      IdentifierIs(tag, constructed, i);
      LengthIs(|contents|, l);
    }
  }

  lemma {:induction false} SegmentsPart(tag: Tag, value: Bytes, b: Bytes) returns (a: Bytes, z: Bytes)
    requires |value| > 1000 && SegmentsWritten(tag, value, b)
    ensures b == a + z && SegmentThen(tag, value, a, z)
  {
    a, z :| b == a + z && SegmentThen(tag, value, a, z);
  }

  lemma {:induction false} SegmentsAre(tag: Tag, value: Bytes, b: Bytes)
    ensures forall i :: 0 <= i < |Chunks(value)| ==> |Chunks(value)[i]| <= SEGMENT
    ensures SegmentsWritten(tag, value, b) <==> b == Segments(tag, Chunks(value))
    decreases |value|
  {
    hide EncValue, ValueWritten;
    ChunksFit(value);
    if 0 < |value| <= 1000 {
      ValueIs(tag, false, value, b);
      assert Chunks(value) == [value] && [value][1..] == [];
      var e := EncValue(Identifier(tag, false), value);
      assert e + [] == e;
    } else if |value| > 1000 {
      var a, z := EncValue(Identifier(tag, false), value[..1000]), Segments(tag, Chunks(value)[1..]);
      assert Chunks(value)[1..] == Chunks(value[1000..]);
      ValueIs(tag, false, value[..1000], a);
      SegmentsAre(tag, value[1000..], z);
      if b == Segments(tag, Chunks(value)) {
        assert b == a + z && SegmentThen(tag, value, a, z);
      }
      if SegmentsWritten(tag, value, b) {
        var a', z' := SegmentsPart(tag, value, b);
        ValueIs(tag, false, value[..1000], a');
        SegmentsAre(tag, value[1000..], z');
      }
    }
  }

  /** The encoder of a string writes exactly what the rules allow. */
  lemma StringExactly(rules: Rules, tag: Tag, nested: Tag, value: Bytes, b: Bytes)
    requires |value| < 0x1_0000_0000_0000_0000
    ensures StringWritten(rules, tag, nested, value, b) <==> b == EncString(rules, tag, nested, value)
  {
    hide EncIdentifier, IdentifierWritten, Segments, SegmentsWritten, Chunks, EncValue, ValueWritten;
    ValueIs(tag, false, value, b);
    if rules == Cer && |value| > 1000 {
      ChunksFit(value);
      var i, z := EncIdentifier(Identifier(tag, true)), Segments(nested, Chunks(value));
      IdentifierIs(tag, true, i);
      SegmentsAre(nested, value, z);
      if i': Bytes, z': Bytes :| IdentifierWritten(tag, true, i') && SegmentsWritten(nested, value, z') && b == i' + [0x80] + z' + [0, 0] {
        IdentifierIs(tag, true, i');
        SegmentsAre(nested, value, z');
      }
    }
  }

  lemma {:induction false} TreesPart(rules: Rules, nodes: seq<Node>, b: Bytes) returns (a: Bytes, z: Bytes)
    requires nodes != [] && TreesWritten(rules, nodes, b)
    ensures b == a + z && TreeThen(rules, nodes, a, z)
  {
    a, z :| b == a + z && TreeThen(rules, nodes, a, z);
  }

  lemma {:induction false} TreesAre(rules: Rules, nodes: seq<Node>, b: Bytes)
    requires TreesFit(rules, nodes)
    ensures TreesWritten(rules, nodes, b) <==> b == TreesBytes(rules, nodes)
    decreases nodes, 1
  {
    hide TreeWritten, TreeBytes, TreeFits;
    if nodes != [] {
      var a, z := TreeBytes(rules, nodes[0]), TreesBytes(rules, nodes[1..]);
      TreeExactly(rules, nodes[0], a);
      TreesAre(rules, nodes[1..], z);
      if b == a + z {
        assert TreeThen(rules, nodes, a, z);
      }
      if TreesWritten(rules, nodes, b) {
        var a', z' := TreesPart(rules, nodes, b);
        TreeExactly(rules, nodes[0], a');
        TreesAre(rules, nodes[1..], z');
      }
    }
  }

  /** The encoder of a tree writes exactly what the rules allow. */
  lemma {:induction false} TreeExactly(rules: Rules, v: Node, b: Bytes)
    requires TreeFits(rules, v)
    ensures TreeWritten(rules, v, b) <==> b == TreeBytes(rules, v)
    decreases v, 0
  {
    hide TreeFits, TreesFit, TreeBytes, TreesBytes, TreesWritten, EncIdentifier, IdentifierWritten, EncValue, ValueWritten;
    TreeParts(rules, v);
    match v
    case Primitive(tag, contents) => ValueIs(tag, false, contents, b);
    case Constructed(tag, children) =>
      var i, z := EncIdentifier(Identifier(tag, true)), TreesBytes(rules, children);
      TreesAre(rules, children, z);
      IdentifierIs(tag, true, i);
      if rules != Cer {
        ValueIs(tag, true, z, b);
      }
      forall z': Bytes | TreesWritten(rules, children, z')
        ensures z' == z
      {
        TreesAre(rules, children, z');
      }
      forall i': Bytes | IdentifierWritten(tag, true, i')
        ensures i' == i
      {
        IdentifierIs(tag, true, i');
      }
  }
}
