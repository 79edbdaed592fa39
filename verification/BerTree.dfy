/**
 Tag-length-value encodings of definite length (X.690 clause 8.1) as trees, with a reference parser
 that accepts the shortest identifiers and lengths only, and the library's own parser of one value.
 */
module BerTree {
  import opened Common
  import opened Decoding
  import opened BigEndian
  import opened BerBase128

  datatype Rules = Ber | Cer | Der

  datatype Identifier = Identifier(tag: Tag, constructed: bool)

  datatype Node = Primitive(tag: Tag, contents: Bytes) | Constructed(tag: Tag, children: seq<Node>)

  /** EXTERNAL, SEQUENCE and SET, which are written as constructed whatever the caller says. */
  predicate AlwaysConstructed(tag: Tag) {
    tag == Tag(0, 8) || tag == Tag(0, 16) || tag == Tag(0, 17)
  }

  // ----- Writing -----

  /** The class and the constructed bit of an identifier octet. */
  function Lead(id: Identifier): (b: Byte)
    ensures b <= 224
  {
    64 * id.tag.cls + if id.constructed || AlwaysConstructed(id.tag) then 32 else 0
  }

  function EncIdentifier(id: Identifier): Bytes {
    if id.tag.value >= 31 then [Lead(id) + 31] + Base128(id.tag.value) else [Lead(id) + id.tag.value]
  }

  function DefiniteLength(n: nat): Bytes
    requires n < TWO_64
  {
    if n <= 127 then [n]
    else
      UsizeLength(n);
      [128 + |UnsignedBytes(n)|] + UnsignedBytes(n)
  }

  function EncValue(id: Identifier, contents: Bytes): Bytes
    requires |contents| < TWO_64
  {
    EncIdentifier(id) + DefiniteLength(|contents|) + contents
  }

  /** A tree that can be written: no end-of-contents tag, and lengths within `usize`. */
  predicate WellFormed(v: Node)
    decreases v, 0
  {
    v.tag != EOC &&
    match v
    case Primitive(tag, contents) => !AlwaysConstructed(tag) && |contents| < TWO_64
    case Constructed(_, children) => AllWellFormed(children) && |EncNodes(children)| < TWO_64
  }

  predicate AllWellFormed(nodes: seq<Node>)
    decreases nodes, 0
  {
    forall i :: 0 <= i < |nodes| ==> WellFormed(nodes[i])
  }

  function EncNode(v: Node): Bytes
    requires WellFormed(v)
    decreases v, 1
  {
    match v
    case Primitive(tag, contents) => EncValue(Identifier(tag, false), contents)
    case Constructed(tag, children) => EncValue(Identifier(tag, true), EncNodes(children))
  }

  function EncNodes(nodes: seq<Node>): Bytes
    requires AllWellFormed(nodes)
    decreases nodes, 1
  {
    if nodes == [] then [] else EncNode(nodes[0]) + EncNodes(nodes[1..])
  }

  // ----- The reference parser -----

  function RefIdentifier(s: Bytes): (r: Decoded<Identifier>)
    ensures r.Ok? ==> |r.rest| < |s|
  {
    if s == [] then Err
    else
      var cls: Class, constructed, low := s[0] / 64, (s[0] / 32) % 2 == 1, s[0] % 32;
      if low < 31 then RefChecked(Identifier(Tag(cls, low), constructed), s[1..])
      else if |s| < 2 || s[1] == 128 then Err
      else
        var n := Number(s[1..], 0);
        if n.Err? || !(31 <= n.value < TWO_32) then Err
        else
          Base128Canonical(s[1..]);
          RefChecked(Identifier(Tag(cls, n.value), constructed), n.rest)
  }

  function RefChecked(id: Identifier, rest: Bytes): Decoded<Identifier> {
    if id.tag == EOC || (AlwaysConstructed(id.tag) && !id.constructed) then Err else Ok(id, rest)
  }

  function RefLength(s: Bytes): (r: Decoded<nat>)
    ensures r.Ok? ==> |r.rest| < |s|
  {
    if s == [] || s[0] == 128 then Err
    else if s[0] <= 127 then Ok(s[0], s[1..])
    else
      var data := Take(s[1..], s[0] - 128);
      if data.Err? || |data.value| > 8 || data.value[0] == 0 || UnsignedValue(data.value) <= 127 then Err
      else Ok(UnsignedValue(data.value), data.rest)
  }

  function RefValue(s: Bytes): (r: Decoded<(Identifier, Bytes)>)
    ensures r.Ok? ==> |r.rest| < |s| && |r.value.1| < |s|
  {
    var id := RefIdentifier(s);
    if id.Err? then Err
    else
      var n := RefLength(id.rest);
      if n.Err? then Err
      else
        var contents := Take(n.rest, n.value);
        if contents.Err? then Err else Ok((id.value, contents.value), contents.rest)
  }

  function RefNode(s: Bytes): (r: Decoded<Node>)
    ensures r.Ok? ==> |r.rest| < |s|
    decreases |s|, 0
  {
    var v := RefValue(s);
    if v.Err? then Err
    else if !v.value.0.constructed then Ok(Primitive(v.value.0.tag, v.value.1), v.rest)
    else
      var children := RefNodes(v.value.1);
      if children.None? then Err else Ok(Constructed(v.value.0.tag, children.value), v.rest)
  }

  function RefNodes(s: Bytes): Option<seq<Node>>
    decreases |s|, 1
  {
    if s == [] then Some([])
    else
      var first := RefNode(s);
      if first.Err? then None
      else
        var rest := RefNodes(first.rest);
        if rest.None? then None else Some([first.value] + rest.value)
  }

  // ----- What was written is read back -----

  lemma LeadParts(id: Identifier, low: nat)
    requires low < 32
    ensures var b := Lead(id) + low;
            b / 64 == id.tag.cls && b % 32 == low && ((b / 32) % 2 == 1 <==> id.constructed || AlwaysConstructed(id.tag))
  {
  }

  lemma IdentifierBack(id: Identifier, t: Bytes)
    requires id.tag != EOC && (AlwaysConstructed(id.tag) ==> id.constructed)
    ensures RefIdentifier(EncIdentifier(id) + t) == Ok(id, t)
  {
    hide Lead, Number, Base128;
    var n := id.tag.value;
    LeadParts(id, if n >= 31 then 31 else n);
    if n >= 31 {
      var s := EncIdentifier(id) + t;
      assert s[1..] == Base128(n) + t;
      NumberBack(n, t);
      Base128Minimal(n);
    } else {
      assert (EncIdentifier(id) + t)[1..] == t;
    }
  }

  lemma LengthBack(n: nat, t: Bytes)
    requires n < TWO_64
    ensures RefLength(DefiniteLength(n) + t) == Ok(n, t)
  {
    hide UnsignedBytes, UnsignedValue;
    var s := DefiniteLength(n) + t;
    if n <= 127 {
      assert s[1..] == t;
    } else {
      UsizeLength(n);
      UnsignedRoundTrip(n);
      UnsignedMinimal(n);
      assert s[1..] == UnsignedBytes(n) + t;
      TakeBack(UnsignedBytes(n), t);
    }
  }

  lemma ValueBack(id: Identifier, contents: Bytes, t: Bytes)
    requires id.tag != EOC && (AlwaysConstructed(id.tag) ==> id.constructed) && |contents| < TWO_64
    ensures RefValue(EncValue(id, contents) + t) == Ok((id, contents), t)
  {
    hide EncIdentifier, RefIdentifier, DefiniteLength, RefLength, Take;
    var n := DefiniteLength(|contents|);
    IdentifierBack(id, n + (contents + t));
    LengthBack(|contents|, contents + t);
    TakeBack(contents, t);
    assert EncValue(id, contents) + t == EncIdentifier(id) + (n + (contents + t));
  }

  /**
   The writer emits well-formed nested encodings: the reference parser reads any tree back, with
   exact and shortest lengths, and leaves what follows.
   */
  lemma {:induction false} NodeBack(v: Node, t: Bytes)
    requires WellFormed(v)
    ensures RefNode(EncNode(v) + t) == Ok(v, t)
    decreases v, 0
  {
    hide EncValue, RefValue;
    match v
    case Primitive(tag, contents) =>
      ValueBack(Identifier(tag, false), contents, t);
    case Constructed(tag, children) =>
      ValueBack(Identifier(tag, true), EncNodes(children), t);
      NodesBack(children);
  }

  lemma {:induction false} NodesBack(nodes: seq<Node>)
    requires AllWellFormed(nodes)
    ensures RefNodes(EncNodes(nodes)) == Some(nodes)
    decreases nodes, 1
  {
    hide EncNode, RefNode, WellFormed;
    if nodes != [] {
      NodeBack(nodes[0], EncNodes(nodes[1..]));
      NodesBack(nodes[1..]);
      assert [nodes[0]] + nodes[1..] == nodes;
    }
  }

  // ----- Nothing else is read -----

  lemma LeadOf(b: Byte)
    ensures b == 64 * (b / 64) + 32 * ((b / 32) % 2) + b % 32
  {
  }

  lemma IdentifierCanonical(s: Bytes)
    requires RefIdentifier(s).Ok?
    ensures var id := RefIdentifier(s);
            && s == EncIdentifier(id.value) + id.rest
            && id.value.tag != EOC && (AlwaysConstructed(id.value.tag) ==> id.value.constructed)
  {
    hide Number, Base128;
    LeadOf(s[0]);
    assert s == [s[0]] + s[1..];
    if s[0] % 32 == 31 {
      Base128Canonical(s[1..]);
    }
  }

  lemma LengthCanonical(s: Bytes)
    requires RefLength(s).Ok?
    ensures var n := RefLength(s); n.value < TWO_64 && s == DefiniteLength(n.value) + n.rest
  {
    hide UnsignedBytes, UnsignedValue;
    assert s == [s[0]] + s[1..];
    if s[0] > 127 {
      var data := Take(s[1..], s[0] - 128);
      UnsignedCanonical(data.value);
      UsizeLength(UnsignedValue(data.value));
      assert s[1..] == data.value + data.rest;
    }
  }

  lemma ValueCanonical(s: Bytes)
    requires RefValue(s).Ok?
    ensures var v := RefValue(s);
            && |v.value.1| < TWO_64 && s == EncValue(v.value.0, v.value.1) + v.rest
            && v.value.0.tag != EOC && (AlwaysConstructed(v.value.0.tag) ==> v.value.0.constructed)
  {
    hide EncIdentifier, RefIdentifier, DefiniteLength, RefLength;
    IdentifierCanonical(s);
    var id := RefIdentifier(s);
    LengthCanonical(id.rest);
    var n := RefLength(id.rest);
    assert n.rest == n.rest[..n.value] + n.rest[n.value..];
  }

  /** Every input the reference parser accepts is what the writer emits for the tree it returns. */
  lemma {:induction false} NodeCanonical(s: Bytes)
    requires RefNode(s).Ok?
    ensures var v := RefNode(s); WellFormed(v.value) && s == EncNode(v.value) + v.rest
    decreases |s|, 0
  {
    hide EncValue, RefValue;
    ValueCanonical(s);
    var v := RefValue(s);
    if v.value.0.constructed {
      NodesCanonical(v.value.1);
    }
  }

  lemma {:induction false} NodesCanonical(s: Bytes)
    requires RefNodes(s).Some?
    ensures AllWellFormed(RefNodes(s).value) && EncNodes(RefNodes(s).value) == s
    decreases |s|, 1
  {
    hide EncNode, RefNode, WellFormed;
    if s != [] {
      NodeCanonical(s);
      var first := RefNode(s);
      NodesCanonical(first.rest);
      var rest := RefNodes(first.rest).value;
      assert ([first.value] + rest)[1..] == rest;
    }
  }

  // ----- The library's parser of one value -----

  function ParseIdentifier(s: Bytes): (r: Decoded<Identifier>)
    ensures r.Ok? ==> |r.rest| < |s|
  {
    if s == [] then Err
    else
      var cls: Class, constructed, low := s[0] / 64, (s[0] / 32) % 2 == 1, s[0] % 32;
      if Tag(cls, low) == EOC then Err
      else if low < 31 then Ok(Identifier(Tag(cls, low), constructed), s[1..])
      else
        var n := DecBase128(s[1..], 0);
        if n.Err? then Err else Ok(Identifier(Tag(cls, n.value), constructed), n.rest)
  }

  /** The contents of a value, or none if their end is marked by end-of-contents octets. */
  function ParseContents(rules: Rules, id: Identifier, s: Bytes): (r: Decoded<Option<Bytes>>)
    ensures r.Ok? ==> |r.rest| < |s| && (r.value.Some? ==> |r.value.value| < |s|)
  {
    if s == [] || s[0] == 255 then Err
    else if s[0] == 128 then if !id.constructed || rules.Der? then Err else Ok(None, s[1..])
    else if s[0] <= 127 then Contents(Take(s[1..], s[0]))
    else
      var data := Take(s[1..], s[0] - 128);
      if data.Err? || |data.value| > 8 then Err else Contents(Take(data.rest, UnsignedValue(data.value)))
  }

  function Contents(r: Decoded<Bytes>): Decoded<Option<Bytes>> {
    if r.Err? then Err else Ok(Some(r.value), r.rest)
  }

  function ParseValue(rules: Rules, s: Bytes, tag: Tag): (r: Decoded<(Identifier, Option<Bytes>)>)
    ensures r.Ok? ==> |r.rest| < |s| && (r.value.1.Some? ==> |r.value.1.value| < |s|)
  {
    var id := ParseIdentifier(s);
    if id.Err? || id.value.tag != tag then Err
    else
      var contents := ParseContents(rules, id.value, id.rest);
      if contents.Err? then Err else Ok((id.value, contents.value), contents.rest)
  }

  lemma IdentifierAgrees(s: Bytes)
    requires RefIdentifier(s).Ok?
    ensures ParseIdentifier(s) == RefIdentifier(s)
  {
    hide Number, DecBase128, AlwaysConstructed;
    if s[0] % 32 == 31 {
      NumberAgrees(s[1..], 0);
    }
  }

  lemma ContentsAgree(rules: Rules, id: Identifier, s: Bytes)
    requires RefLength(s).Ok?
    ensures var n := RefLength(s); ParseContents(rules, id, s) == Contents(Take(n.rest, n.value))
  {
    hide UnsignedValue;
  }

  /** Whatever the reference parser accepts, the library reads alike under all three sets of rules. */
  lemma ParserAgrees(rules: Rules, s: Bytes)
    requires RefValue(s).Ok?
    ensures var v := RefValue(s); ParseValue(rules, s, v.value.0.tag) == Ok((v.value.0, Some(v.value.1)), v.rest)
  {
    hide RefIdentifier, ParseIdentifier, RefLength, ParseContents;
    IdentifierAgrees(s);
    var id := RefIdentifier(s);
    ContentsAgree(rules, id.value, id.rest);
  }
}
