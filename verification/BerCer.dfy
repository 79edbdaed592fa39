/**
 Trees under CER: constructed values of indefinite length, ended by end-of-contents octets (X.690
 clause 9.1), and a reference parser for them.
 */
module BerCer {
  import opened Common
  import opened Decoding
  import opened BigEndian
  import opened BerBase128
  import opened BerTree
  import opened BerString

  predicate CerFits(v: Node) {
    v.tag != EOC &&
    match v
    case Primitive(tag, contents) => !AlwaysConstructed(tag) && |contents| < TWO_64
    case Constructed(_, children) => forall i :: 0 <= i < |children| ==> CerFits(children[i])
  }

  function CerNode(v: Node): Bytes
    requires CerFits(v)
    decreases v, 0
  {
    match v
    case Primitive(tag, contents) => EncValue(Identifier(tag, false), contents)
    case Constructed(tag, children) => Ended(tag, CerNodes(children))
  }

  /** Contents of indefinite length. */
  function Ended(tag: Tag, contents: Bytes): Bytes {
    EncIdentifier(Identifier(tag, true)) + [START_OF_CONTENTS] + contents + END_OF_CONTENTS
  }

  function CerNodes(nodes: seq<Node>): Bytes
    requires forall i :: 0 <= i < |nodes| ==> CerFits(nodes[i])
    decreases nodes, 1
  {
    if nodes == [] then [] else CerNode(nodes[0]) + CerNodes(nodes[1..])
  }

  function RefCer(s: Bytes): (r: Decoded<Node>)
    ensures r.Ok? ==> |r.rest| < |s|
    decreases |s|, 0
  {
    var id := RefIdentifier(s);
    if id.Err? then Err
    else if !id.value.constructed then
      var n := RefLength(id.rest);
      if n.Err? then Err
      else
        var contents := Take(n.rest, n.value);
        if contents.Err? then Err else Ok(Primitive(id.value.tag, contents.value), contents.rest)
    else if id.rest == [] || id.rest[0] != START_OF_CONTENTS then Err
    else
      var children := RefCerNodes(id.rest[1..]);
      if children.Err? then Err else Ok(Constructed(id.value.tag, children.value), children.rest)
  }

  function RefCerNodes(s: Bytes): (r: Decoded<seq<Node>>)
    ensures r.Ok? ==> |r.rest| <= |s|
    decreases |s|, 1
  {
    if AtEnd(s) then Ok([], s[2..])
    else
      var first := RefCer(s);
      if first.Err? then Err
      else
        var rest := RefCerNodes(first.rest);
        if rest.Err? then Err else Ok([first.value] + rest.value, rest.rest)
  }

  /** No value starts like the end of contents. */
  lemma NotAtEnd(id: Identifier, t: Bytes)
    requires id.tag != EOC
    ensures !AtEnd(EncIdentifier(id) + t)
  {
    hide Base128;
    var s := EncIdentifier(id) + t;
    assert s[0] == Lead(id) + if id.tag.value >= 31 then 31 else id.tag.value;
  }

  lemma PrimitiveCer(tag: Tag, contents: Bytes, t: Bytes)
    requires tag != EOC && !AlwaysConstructed(tag) && |contents| < TWO_64
    ensures RefCer(EncValue(Identifier(tag, false), contents) + t) == Ok(Primitive(tag, contents), t)
  {
    hide RefIdentifier, EncIdentifier, DefiniteLength, RefLength, Take, AlwaysConstructed;
    var id, n := Identifier(tag, false), DefiniteLength(|contents|);
    assert EncValue(id, contents) + t == EncIdentifier(id) + (n + (contents + t));
    IdentifierBack(id, n + (contents + t));
    LengthBack(|contents|, contents + t);
    TakeBack(contents, t);
  }

  /** A tree written under CER is read back, and what follows is left. */
  lemma {:induction false} CerBack(v: Node, t: Bytes)
    requires CerFits(v)
    ensures RefCer(CerNode(v) + t) == Ok(v, t)
    decreases v, 0
  {
    hide RefIdentifier, EncIdentifier, EncValue, CerNodes, RefCerNodes;
    match v
    case Primitive(tag, contents) => PrimitiveCer(tag, contents, t);
    case Constructed(tag, children) =>
      var id := Identifier(tag, true);
      var rest := CerNodes(children) + END_OF_CONTENTS + t;
      assert CerNode(v) + t == EncIdentifier(id) + ([START_OF_CONTENTS] + rest);
      IdentifierBack(id, [START_OF_CONTENTS] + rest);
      assert ([START_OF_CONTENTS] + rest)[1..] == rest;
      CerNodesBack(children, t);
  }

  lemma {:induction false} CerNodesBack(nodes: seq<Node>, t: Bytes)
    requires forall i :: 0 <= i < |nodes| ==> CerFits(nodes[i])
    ensures RefCerNodes(CerNodes(nodes) + END_OF_CONTENTS + t) == Ok(nodes, t)
    decreases nodes, 1
  {
    hide CerNode, RefCer, CerFits;
    var s := CerNodes(nodes) + END_OF_CONTENTS + t;
    if nodes == [] {
      assert s == [0, 0] + t;
      assert s[2..] == t;
    } else {
      var rest := CerNodes(nodes[1..]) + END_OF_CONTENTS + t;
      assert s == CerNode(nodes[0]) + rest;
      NodeNotAtEnd(nodes[0], rest);
      CerBack(nodes[0], rest);
      CerNodesBack(nodes[1..], t);
      assert [nodes[0]] + nodes[1..] == nodes;
    }
  }

  lemma NodeNotAtEnd(v: Node, t: Bytes)
    requires CerFits(v)
    ensures !AtEnd(CerNode(v) + t)
  {
    hide EncIdentifier, DefiniteLength, CerNodes;
    var id := Identifier(v.tag, v.Constructed?);
    var rest := if v.Primitive? then DefiniteLength(|v.contents|) + v.contents
                else [START_OF_CONTENTS] + CerNodes(v.children) + END_OF_CONTENTS;
    assert CerNode(v) + t == EncIdentifier(id) + (rest + t);
    NotAtEnd(id, rest + t);
  }

  /** Every input this parser accepts is what is written under CER for the tree it returns. */
  lemma {:induction false} CerCanonical(s: Bytes)
    requires RefCer(s).Ok?
    ensures var v := RefCer(s); CerFits(v.value) && s == CerNode(v.value) + v.rest
    decreases |s|, 0
  {
    hide RefIdentifier, EncIdentifier, RefLength, DefiniteLength, RefCerNodes, CerNodes;
    var id := RefIdentifier(s);
    IdentifierCanonical(s);
    if !id.value.constructed {
      var n := RefLength(id.rest);
      LengthCanonical(id.rest);
      assert n.rest == n.rest[..n.value] + n.rest[n.value..];
      assert id.value == Identifier(id.value.tag, false);
    } else {
      CerNodesCanonical(id.rest[1..]);
      assert id.rest == [START_OF_CONTENTS] + id.rest[1..];
      assert id.value == Identifier(id.value.tag, true);
    }
  }

  lemma {:induction false} CerNodesCanonical(s: Bytes)
    requires RefCerNodes(s).Ok?
    ensures var r := RefCerNodes(s);
            && (forall i :: 0 <= i < |r.value| ==> CerFits(r.value[i]))
            && s == CerNodes(r.value) + END_OF_CONTENTS + r.rest
    decreases |s|, 1
  {
    hide CerNode, RefCer, CerFits;
    if AtEnd(s) {
      assert s == [0, 0] + s[2..];
    } else {
      CerCanonical(s);
      var first := RefCer(s);
      CerNodesCanonical(first.rest);
      var rest := RefCerNodes(first.rest).value;
      assert ([first.value] + rest)[1..] == rest;
    }
  }

  // ----- Trees under any of the rules -----

  predicate TreeFits(rules: Rules, v: Node) {
    if rules.Cer? then CerFits(v) else WellFormed(v)
  }

  predicate TreesFit(rules: Rules, nodes: seq<Node>) {
    forall i :: 0 <= i < |nodes| ==> TreeFits(rules, nodes[i])
  }

  function TreeBytes(rules: Rules, v: Node): Bytes
    requires TreeFits(rules, v)
  {
    if rules.Cer? then CerNode(v) else EncNode(v)
  }

  function TreesBytes(rules: Rules, nodes: seq<Node>): Bytes
    requires TreesFit(rules, nodes)
  {
    if nodes == [] then [] else TreeBytes(rules, nodes[0]) + TreesBytes(rules, nodes[1..])
  }

  /** A value under the given rules: CER ends constructed contents by end-of-contents octets. */
  function EncTlv(rules: Rules, id: Identifier, contents: Bytes): Bytes
    requires |contents| < TWO_64 || (id.constructed && rules.Cer?)
  {
    if id.constructed && rules.Cer? then EncIdentifier(id) + [START_OF_CONTENTS] + contents + END_OF_CONTENTS
    else EncValue(id, contents)
  }

  lemma {:induction false} SameTrees(rules: Rules, nodes: seq<Node>)
    requires TreesFit(rules, nodes)
    ensures rules.Cer? ==> TreesBytes(rules, nodes) == CerNodes(nodes)
    ensures !rules.Cer? ==> AllWellFormed(nodes) && TreesBytes(rules, nodes) == EncNodes(nodes)
  {
    hide CerNode, EncNode, CerFits, WellFormed;
    if nodes != [] {
      SameTrees(rules, nodes[1..]);
    }
  }

  /** A tree is one value around its contents. */
  lemma TreeParts(rules: Rules, v: Node)
    requires TreeFits(rules, v)
    ensures v.Primitive? ==> |v.contents| < TWO_64 && TreeBytes(rules, v) == EncTlv(rules, Identifier(v.tag, false), v.contents)
    ensures v.Constructed? ==>
      && TreesFit(rules, v.children) && (rules.Cer? || |TreesBytes(rules, v.children)| < TWO_64)
      && TreeBytes(rules, v) == EncTlv(rules, Identifier(v.tag, true), TreesBytes(rules, v.children))
  {
    hide EncValue, EncNodes, CerNodes, TreesBytes;
    if v.Constructed? {
      assert rules.Cer? ==> forall i :: 0 <= i < |v.children| ==> CerFits(v.children[i]);
      assert !rules.Cer? ==> AllWellFormed(v.children);
      SameTrees(rules, v.children);
    }
  }

  lemma {:induction false} TreesStep(rules: Rules, nodes: seq<Node>, i: nat)
    requires TreesFit(rules, nodes) && i < |nodes|
    ensures TreesBytes(rules, nodes[..i + 1]) == TreesBytes(rules, nodes[..i]) + TreeBytes(rules, nodes[i])
    decreases i
  {
    hide TreeBytes, TreeFits;
    var longer := nodes[..i + 1];
    assert longer[0] == nodes[0];
    if i == 0 {
      assert longer[1..] == [];
    } else {
      TreesStep(rules, nodes[1..], i - 1);
      assert longer[1..] == nodes[1..][..i];
      assert nodes[..i][1..] == nodes[1..][..i - 1];
    }
  }

  /** The reference parser for the rules. */
  function RefTree(rules: Rules, s: Bytes): Decoded<Node> {
    if rules.Cer? then RefCer(s) else RefNode(s)
  }

  /** The values that contents consist of. */
  function RefTrees(rules: Rules, s: Bytes): Option<seq<Node>> {
    if !rules.Cer? then RefNodes(s)
    else
      var r := RefCerNodes(s + END_OF_CONTENTS);
      if r.Ok? && r.rest == [] then Some(r.value) else None
  }

  /** Under every set of rules a tree that was written is read back, and what follows is left. */
  lemma TreeBack(rules: Rules, v: Node, t: Bytes)
    requires TreeFits(rules, v)
    ensures RefTree(rules, TreeBytes(rules, v) + t) == Ok(v, t)
  {
    hide CerNode, EncNode, CerFits, WellFormed, RefCer, RefNode;
    if rules.Cer? {
      CerBack(v, t);
    } else {
      NodeBack(v, t);
    }
  }

  lemma NoTrees(rules: Rules)
    ensures RefTrees(rules, []) == Some([])
  {
    assert [] + END_OF_CONTENTS == END_OF_CONTENTS;
    assert END_OF_CONTENTS[2..] == [];
  }

  lemma FirstTree(rules: Rules, v: Node, s: Bytes)
    requires TreeFits(rules, v) && RefTrees(rules, s).Some?
    ensures RefTrees(rules, TreeBytes(rules, v) + s) == Some([v] + RefTrees(rules, s).value)
  {
    hide CerNode, EncNode, CerFits, WellFormed, RefCer, RefNode;
    if rules.Cer? {
      CerBack(v, s + END_OF_CONTENTS);
      NodeNotAtEnd(v, s + END_OF_CONTENTS);
      assert CerNode(v) + s + END_OF_CONTENTS == CerNode(v) + (s + END_OF_CONTENTS);
    } else {
      NodeBack(v, s);
    }
  }
}
