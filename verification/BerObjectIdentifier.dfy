/** OBJECT IDENTIFIER values (X.690 clause 8.19). */
module BerObjectIdentifier {
  import opened Common
  import opened Decoding
  import opened BerBase128

  const MAX_OID_FIRST_OCTET: nat := 2
  const MAX_OID_SECOND_OCTET: nat := 39

  function Arcs(arcs: seq<U32>): Bytes {
    if arcs == [] then [] else Base128(arcs[0]) + Arcs(arcs[1..])
  }

  /** The subidentifiers: the first two arcs share one, computed in 32 bits. */
  function Subidentifiers(oid: seq<U32>): seq<U32>
    requires |oid| >= 2
  {
    [(oid[0] * (MAX_OID_SECOND_OCTET + 1) + oid[1]) % TWO_32] + oid[2..]
  }

  predicate Encodable(oid: seq<U32>) {
    |oid| >= 2 && oid[0] <= MAX_OID_FIRST_OCTET
  }

  method ObjectIdentifierAsBytes(oid: seq<U32>) returns (r: Option<Bytes>)
    ensures r == if Encodable(oid) then Some(Arcs(Subidentifiers(oid))) else None
  {
    hide Base128;
    if |oid| < 2 || oid[0] > MAX_OID_FIRST_OCTET {
      return None;
    }
    var bytes := EncodeAsBase128((oid[0] * (MAX_OID_SECOND_OCTET + 1) + oid[1]) % TWO_32, []);
    ghost var all := Subidentifiers(oid);
    assert all[1..] == oid[2..];
    assert Base128(all[0]) + Arcs(oid[2..]) == Arcs(all);
    for i := 2 to |oid|
      invariant bytes + Arcs(oid[i..]) == Arcs(all)
    {
      assert oid[i..][1..] == oid[i + 1..];
      var more := bytes;
      bytes := EncodeAsBase128(oid[i], bytes);
      assert bytes + Arcs(oid[i + 1..]) == more + (Base128(oid[i]) + Arcs(oid[i + 1..]));
    }
    assert bytes + Arcs(oid[|oid|..]) == bytes;
    r := Some(bytes);
  }

  /** Subidentifiers up to the end of the contents. */
  function ParseArcs(s: Bytes): Option<seq<U32>>
    decreases |s|
  {
    if s == [] then Some([])
    else
      var first := DecBase128(s, 0);
      if first.Err? then None
      else
        var rest := ParseArcs(first.rest);
        if rest.None? then None else Some([first.value] + rest.value)
  }

  /** The two arcs of the first subidentifier. */
  function Split(root: U32): (arcs: (U32, U32))
    ensures arcs.0 <= MAX_OID_FIRST_OCTET && arcs.0 * 40 + arcs.1 == root && (arcs.0 == 2 || arcs.1 < 40)
  {
    if root > MAX_OID_FIRST_OCTET * (MAX_OID_SECOND_OCTET + 1) + MAX_OID_SECOND_OCTET
    then (MAX_OID_FIRST_OCTET, root - MAX_OID_FIRST_OCTET * (MAX_OID_SECOND_OCTET + 1))
    else
      var second := root % (MAX_OID_SECOND_OCTET + 1);
      ((root - second) / (MAX_OID_SECOND_OCTET + 1), second)
  }

  function FromBytes(s: Bytes): Option<seq<U32>> {
    var arcs := ParseArcs(s);
    if arcs.None? || arcs.value == [] then None
    else
      var (first, second) := Split(arcs.value[0]);
      Some([first, second] + arcs.value[1..])
  }

  function After(done: seq<U32>, rest: Option<seq<U32>>): Option<seq<U32>> {
    if rest.None? then None else Some(done + rest.value)
  }

  lemma AfterNothing(rest: Option<seq<U32>>)
    ensures After([], rest) == rest
  {
    assert rest.Some? ==> [] + rest.value == rest.value;
  }

  lemma AfterMore(done: seq<U32>, arc: U32, rest: Option<seq<U32>>)
    ensures After(done, After([arc], rest)) == After(done + [arc], rest)
  {
    assert rest.Some? ==> done + ([arc] + rest.value) == done + [arc] + rest.value;
  }

  /** The subidentifiers after the first. */
  method ParseRemaining(input: Bytes) returns (r: Option<seq<U32>>)
    ensures r == ParseArcs(input)
  {
    hide DecBase128, After;
    var contents, buffer := input, [];
    AfterNothing(ParseArcs(input));
    while contents != []
      invariant ParseArcs(input) == After(buffer, ParseArcs(contents))
      decreases |contents|
    {
      var number := ParseBase128Number(contents);
      ArcsStep(contents);
      if number.Err? {
        FailedAfter(buffer);
        return None;
      }
      contents := number.rest;
      AfterMore(buffer, number.value, ParseArcs(contents));
      buffer := buffer + [number.value];
    }
    EndAfter(buffer);
    r := Some(buffer);
  }

  lemma ArcsStep(s: Bytes)
    requires s != []
    ensures var first := DecBase128(s, 0); ParseArcs(s) == if first.Err? then None else After([first.value], ParseArcs(first.rest))
  {
    hide DecBase128;
  }

  lemma FailedAfter(done: seq<U32>)
    ensures After(done, None) == None
  {
  }

  lemma EndAfter(done: seq<U32>)
    ensures After(done, ParseArcs([])) == Some(done)
  {
    assert done + [] == done;
  }

  method DecodeObjectIdentifierFromBytes(data: Bytes) returns (r: Option<seq<U32>>)
    ensures r == FromBytes(data)
  {
    hide DecBase128;
    var root := ParseBase128Number(data);
    Base128End(0);
    if root.Err? {
      return None;
    }
    var (first, second) := Split(root.value);
    var rest := ParseRemaining(root.rest);
    if rest.None? {
      return None;
    }
    assert ([root.value] + rest.value)[1..] == rest.value;
    r := Some([first, second] + rest.value);
  }

  lemma {:induction false} ArcsBack(arcs: seq<U32>)
    ensures ParseArcs(Arcs(arcs)) == Some(arcs)
  {
    if arcs != [] {
      Base128Back(arcs[0], Arcs(arcs[1..]));
      ArcsBack(arcs[1..]);
      assert [arcs[0]] + arcs[1..] == arcs;
    }
  }

  /** A first pair of arcs that one subidentifier of 32 bits can tell apart from all others. */
  predicate Separable(first: U32, second: U32) {
    (first == 2 || second < 40) && first * 40 + second < TWO_32
  }

  lemma SplitBack(first: U32, second: U32)
    requires first <= MAX_OID_FIRST_OCTET
    ensures Split((first * 40 + second) % TWO_32) == (first, second) <==> Separable(first, second)
  {
    var c := first * 40 + second;
    assert c < TWO_32 ==> c % TWO_32 == c;
    assert c >= TWO_32 ==> c % TWO_32 == c - TWO_32;
  }

  /**
   The round trip: an encoded object identifier decodes to the same arcs exactly if its first two
   arcs are separable; otherwise only the arcs from the third on come back.
   */
  lemma RoundTrip(oid: seq<U32>)
    requires Encodable(oid)
    ensures var back := FromBytes(Arcs(Subidentifiers(oid)));
            && back.Some? && |back.value| == |oid| && back.value[2..] == oid[2..]
            && (back.value == oid <==> Separable(oid[0], oid[1]))
  {
    hide Separable, Split;
    var all := Subidentifiers(oid);
    ArcsBack(all);
    SplitBack(oid[0], oid[1]);
    var back := FromBytes(Arcs(all)).value;
    assert all[1..] == oid[2..];
    assert back == [Split(all[0]).0, Split(all[0]).1] + oid[2..];
    assert oid == [oid[0], oid[1]] + oid[2..];
    assert back[0] == Split(all[0]).0 && back[1] == Split(all[0]).1;
  }

  /** The arcs 0 and 40 come back as 1 and 0. */
  lemma Inseparable()
    ensures Encodable([0, 40]) && FromBytes(Arcs(Subidentifiers([0, 40]))) == Some([1, 0])
  {
    var oid := [0, 40];
    assert Subidentifiers(oid) == [40];
    ArcsBack([40]);
    assert Split(40) == (1, 0);
    assert [1, 0] + [40][1..] == [1, 0];
  }
}
