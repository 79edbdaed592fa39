/**
 Which octets the BER, CER and DER decoder reads as a string (X.690 clause 8), as rules stated without the
 decoder: each rule says of octets `s` that something can be read from their front and that `t` is left.
 */
module BerReading {
  import opened Common
  import opened BigEndian
  import opened Positional
  import opened Decoding
  import opened BerTree
  import opened BerString

  // ----- The rules -----

  /** A large number, in groups after the first octet. */
  ghost predicate LargeRead(s: Bytes, n: nat, t: Bytes) {
    exists g: Bytes ::
      && g != [] && g[|g| - 1] < 128 && (forall i :: 0 <= i < |g| - 1 ==> g[i] >= 128)
      && s == g + t && n == Septal(g) % 0x1_0000_0000
  }

  /** Class, constructed bit and a number below 31, or groups of seven bits of which the last 32 bits count. */
  ghost predicate IdentifierRead(s: Bytes, tag: Tag, constructed: bool, t: Bytes) {
    && s != [] && tag.cls == s[0] / 64 && constructed == (s[0] / 32 % 2 == 1) && !(s[0] / 64 == 0 && s[0] % 32 == 0)
    && if s[0] % 32 < 31 then tag.value == s[0] % 32 && t == s[1..]
       else LargeRead(s[1..], tag.value, t)
  }

  /** Any length octets, whether they are the shortest or not. */
  predicate LengthOctets(l: Bytes, n: nat) {
    (n < 128 && l == [n]) || (2 <= |l| <= 9 && l[0] == 127 + |l| && n == Big(l[1..]))
  }

  /** Contents of a given length, or none yet if their end is marked. */
  ghost predicate ContentsRead(rules: Rules, constructed: bool, s: Bytes, c: Option<Bytes>, t: Bytes) {
    match c
    case None => s != [] && s[0] == 0x80 && constructed && rules != Der && t == s[1..]
    case Some(b) => exists l: Bytes :: LengthOctets(l, |b|) && s == l + (b + t)
  }

  ghost predicate ValueRead(rules: Rules, s: Bytes, tag: Tag, constructed: bool, c: Option<Bytes>, t: Bytes) {
    exists u: Bytes :: IdentifierRead(s, tag, constructed, u) && ContentsRead(rules, constructed, u, c, t)
  }

  predicate Ended(s: Bytes) {
    [0, 0] <= s
  }

  /** A primitive part, or the octets of the parts that follow the header of a constructed one. */
  ghost predicate PartRead(rules: Rules, s: Bytes, tag: Tag, o: Bytes, t: Bytes)
    decreases |s|, 0
  {
    || ValueRead(rules, s, tag, false, Some(o), t)
    || (exists c: Option<Bytes>, u: Bytes, w: Bytes ::
          && ValueRead(rules, s, tag, true, c, u)
          && rules != Der && |u| < |s|
          && PartsRead(rules, u, o, w)
          && if c.Some? then t == w else Ended(w) && t == w[2..])
  }

  ghost predicate PartsRead(rules: Rules, s: Bytes, o: Bytes, t: Bytes)
    decreases |s|, 2
  {
    if s == [] || Ended(s) then o == [] && t == s
    else
      exists tag: Tag, a: Bytes, b: Bytes, u: Bytes :: o == a + b && PartThenParts(rules, s, tag, a, b, u, t)
  }

  ghost predicate PartThenParts(rules: Rules, s: Bytes, tag: Tag, a: Bytes, b: Bytes, u: Bytes, t: Bytes)
    decreases |s|, 1
  {
    PartRead(rules, s, tag, a, u) && |u| < |s| && PartsRead(rules, u, b, t)
  }

  /** Parts tagged OCTET STRING up to the end of the contents. */
  ghost predicate WholeRead(rules: Rules, s: Bytes, o: Bytes)
    decreases |s|, 1
  {
    if s == [] then o == [] else exists a: Bytes, b: Bytes, u: Bytes :: o == a + b && PartThenWhole(rules, s, a, b, u)
  }

  ghost predicate PartThenWhole(rules: Rules, s: Bytes, a: Bytes, b: Bytes, u: Bytes)
    decreases |s|, 0
  {
    PartRead(rules, s, Tag(0, 4), a, u) && |u| < |s| && WholeRead(rules, u, b)
  }

  /** Parts tagged OCTET STRING up to the end-of-contents octets. */
  ghost predicate EndedRead(rules: Rules, s: Bytes, o: Bytes, t: Bytes)
    decreases |s|, 1
  {
    if Ended(s) then o == [] && t == s[2..]
    else exists a: Bytes, b: Bytes, u: Bytes :: o == a + b && PartThenEnded(rules, s, a, b, u, t)
  }

  ghost predicate PartThenEnded(rules: Rules, s: Bytes, a: Bytes, b: Bytes, u: Bytes, t: Bytes)
    decreases |s|, 0
  {
    PartRead(rules, s, Tag(0, 4), a, u) && |u| < |s| && EndedRead(rules, u, b, t)
  }

  ghost predicate StringRead(rules: Rules, s: Bytes, tag: Tag, o: Bytes, t: Bytes) {
    || ValueRead(rules, s, tag, false, Some(o), t)
    || (rules != Der && exists c: Bytes :: ValueRead(rules, s, tag, true, Some(c), t) && WholeRead(rules, c, o))
    || (rules != Der && exists u: Bytes :: ValueRead(rules, s, tag, true, None, u) && EndedRead(rules, u, o, t))
  }

  // ----- The decoder's parts -----

  lemma LargeExact(s: Bytes, n: U32, t: Bytes)
    ensures DecBase128(s, 0) == Ok(n, t) <==> LargeRead(s, n, t)
  {
    hide DecBase128, Septal;
    if DecBase128(s, 0) == Ok(n, t) {
      var g := GroupsRead(s, 0);
      GroupsFront(g, t);
    }
    if g: Bytes :|
      && g != [] && g[|g| - 1] < 128 && (forall i :: 0 <= i < |g| - 1 ==> g[i] >= 128)
      && s == g + t && n == Septal(g) % 0x1_0000_0000
    {
      GroupsFront(g, t);
    }
  }

  lemma IdentifierExact(s: Bytes, tag: Tag, constructed: bool, t: Bytes)
    ensures ParseIdentifier(s) == Ok(Identifier(tag, constructed), t) <==> IdentifierRead(s, tag, constructed, t)
  {
    hide DecBase128, LargeRead;
    if s != [] {
      LargeExact(s[1..], tag.value, t);
    }
  }

  lemma ContentsExact(rules: Rules, id: Identifier, s: Bytes, c: Option<Bytes>, t: Bytes)
    ensures ParseContents(rules, id, s) == Ok(c, t) <==> ContentsRead(rules, id.constructed, s, c, t)
  {
    hide UnsignedValue, Big;
    if ParseContents(rules, id, s) == Ok(c, t) && c.Some? {
      Parts(s, 1);
      if s[0] <= 127 {
        Parts(s[1..], s[0]);
        assert LengthOctets([s[0]], |c.value|);
        assert s == [s[0]] + (c.value + t);
      } else {
        LongRead(rules, id, s, c.value, t);
      }
    }
    if c.Some? {
      if l: Bytes :| LengthOctets(l, |c.value|) && s == l + (c.value + t) {
        LengthTaken(rules, id, l, c.value, t);
      }
    }
  }

  lemma LongRead(rules: Rules, id: Identifier, s: Bytes, c: Bytes, t: Bytes)
    requires ParseContents(rules, id, s) == Ok(Some(c), t) && s[0] > 127
    ensures exists l: Bytes :: LengthOctets(l, |c|) && s == l + (c + t)
  {
    hide UnsignedValue, Big;
    var k := s[0] - 128;
    var n, rest := s[1..][..k], s[1..][k..];
    var l := [s[0]] + n;
    BigIs(n);
    Parts(s, 1);
    Parts(s[1..], k);
    Parts(rest, |c|);
    assert l[1..] == n;
    assert s == l + rest && rest == c + t;
    assert LengthOctets(l, |c|);
  }

  lemma LengthTaken(rules: Rules, id: Identifier, l: Bytes, c: Bytes, t: Bytes)
    requires LengthOctets(l, |c|)
    ensures ParseContents(rules, id, l + (c + t)) == Ok(Some(c), t)
  {
    hide UnsignedValue, Big;
    var s := l + (c + t);
    TakeBack(c, t);
    if |l| == 1 {
      assert s[1..] == c + t;
    } else {
      BigIs(l[1..]);
      assert s[1..] == l[1..] + (c + t);
      TakeBack(l[1..], c + t);
    }
  }

  lemma ValueExact(rules: Rules, s: Bytes, tag: Tag, constructed: bool, c: Option<Bytes>, t: Bytes)
    ensures ParseValue(rules, s, tag) == Ok((Identifier(tag, constructed), c), t) <==> ValueRead(rules, s, tag, constructed, c, t)
  {
    hide ParseIdentifier, IdentifierRead, ParseContents, ContentsRead;
    var id := ParseIdentifier(s);
    if id.Ok? {
      IdentifierExact(s, id.value.tag, id.value.constructed, id.rest);
      ContentsExact(rules, id.value, id.rest, c, t);
    }
    if u: Bytes :| IdentifierRead(s, tag, constructed, u) && ContentsRead(rules, constructed, u, c, t) {
      IdentifierExact(s, tag, constructed, u);
      ContentsExact(rules, Identifier(tag, constructed), u, c, t);
    }
  }

  lemma EndedIs(s: Bytes)
    ensures Ended(s) <==> AtEnd(s)
  {
  }

  lemma ValueShorter(rules: Rules, s: Bytes, tag: Tag)
    requires ParseValue(rules, s, tag).Ok?
    ensures |ParseValue(rules, s, tag).rest| < |s|
  {
  }

  lemma EncodedShorter(rules: Rules, s: Bytes, tag: Tag)
    requires ParseEncoded(rules, s, tag).Ok?
    ensures |ParseEncoded(rules, s, tag).rest| < |s|
  {
  }

  lemma {:induction false} PartExact(rules: Rules, s: Bytes, tag: Tag, o: Bytes, t: Bytes)
    ensures ParseEncoded(rules, s, tag) == Ok(o, t) <==> PartRead(rules, s, tag, o, t)
    decreases |s|, 0
  {
    hide ParseValue, ValueRead, ParseParts, PartsRead, AtEnd;
    ValueExact(rules, s, tag, false, Some(o), t);
    var v := ParseValue(rules, s, tag);
    if v.Ok? {
      ValueTag(rules, s, tag);
      ValueExact(rules, s, tag, v.value.0.constructed, v.value.1, v.rest);
      ValueShorter(rules, s, tag);
      if ParseEncoded(rules, s, tag) == Ok(o, t) && v.value.0.constructed {
        var parts := ParseParts(rules, v.rest);
        PartsExact(rules, v.rest, o, parts.rest);
        EndedIs(parts.rest);
      }
    }
    if c: Option<Bytes>, u: Bytes, w: Bytes :|
      && ValueRead(rules, s, tag, true, c, u)
      && rules != Der && |u| < |s|
      && PartsRead(rules, u, o, w)
      && if c.Some? then t == w else Ended(w) && t == w[2..]
    {
      ValueExact(rules, s, tag, true, c, u);
      PartsExact(rules, u, o, w);
      EndedIs(w);
    }
  }

  lemma ValueTag(rules: Rules, s: Bytes, tag: Tag)
    requires ParseValue(rules, s, tag).Ok?
    ensures ParseValue(rules, s, tag).value.0.tag == tag
  {
  }

  lemma {:induction false} PartsPart(rules: Rules, s: Bytes, o: Bytes, t: Bytes) returns (tag: Tag, a: Bytes, b: Bytes, u: Bytes)
    requires s != [] && !Ended(s) && PartsRead(rules, s, o, t)
    ensures o == a + b && PartThenParts(rules, s, tag, a, b, u, t)
  {
    tag, a, b, u :| o == a + b && PartThenParts(rules, s, tag, a, b, u, t);
  }

  /** The tag of a part is in its identifier. */
  lemma PartTag(rules: Rules, s: Bytes, tag: Tag)
    requires ParseEncoded(rules, s, tag).Ok?
    ensures ParseIdentifier(s).Ok? && ParseIdentifier(s).value.tag == tag
  {
  }

  lemma {:induction false} PartsExact(rules: Rules, s: Bytes, o: Bytes, t: Bytes)
    ensures ParseParts(rules, s) == Ok(o, t) <==> PartsRead(rules, s, o, t)
    decreases |s|, 2
  {
    hide ParseEncoded, PartRead, ParseIdentifier;
    EndedIs(s);
    if s != [] && !Ended(s) {
      if ParseParts(rules, s) == Ok(o, t) {
        var tag := ParseIdentifier(s).value.tag;
        var first := ParseEncoded(rules, s, tag);
        EncodedShorter(rules, s, tag);
        PartExact(rules, s, tag, first.value, first.rest);
        var b := ParseParts(rules, first.rest).value;
        PartsExact(rules, first.rest, b, t);
        assert o == first.value + b && PartThenParts(rules, s, tag, first.value, b, first.rest, t);
      }
      if PartsRead(rules, s, o, t) {
        var tag, a, b, u := PartsPart(rules, s, o, t);
        PartExact(rules, s, tag, a, u);
        PartTag(rules, s, tag);
        PartsExact(rules, u, b, t);
      }
    }
  }

  lemma {:induction false} WholePart(rules: Rules, s: Bytes, o: Bytes) returns (a: Bytes, b: Bytes, u: Bytes)
    requires s != [] && WholeRead(rules, s, o)
    ensures o == a + b && PartThenWhole(rules, s, a, b, u)
  {
    a, b, u :| o == a + b && PartThenWhole(rules, s, a, b, u);
  }

  lemma {:induction false} WholeExact(rules: Rules, s: Bytes, o: Bytes)
    ensures WholeSegments(rules, s) == Some(o) <==> WholeRead(rules, s, o)
    decreases |s|
  {
    hide ParseEncoded, PartRead;
    if s != [] {
      if WholeSegments(rules, s) == Some(o) {
        var first := ParseEncoded(rules, s, OCTET_STRING);
        EncodedShorter(rules, s, OCTET_STRING);
        PartExact(rules, s, Tag(0, 4), first.value, first.rest);
        var b := WholeSegments(rules, first.rest).value;
        WholeExact(rules, first.rest, b);
        assert o == first.value + b && PartThenWhole(rules, s, first.value, b, first.rest);
      }
      if WholeRead(rules, s, o) {
        var a, b, u := WholePart(rules, s, o);
        PartExact(rules, s, Tag(0, 4), a, u);
        WholeExact(rules, u, b);
      }
    }
  }

  lemma {:induction false} EndedPart(rules: Rules, s: Bytes, o: Bytes, t: Bytes) returns (a: Bytes, b: Bytes, u: Bytes)
    requires !Ended(s) && EndedRead(rules, s, o, t)
    ensures o == a + b && PartThenEnded(rules, s, a, b, u, t)
  {
    a, b, u :| o == a + b && PartThenEnded(rules, s, a, b, u, t);
  }

  lemma {:induction false} EndedExact(rules: Rules, s: Bytes, o: Bytes, t: Bytes)
    ensures EndedSegments(rules, s) == Ok(o, t) <==> EndedRead(rules, s, o, t)
    decreases |s|
  {
    hide ParseEncoded, PartRead;
    EndedIs(s);
    if !Ended(s) {
      if EndedSegments(rules, s) == Ok(o, t) {
        var first := ParseEncoded(rules, s, OCTET_STRING);
        EncodedShorter(rules, s, OCTET_STRING);
        PartExact(rules, s, Tag(0, 4), first.value, first.rest);
        var b := EndedSegments(rules, first.rest).value;
        EndedExact(rules, first.rest, b, t);
        assert o == first.value + b && PartThenEnded(rules, s, first.value, b, first.rest, t);
      }
      if EndedRead(rules, s, o, t) {
        var a, b, u := EndedPart(rules, s, o, t);
        PartExact(rules, s, Tag(0, 4), a, u);
        EndedExact(rules, u, b, t);
      }
    }
  }

  /**
   The decoder reads exactly what the rules read: for all rules, octets, tags, strings and rests, a string is decoded
   and a rest left if and only if the rules say so.
   */
  lemma {:induction false} StringExact(rules: Rules, s: Bytes, tag: Tag, o: Bytes, t: Bytes)
    ensures DecString(rules, s, tag) == Ok(o, t) <==> StringRead(rules, s, tag, o, t)
  {
    hide ParseValue, ValueRead, WholeSegments, WholeRead, EndedSegments, EndedRead;
    ValueExact(rules, s, tag, false, Some(o), t);
    var v := ParseValue(rules, s, tag);
    if v.Ok? {
      ValueTag(rules, s, tag);
      ValueExact(rules, s, tag, v.value.0.constructed, v.value.1, v.rest);
      if v.value.1.Some? {
        WholeExact(rules, v.value.1.value, o);
      } else {
        EndedExact(rules, v.rest, o, t);
      }
    }
    forall c: Bytes | ValueRead(rules, s, tag, true, Some(c), t)
      ensures v == Ok((Identifier(tag, true), Some(c)), t)
    {
      ValueExact(rules, s, tag, true, Some(c), t);
    }
    forall u: Bytes | ValueRead(rules, s, tag, true, None, u)
      ensures v == Ok((Identifier(tag, true), None), u)
    {
      ValueExact(rules, s, tag, true, None, u);
    }
  }

  /** A primitive string behind any length octets of one to eight octets, the shortest or not. */
  lemma AnyLength(rules: Rules, tag: Tag, contents: Bytes, l: Bytes, t: Bytes)
    requires tag != EOC && !(tag.cls == 0 && (tag.value == 8 || tag.value == 16 || tag.value == 17))
    requires 1 <= |l| <= 8 && UnsignedValue(l) == |contents|
    ensures DecString(rules, EncIdentifier(Identifier(tag, false)) + [128 + |l|] + l + contents + t, tag) == Ok(contents, t)
  {
    hide EncIdentifier, ParseIdentifier, RefIdentifier, UnsignedValue, Big, ParseContents, EndedSegments, WholeSegments;
    var id := Identifier(tag, false);
    var n := [128 + |l|] + l;
    IdentifierBack(id, n + (contents + t));
    IdentifierAgrees(EncIdentifier(id) + (n + (contents + t)));
    BigIs(l);
    assert n[1..] == l;
    LengthTaken(rules, id, n, contents, t);
    assert EncIdentifier(id) + [128 + |l|] + l + contents + t == EncIdentifier(id) + (n + (contents + t));
  }
}
