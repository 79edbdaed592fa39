/** The octet string decoder: loops over the segments of a constructed string. */
module BerDecoder {
  import opened Common
  import opened Decoding
  import opened BerTree
  import opened BerString
  import opened BerEncoder

  /** What was read already in front of the result for what follows. */
  function Gather(done: Bytes, r: Decoded<Bytes>): Decoded<Bytes> {
    if r.Err? then Err else Ok(done + r.value, r.rest)
  }

  lemma GatherNothing(r: Decoded<Bytes>)
    ensures Gather([], r) == r
  {
    assert r.Ok? ==> [] + r.value == r.value;
  }

  lemma GatherMore(done: Bytes, more: Bytes, r: Decoded<Bytes>)
    ensures Gather(done, Gather(more, r)) == Gather(done + more, r)
  {
    assert r.Ok? ==> done + (more + r.value) == done + more + r.value;
  }

  lemma GatherLast(done: Bytes, rest: Bytes)
    ensures Gather(done, Ok([], rest)) == Ok(done, rest) && Gather(done, Err) == Err
  {
    assert done + [] == done;
  }

  function AsDecoded(r: Option<Bytes>): Decoded<Bytes> {
    if r.None? then Err else Ok(r.value, [])
  }

  lemma WholeStep(rules: Rules, s: Bytes)
    requires s != []
    ensures var first := ParseEncoded(rules, s, OCTET_STRING);
            AsDecoded(WholeSegments(rules, s)) ==
            if first.Err? then Err else Gather(first.value, AsDecoded(WholeSegments(rules, first.rest)))
  {
    hide ParseEncoded;
  }

  lemma EndedStep(rules: Rules, s: Bytes)
    requires !AtEnd(s)
    ensures var first := ParseEncoded(rules, s, OCTET_STRING);
            EndedSegments(rules, s) == if first.Err? then Err else Gather(first.value, EndedSegments(rules, first.rest))
  {
    hide ParseEncoded;
  }

  lemma PartsStep(rules: Rules, s: Bytes)
    requires s != [] && !AtEnd(s) && ParseIdentifier(s).Ok?
    ensures var first := ParseEncoded(rules, s, ParseIdentifier(s).value.tag);
            ParseParts(rules, s) == if first.Err? then Err else Gather(first.value, ParseParts(rules, first.rest))
  {
    hide ParseEncoded;
  }

  /** A string value, primitive or made of parts, as the library's recursive parser reads it. */
  method ParseEncodedValue(rules: Rules, s: Bytes, tag: Tag) returns (r: Decoded<Bytes>)
    ensures r == ParseEncoded(rules, s, tag)
    decreases |s|
  {
    hide ParseValue, ParseIdentifier, ParseParts, Gather;
    var v := ParseValue(rules, s, tag);
    if v.Err? {
      return Err;
    }
    var (id, contents) := v.value;
    if !id.constructed {
      return if contents.None? then Err else Ok(contents.value, v.rest);
    }
    if rules.Der? {
      return Err;
    }
    var container, input := [], v.rest;
    ghost var parts := ParseParts(rules, input);
    GatherNothing(parts);
    while input != [] && !AtEnd(input)
      invariant |input| < |s| && parts == Gather(container, ParseParts(rules, input))
      decreases |input|
    {
      GatherLast(container, []);
      var next := ParseIdentifier(input);
      if next.Err? {
        NoPart(rules, input);
        return Err;
      }
      PartsStep(rules, input);
      var child := ParseEncodedValue(rules, input, next.value.tag);
      if child.Err? {
        return Err;
      }
      GatherMore(container, child.value, ParseParts(rules, child.rest));
      input := child.rest;
      container := container + child.value;
    }
    PartsEnd(rules, input);
    GatherLast(container, input);
    if contents.Some? {
      return Ok(container, input);
    }
    if !AtEnd(input) {
      return Err;
    }
    r := Ok(container, input[2..]);
  }

  lemma NoPart(rules: Rules, s: Bytes)
    requires s != [] && !AtEnd(s) && ParseIdentifier(s).Err?
    ensures ParseParts(rules, s) == Err
  {
  }

  lemma PartsEnd(rules: Rules, s: Bytes)
    requires s == [] || AtEnd(s)
    ensures ParseParts(rules, s) == Ok([], s)
  {
  }

  class Decoder {
    var input: Bytes
    const rules: Rules

    constructor (input: Bytes, rules: Rules)
      ensures this.input == input && this.rules == rules
    {
      this.input := input;
      this.rules := rules;
    }

    method ParseEoc() returns (ok: bool)
      modifies this
      ensures ok == AtEnd(old(input)) && input == if ok then old(input)[2..] else old(input)
    {
      ok := AtEnd(input);
      if ok {
        input := input[2..];
      }
    }

    /** The segments of definite contents. */
    method DecodeWhole(data: Bytes) returns (r: Option<Bytes>)
      ensures r == WholeSegments(rules, data)
    {
      hide WholeSegments, ParseEncoded, Gather;
      var buffer, contents := [], data;
      GatherNothing(AsDecoded(WholeSegments(rules, data)));
      while contents != []
        invariant AsDecoded(WholeSegments(rules, data)) == Gather(buffer, AsDecoded(WholeSegments(rules, contents)))
        decreases |contents|
      {
        WholeStep(rules, contents);
        GatherLast(buffer, []);
        var first := ParseEncodedValue(rules, contents, OCTET_STRING);
        if first.Err? {
          return None;
        }
        contents := first.rest;
        GatherMore(buffer, first.value, AsDecoded(WholeSegments(rules, contents)));
        buffer := buffer + first.value;
      }
      WholeEnd(rules);
      GatherLast(buffer, []);
      r := Some(buffer);
    }

    /** The segments up to the end-of-contents octets. */
    method DecodeEnded() returns (r: Option<Bytes>)
      modifies this
      ensures Refines(EndedSegments(rules, old(input)), r, input)
    {
      hide EndedSegments, ParseEncoded, Gather;
      var buffer := [];
      GatherNothing(EndedSegments(rules, input));
      while !AtEnd(input)
        invariant EndedSegments(rules, old(input)) == Gather(buffer, EndedSegments(rules, input))
        decreases |input|
      {
        EndedStep(rules, input);
        GatherLast(buffer, []);
        var first := ParseEncodedValue(rules, input, OCTET_STRING);
        if first.Err? {
          return None;
        }
        input := first.rest;
        GatherMore(buffer, first.value, EndedSegments(rules, input));
        buffer := buffer + first.value;
      }
      EndedEnd(rules, input);
      GatherLast(buffer, input[2..]);
      var ok := ParseEoc();
      r := Some(buffer);
    }

    method DecodeOctetString(tag: Tag) returns (r: Option<Bytes>)
      modifies this
      ensures Refines(DecString(rules, old(input), tag), r, input)
    {
      hide ParseValue, EndedSegments, WholeSegments;
      var v := ParseValue(rules, input, tag);
      if v.Err? {
        return None;
      }
      input := v.rest;
      var (id, contents) := v.value;
      if !id.constructed {
        return contents;
      }
      if rules.Der? {
        return None;
      }
      if contents.Some? {
        r := DecodeWhole(contents.value);
      } else {
        r := DecodeEnded();
      }
    }
  }

  lemma WholeEnd(rules: Rules)
    ensures WholeSegments(rules, []) == Some([])
  {
  }

  lemma EndedEnd(rules: Rules, s: Bytes)
    requires AtEnd(s)
    ensures EndedSegments(rules, s) == Ok([], s[2..])
  {
  }

  /** An octet string written and read by the library, under any rules and every tag for which it returns. */
  method RoundTrip(rules: Rules, tag: Tag, value: Bytes, tail: Bytes) returns (r: Option<Bytes>, left: Bytes)
    requires |value| < TWO_64
    ensures r == Some(value) && left == tail <==> Returns(rules, tag, value)
  {
    hide EncString, DecString, Returns;
    var encoder := new BerEncoder.Encoder(rules, false);
    encoder.EncodeString(tag, OCTET_STRING, value);
    assert encoder.output == EncString(rules, tag, OCTET_STRING, value);
    StringBack(rules, tag, value, tail);
    var decoder := new Decoder(encoder.output + tail, rules);
    r := decoder.DecodeOctetString(tag);
    left := if r.Some? then decoder.input else tail;
  }
}
