/** The parser as the program runs it: loops over mutable input, each proved against its function. */
module AvnParserLoops {
  import opened Common
  import opened Bits
  import opened Numerals
  import opened AvnTree
  import opened AvnParser

  // ----- Hexadecimal and binary strings -----

  lemma {:induction false} OddHex(s: string)
    requires |s| % 2 == 1
    ensures HexBytes(s) == None
  {
    if |s| > 1 {
      OddHex(s[2..]);
    }
  }

  function Joined(done: Bytes, rest: Option<Bytes>): Option<Bytes> {
    if rest.None? then None else Some(done + rest.value)
  }

  lemma JoinedSteps(done: Bytes, b: Byte, rest: Option<Bytes>)
    ensures Joined([], rest) == rest
    ensures Joined(done, Joined([b], rest)) == Joined(done + [b], rest)
    ensures Joined(done, Some([])) == Some(done)
  {
    if rest.Some? {
      assert [] + rest.value == rest.value;
      assert done + ([b] + rest.value) == done + [b] + rest.value;
    }
    assert done + [] == done;
  }

  method ParseHexBytes(hex: string) returns (r: Option<Bytes>)
    ensures r == HexBytes(hex)
  {
    if hex == "" {
      return Some([]);
    }
    if |hex| % 2 != 0 {
      OddHex(hex);
      return None;
    }
    var out: Bytes := [];
    var i := 0;
    JoinedSteps(out, 0, HexBytes(hex));
    assert hex[0..] == hex;
    while i < |hex|
      invariant 0 <= i <= |hex| && i % 2 == 0
      invariant HexBytes(hex) == Joined(out, HexBytes(hex[i..]))
    {
      var chunk := hex[i..];
      var hi := Nibble(chunk[0]);
      if hi.None? {
        return None;
      }
      var lo := Nibble(chunk[1]);
      if lo.None? {
        return None;
      }
      assert chunk[2..] == hex[i + 2..];
      JoinedSteps(out, 16 * hi.value + lo.value, HexBytes(hex[i + 2..]));
      out := out + [16 * hi.value + lo.value];
      i := i + 2;
    }
    JoinedSteps(out, 0, None);
    return Some(out);
  }

  /** Setting bit `p` of an octet whose later bits are zero adds its weight. */
  lemma {:induction false} ExtendPrefix(bits: seq<bool>, bit: bool, k: nat, n: nat)
    requires k <= |bits| < k + 8 && n <= 8
    ensures var p := |bits| - k;
            PrefixValue(bits + [bit], k, n) ==
            PrefixValue(bits, k, n) + if bit && n > p then Weight(8 - n + p) else 0
  {
    if n > 0 {
      ExtendPrefix(bits, bit, k, n - 1);
      var p := |bits| - k;
      assert n - 1 > p ==> Weight(8 - n + p) == 2 * Weight(8 - (n - 1) + p);
    }
  }

  lemma PackExtend(bits: seq<bool>, bit: bool)
    ensures var k := 8 * (|bits| / 8);
            PackByte(bits + [bit], k) == PackByte(bits, k) + if bit then Weight(|bits| % 8) else 0
    ensures forall j :: 0 <= j < |bits| / 8 ==> PackByte(bits + [bit], 8 * j) == PackByte(bits, 8 * j)
  {
    ExtendPrefix(bits, bit, 8 * (|bits| / 8), 8);
    forall j | 0 <= j < |bits| / 8
      ensures PackByte(bits + [bit], 8 * j) == PackByte(bits, 8 * j)
    {
      SamePrefix(bits, bit, 8 * j, 8);
    }
  }

  lemma {:induction false} SamePrefix(bits: seq<bool>, bit: bool, k: nat, n: nat)
    requires n <= 8 && k + n <= |bits|
    ensures PrefixValue(bits + [bit], k, n) == PrefixValue(bits, k, n)
  {
    if n > 0 {
      SamePrefix(bits, bit, k, n - 1);
    }
  }

  lemma {:induction false} ZeroPrefix(bits: seq<bool>, k: nat, n: nat)
    requires |bits| <= k && n <= 8
    ensures PrefixValue(bits, k, n) == 0
  {
    if n > 0 {
      ZeroPrefix(bits, k, n - 1);
    }
  }

  method ParseBinBits(bin: string) returns (r: Option<(Bytes, nat)>)
    ensures r == if AllBinary(bin) then Some((PackBits(BinaryDigits(bin)), |bin|)) else None
  {
    ghost var bits := BinaryDigits(bin);
    var bytes: Bytes := [];
    var current: Byte := 0;
    var i := 0;
    while i < |bin|
      invariant 0 <= i <= |bin|
      invariant AllBinary(bin[..i])
      invariant |bytes| == i / 8
      invariant current == PackByte(bits[..i], 8 * (i / 8))
      invariant forall j :: 0 <= j < i / 8 ==> bytes[j] == PackByte(bits[..i], 8 * j)
    {
      if bin[i] != '0' && bin[i] != '1' {
        return None;
      }
      PackExtend(bits[..i], bits[i]);
      assert bits[..i] + [bits[i]] == bits[..i + 1];
      current := PackedBit(bits[..i], current, bin[i] == '1', i);
      if i % 8 == 7 {
        bytes := bytes + [current];
        current := 0;
        ZeroPrefix(bits[..i + 1], i + 1, 8);
      }
      i := i + 1;
    }
    assert bits[..i] == bits;
    if |bin| % 8 != 0 {
      bytes := bytes + [current];
    }
    assert bytes == PackBits(bits);
    return Some((bytes, |bin|));
  }

  /** `current |= bit << (7 - i % 8)`. */
  function PackedBit(ghost bits: seq<bool>, current: Byte, bit: bool, i: nat): (r: Byte)
    requires |bits| == i && current == PackByte(bits, 8 * (i / 8))
    ensures r == PackByte(bits + [bit], 8 * (i / 8))
  {
    PackExtend(bits, bit);
    current + if bit then Weight(i % 8) else 0
  }

  method ParseHexOrBinString(input: string) returns (r: Parsed<AvnValue>)
    ensures r == HexOrBin(input)
  {
    if !StartsWith(input, '\'') {
      return Err(Syntax);
    }
    var n := Span(IsUnquoted, input[1..]);
    var content := DropWhite(input[1..][..n]);
    var after := input[1..][n..];
    if |after| < 2 {
      return Err(Syntax);
    }
    if after[1] == 'H' {
      var bytes := ParseHexBytes(content);
      if bytes.None? {
        return Err(Syntax);
      }
      return Ok(OctetString(bytes.value), after[2..]);
    }
    if after[1] == 'B' {
      var bits := ParseBinBits(content);
      if bits.None? {
        return Err(Syntax);
      }
      return Ok(BitString(bits.value.0, bits.value.1), after[2..]);
    }
    return Err(Syntax);
  }

  // ----- Quoted strings -----

  function PrependAll(done: string, r: Parsed<string>): Parsed<string> {
    if r.Ok? then Ok(done + r.value, r.rest) else r
  }

  lemma PrependSteps(done: string, c: char, r: Parsed<string>)
    ensures PrependAll("", r) == r
    ensures PrependAll(done, Prepend(c, r)) == PrependAll(done + [c], r)
    ensures r.Ok? && r.value == "" ==> PrependAll(done, r) == Ok(done, r.rest)
  {
    if r.Ok? {
      assert "" + r.value == r.value;
      assert done + ([c] + r.value) == done + [c] + r.value;
      assert done + "" == done;
    }
  }

  method ParseQuotedString(input: string) returns (r: Parsed<AvnValue>)
    ensures r == QuotedString(input)
  {
    if !StartsWith(input, '"') {
      return Err(Syntax);
    }
    var s := "";
    var rest := input[1..];
    PrependSteps(s, ' ', Unquote(rest));
    while true
      invariant Unquote(input[1..]) == PrependAll(s, Unquote(rest))
      decreases |rest|
    {
      if rest == "" {
        return Err(Syntax);
      }
      PrependSteps(s, rest[0], Unquote(rest[1..]));
      PrependSteps(s, ' ', Unquote(rest));
      if rest[0] == '"' {
        ghost var before := rest;
        rest := rest[1..];
        if StartsWith(rest, '"') {
          assert before[2..] == rest[1..];
          PrependSteps(s, '"', Unquote(rest[1..]));
          s := s + "\"";
          rest := rest[1..];
        } else {
          return Ok(CharString(s), rest);
        }
      } else {
        s := s + [rest[0]];
        rest := rest[1..];
      }
    }
  }

  // ----- Values -----

  method ParseValueDepth(input: string, depth: nat) returns (r: Parsed<AvnValue>)
    ensures r == ParseValue(input, depth)
    decreases |input|, 3
  {
    if depth > MAX_DEPTH {
      return Err(TooDeep);
    }
    var t := SkipSpace(input);
    r := ParseHexOrBinString(t);
    if r != Err(Syntax) {
      return;
    }
    r := ParseQuotedString(t);
    if r != Err(Syntax) {
      return;
    }
    r := Number(t);
    if r != Err(Syntax) {
      return;
    }
    r := ParseBraceList(t, depth + 1);
    if r != Err(Syntax) {
      return;
    }
    r := ParseIdentifierOrChoice(t, depth);
  }

  method ParseIdentifierOrChoice(input: string, depth: nat) returns (r: Parsed<AvnValue>)
    ensures r == ParseWord(input, depth)
    decreases |input|, 2
  {
    var n := IdLength(input);
    if n == 0 {
      return Err(Syntax);
    }
    var after := SkipSpace(input[n..]);
    if StartsWith(after, ':') {
      var inner := ParseValueDepth(after[1..], depth + 1);
      return InChoice(input[..n], inner);
    }
    return Ok(Word(input[..n]), input[n..]);
  }

  method ParseBraceList(input: string, depth: nat) returns (r: Parsed<AvnValue>)
    ensures r == ParseBrace(input, depth)
    decreases |input|, 2
  {
    if !StartsWith(input, '{') {
      return Err(Syntax);
    }
    var start := SkipSpace(input[1..]);
    if StartsWith(start, '}') {
      return Ok(SequenceOf([]), start[1..]);
    }
    var items: seq<BraceItem> := [];
    var current := start;
    while true
      invariant |current| < |input|
      invariant ParseItems(start, depth, []) == ParseItems(current, depth, items)
      decreases |current|
    {
      current := SkipSpace(current);
      var item: Parsed<BraceItem>;
      var n := IdLength(current);
      if n > 0 {
        var after := SkipSpace(current[n..]);
        if StartsWith(after, ':') {
          var v := ParseValueDepth(after[1..], depth);
          item := AsBare(InChoice(current[..n], v));
        } else if StartsWith(after, ',') || StartsWith(after, '}') {
          item := Ok(Bare(ItemWord(current[..n])), current[n..]);
        } else {
          var v := ParseValueDepth(after, depth);
          item := AsNamed(current[..n], v);
        }
      } else {
        var v := ParseValueDepth(current, depth);
        item := AsBare(v);
      }
      if item.Err? {
        return Err(item.error);
      }
      items := items + [item.value];
      current := SkipSpace(item.rest);
      if StartsWith(current, '}') {
        return Assemble(items, current[1..]);
      } else if StartsWith(current, ',') {
        current := current[1..];
      } else if current != "" && (IsDigit(current[0]) || current[0] == '-') && AllIntegers(items) {
        // Arcs of an object identifier: no comma needed.
      } else {
        return Err(Syntax);
      }
    }
  }

  /** `Decoder::new`: the whole text must be one value and white space. */
  method ParseDocument(input: string) returns (r: Parsed<AvnValue>)
    ensures r == ParseText(input)
  {
    var root := ParseValueDepth(input, 0);
    if root.Err? {
      return root;
    }
    if !AllWhite(root.rest) {
      return Err(Syntax);
    }
    return Ok(root.value, "");
  }
}
