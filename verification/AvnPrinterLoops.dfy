/** The printer as the program runs it: loops that append to a formatter. */
module AvnPrinterLoops {
  import opened Common
  import opened Bits
  import opened Numerals
  import opened AvnTree

  method FormatHex(bytes: Bytes) returns (s: string)
    ensures s == HexText(bytes)
  {
    s := "";
    var i := 0;
    assert bytes[0..] == bytes;
    while i < |bytes|
      invariant 0 <= i <= |bytes|
      invariant s + HexText(bytes[i..]) == HexText(bytes)
    {
      assert bytes[i..][1..] == bytes[i + 1..];
      s := s + [HexChar(bytes[i] / 16), HexChar(bytes[i] % 16)];
      i := i + 1;
    }
  }

  /** Exactly `n` bits from the most significant down, eight to an octet. */
  method FormatBits(bytes: Bytes, n: nat) returns (s: string)
    ensures s == BitChars(BitsOf(bytes, Min(n, 8 * |bytes|)))
  {
    ghost var all := BitChars(BitsOf(bytes, Min(n, 8 * |bytes|)));
    s := "";
    var remaining := n;
    var i := 0;
    while i < |bytes| && remaining > 0
      invariant 0 <= i <= |bytes|
      invariant remaining == if n > 8 * i then n - 8 * i else 0
      invariant |s| == Min(n, 8 * i) && s == all[..|s|]
    {
      var count := Min(remaining, 8);
      var k := 0;
      while k < count
        invariant 0 <= k <= count
        invariant |s| == 8 * i + k && s == all[..|s|]
      {
        assert (8 * i + k) / 8 == i && (8 * i + k) % 8 == k;
        s := s + [if BitAt(bytes[i], k) then '1' else '0'];
        k := k + 1;
      }
      remaining := if remaining > 8 then remaining - 8 else 0;
      i := i + 1;
    }
  }

  method FormatString(chars: string) returns (s: string)
    ensures s == "\"" + Doubled(chars) + "\""
  {
    s := "\"";
    var i := 0;
    assert chars[0..] == chars;
    while i < |chars|
      invariant 0 <= i <= |chars|
      invariant s + Doubled(chars[i..]) == "\"" + Doubled(chars)
    {
      assert chars[i..][1..] == chars[i + 1..];
      s := s + if chars[i] == '"' then "\"\"" else [chars[i]];
      i := i + 1;
    }
    s := s + "\"";
  }

  method FormatArcs(arcs: seq<U32>) returns (s: string)
    ensures s == PrintArcs(arcs)
  {
    s := "";
    var i := 0;
    assert arcs[0..] == arcs;
    while i < |arcs|
      invariant 0 <= i <= |arcs|
      invariant s + PrintArcs(arcs[i..]) == PrintArcs(arcs)
    {
      assert arcs[i..][1..] == arcs[i + 1..];
      s := s + (" " + NatText(arcs[i]));
      i := i + 1;
    }
  }

  method Format(v: AvnValue, depth: nat) returns (s: string)
    ensures s == Print(v, depth)
    decreases v, 1
  {
    match v
    case OctetString(bytes) =>
      var hex := FormatHex(bytes);
      s := "'" + hex + "'H";
    case BitString(bytes, n) =>
      if n == 0 {
        s := "''H";
      } else if n % 8 == 0 {
        var hex := FormatHex(bytes);
        s := "'" + hex + "'H";
      } else {
        var bits := FormatBits(bytes, n);
        s := "'" + bits + "'B";
      }
    case Oid(arcs) =>
      var text := FormatArcs(arcs);
      s := "{" + text + " }";
    case Sequence(fields) =>
      if !AnyPresent(fields) {
        s := "{}";
      } else {
        var body := FormatFields(fields, depth + 1);
        s := "{\n" + body + Spaces(2 * depth) + "}";
      }
    case SequenceOf(items) =>
      if items == [] {
        s := "{}";
      } else {
        var body := FormatItems(items, depth + 1);
        s := "{\n" + body + Spaces(2 * depth) + "}";
      }
    case Choice(id, inner) =>
      var text := Format(inner, depth);
      s := id + " : " + text;
    case CharString(chars) => s := FormatString(chars);
    case _ => s := Print(v, depth);
  }

  method FormatFields(fields: seq<Entry>, depth: nat) returns (s: string)
    ensures s == PrintFields(fields, depth)
    decreases fields, 0
  {
    s := "";
    var i := 0;
    assert fields[0..] == fields;
    while i < |fields|
      invariant 0 <= i <= |fields|
      invariant s + PrintFields(fields[i..], depth) == PrintFields(fields, depth)
    {
      assert fields[i..][1..] == fields[i + 1..];
      if fields[i].value.Some? {
        var text := Format(fields[i].value.value, depth);
        s := s + (Spaces(2 * depth) + fields[i].name + " " + text + Ending(AnyPresent(fields[i + 1..])));
      }
      i := i + 1;
    }
  }

  method FormatItems(items: seq<AvnValue>, depth: nat) returns (s: string)
    ensures s == PrintItems(items, depth)
    decreases items, 0
  {
    s := "";
    var i := 0;
    assert items[0..] == items;
    while i < |items|
      invariant 0 <= i <= |items|
      invariant s + PrintItems(items[i..], depth) == PrintItems(items, depth)
    {
      assert items[i..][1..] == items[i + 1..];
      var text := Format(items[i], depth);
      s := s + (Spaces(2 * depth) + text + Ending(i + 1 < |items|));
      i := i + 1;
    }
  }
}
