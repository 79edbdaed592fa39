/**
 The notation that the AVN parser reads, as rules stated without the parser: each rule says of a text `s` that
 something can be read from its front and that `t` is left. The parser reads a value exactly if the rules do.
 */
module AvnGrammar {
  import opened Common
  import opened Bits
  import opened Positional
  import opened Numerals
  import opened AvnTree
  import opened AvnParser
  import AvnText

  // ----- Characters -----

  predicate Blank(c: char) {
    c == ' ' || c == '\t' || c == '\r' || c == '\n'
  }

  /** The characters with the Unicode property White_Space. */
  predicate White(c: char) {
    (c as int) in {9, 10, 11, 12, 13, 32, 0x85, 0xA0, 0x1680, 0x2000, 0x2001, 0x2002, 0x2003, 0x2004, 0x2005, 0x2006, 0x2007,
                   0x2008, 0x2009, 0x200A, 0x2028, 0x2029, 0x202F, 0x205F, 0x3000}
  }

  predicate Letter(c: char) {
    'A' <= c <= 'Z' || 'a' <= c <= 'z'
  }

  predicate Decimal(c: char) {
    '0' <= c <= '9'
  }

  /** What may follow the first letter of an identifier. */
  predicate Following(c: char) {
    Letter(c) || Decimal(c) || c == '-' || c == '_'
  }

  predicate Starts(s: string, c: char) {
    s != "" && s[0] == c
  }

  /** `s` is white space and then `u`, which starts with none. */
  predicate Skips(s: string, u: string) {
    && |u| <= |s| && u == s[|s| - |u|..]
    && (forall i :: 0 <= i < |s| - |u| ==> Blank(s[i]))
    && (u != "" ==> !Blank(u[0]))
  }

  // ----- Tokens -----

  /** A letter, then letters, digits, hyphens and underscores for as long as there are any. */
  predicate NameRead(s: string, id: string, t: string) {
    && s == id + t && id != "" && Letter(id[0])
    && (forall i :: 0 <= i < |id| ==> Following(id[i]))
    && (t != "" ==> !Following(t[0]))
  }

  predicate Decimals(s: string) {
    s != "" && forall i :: 0 <= i < |s| ==> Decimal(s[i])
  }

  function WithoutSign(n: string): string {
    if Starts(n, '-') then n[1..] else n
  }

  /** Digits with a point between them. */
  ghost predicate Pointed(n: string) {
    exists k :: 0 <= k < |n| && n[k] == '.' && Decimals(n[..k]) && Decimals(n[k + 1..])
  }

  /** A number goes on for as long as it can. */
  ghost predicate NumberRead(s: string, v: AvnValue, t: string) {
    && (t != "" ==> !Decimal(t[0]))
    && match v
       case Integer(n) => s == n + t && Decimals(WithoutSign(n)) && !(|t| > 1 && t[0] == '.' && Decimal(t[1]))
       case Real(n) => s == n + t && Pointed(WithoutSign(n))
       case _ => false
  }

  predicate HexDigit(c: char, n: nat) {
    n < 16 && (c == "0123456789ABCDEF"[n] || c == "0123456789abcdef"[n])
  }

  predicate HexRead(digits: string, octets: Bytes) {
    && |digits| == 2 * |octets|
    && forall i :: 0 <= i < |octets| ==> HexDigit(digits[2 * i], octets[i] / 16) && HexDigit(digits[2 * i + 1], octets[i] % 16)
  }

  predicate BinaryRead(digits: string, bytes: Bytes, n: nat) {
    && n == |digits| && |bytes| == (n + 7) / 8
    && (forall i :: 0 <= i < n ==> digits[i] == '0' || digits[i] == '1')
    && forall k :: 0 <= k < 8 * |bytes| ==> Bit(bytes, k) == (k < n && digits[k] == '1')
  }

  function Visible(s: string): string {
    if s == "" then "" else (if White(s[0]) then "" else [s[0]]) + Visible(s[1..])
  }

  /** Characters between single quotation marks. */
  predicate Quoted(s: string, content: string, suffix: char, t: string) {
    '\'' !in content && s == ['\''] + (content + (['\'', suffix] + t))
  }

  ghost predicate DigitsRead(s: string, v: AvnValue, t: string) {
    match v
    case OctetString(octets) => exists content: string :: Quoted(s, content, 'H', t) && HexRead(Visible(content), octets)
    case BitString(bytes, n) => exists content: string :: Quoted(s, content, 'B', t) && BinaryRead(Visible(content), bytes, n)
    case _ => false
  }

  /** Every quotation mark twice. */
  function Twice(s: string): string {
    if s == "" then "" else (if s[0] == '"' then ['"', '"'] else [s[0]]) + Twice(s[1..])
  }

  predicate TextRead(s: string, v: AvnValue, t: string) {
    v.CharString? && s == ['"'] + (Twice(v.chars) + (['"'] + t)) && !Starts(t, '"')
  }

  /** A lone identifier. Directly between braces only the names of REAL values mean something else than an item. */
  function Meaning(id: string, between: bool): AvnValue {
    if id == "TRUE" && !between then Boolean(true)
    else if id == "FALSE" && !between then Boolean(false)
    else if id == "NULL" && !between then Null
    else if id == "PLUS-INFINITY" || id == "MINUS-INFINITY" || id == "NOT-A-NUMBER" then Real(id)
    else Enumerated(id)
  }

  // ----- Values -----

  /** At most 64 levels of nesting; a list and a value in it, or a CHOICE, are each one more. */
  ghost predicate ValueRead(s: string, v: AvnValue, t: string, depth: nat)
    decreases |s|, 3
  {
    depth <= 64 && exists u: string :: Skips(s, u) && FormRead(u, v, t, depth)
  }

  ghost predicate FormRead(s: string, v: AvnValue, t: string, depth: nat)
    decreases |s|, 2
  {
    || DigitsRead(s, v, t)
    || TextRead(s, v, t)
    || NumberRead(s, v, t)
    || ListRead(s, v, t, depth + 1)
    || exists id: string, r: string :: NameRead(s, id, r) && WordRead(id, r, v, t, depth)
  }

  /** After an identifier: a colon and a value, or anything else. */
  ghost predicate WordRead(id: string, s: string, v: AvnValue, t: string, depth: nat)
    decreases |s|, 4
  {
    exists u: string :: Skips(s, u) &&
      if Starts(u, ':') then v.Choice? && v.identifier == id && ValueRead(u[1..], v.value, t, depth + 1)
      else v == Meaning(id, false) && t == s
  }

  ghost predicate ListRead(s: string, v: AvnValue, t: string, depth: nat)
    decreases |s|, 1
  {
    && Starts(s, '{')
    && exists u: string :: Skips(s[1..], u) &&
         if Starts(u, '}') then v == SequenceOf([]) && t == u[1..]
         else exists items: seq<BraceItem> :: ItemsRead(u, items, 0, t, depth) && Built(items, v)
  }

  /** The items of a list from the `k`th on: commas between them, but none needed between integers. */
  ghost predicate ItemsRead(s: string, items: seq<BraceItem>, k: nat, t: string, depth: nat)
    decreases |s|, 6
  {
    && k < |items|
    && exists u: string, r: string :: Skips(s, u) && |r| < |s| && ItemRead(u, items[k], r, depth) && MoreRead(r, items, k + 1, t, depth)
  }

  ghost predicate MoreRead(s: string, items: seq<BraceItem>, k: nat, t: string, depth: nat)
    requires k <= |items|
    decreases |s|, 7
  {
    exists u: string :: Skips(s, u) &&
      if Starts(u, '}') then k == |items| && t == u[1..]
      else if Starts(u, ',') then ItemsRead(u[1..], items, k, t, depth)
      else
        && u != "" && (Decimal(u[0]) || u[0] == '-')
        && (forall i :: 0 <= i < k ==> items[i].Bare? && items[i].bare.Integer?)
        && ItemsRead(u, items, k, t, depth)
  }

  /** An identifier with a colon after it, or alone, or naming a field; or any other value. */
  ghost predicate ItemRead(s: string, item: BraceItem, t: string, depth: nat)
    decreases |s|, 5
  {
    if s != "" && Letter(s[0]) then
      exists id: string, r: string :: NameRead(s, id, r) && NamedRead(id, r, item, t, depth)
    else item.Bare? && ValueRead(s, item.bare, t, depth)
  }

  ghost predicate NamedRead(id: string, s: string, item: BraceItem, t: string, depth: nat)
    decreases |s|, 4
  {
    exists u: string :: Skips(s, u) &&
      if Starts(u, ':') then
        item.Bare? && item.bare.Choice? && item.bare.identifier == id && ValueRead(u[1..], item.bare.value, t, depth)
      else if Starts(u, ',') || Starts(u, '}') then item == Bare(Meaning(id, true)) && t == s
      else item.Named? && item.name == id && ValueRead(u, item.named, t, depth)
  }

  /** Names for all items make a SEQUENCE, for none a SEQUENCE OF. */
  ghost predicate Built(items: seq<BraceItem>, v: AvnValue) {
    || (v.Sequence? && items != [] && |v.fields| == |items|
        && forall i :: 0 <= i < |items| ==> items[i].Named? && v.fields[i] == Entry(items[i].name, Some(items[i].named)))
    || (v.SequenceOf? && |v.items| == |items|
        && forall i :: 0 <= i < |items| ==> items[i].Bare? && v.items[i] == items[i].bare)
  }

  /** A text is one value and then white space. */
  ghost predicate Denotes(s: string, v: AvnValue) {
    exists t: string :: ValueRead(s, v, t, 0) && forall i :: 0 <= i < |t| ==> White(t[i])
  }

  // ----- The parser's tokens -----

  /** A span ends where the predicate ends to hold. */
  lemma {:induction false} SpanIs(p: char -> bool, s: string)
    ensures var n := Span(p, s); (forall i :: 0 <= i < n ==> p(s[i])) && (n < |s| ==> !p(s[n]))
  {
    if s != "" && p(s[0]) {
      SpanIs(p, s[1..]);
      var n := Span(p, s);
      assert forall i :: 0 <= i < n - 1 ==> s[1..][i] == s[i + 1];
    }
  }

  lemma SpanOnce(p: char -> bool, s: string, n: nat)
    requires n <= |s| && (forall i :: 0 <= i < n ==> p(s[i])) && (n < |s| ==> !p(s[n]))
    ensures Span(p, s) == n
  {
    hide Span;
    SpanIs(p, s);
  }

  lemma SkipsExact(s: string, u: string)
    ensures Skips(s, u) <==> u == SkipSpace(s)
  {
    hide Span;
    SpanIs(IsSpace, s);
    assert forall c: char :: Blank(c) == IsSpace(c);
    if Skips(s, u) {
      SpanOnce(IsSpace, s, |s| - |u|);
    }
  }

  lemma Cut(s: string, a: string, t: string)
    requires s == a + t
    ensures s[..|a|] == a && s[|a|..] == t
  {
  }

  lemma Whole(s: string, n: nat)
    requires n <= |s|
    ensures s == s[..n] + s[n..]
  {
  }

  lemma SameCharacters()
    ensures forall c: char :: Following(c) == IsIdChar(c)
    ensures forall c: char :: Letter(c) == IsAlpha(c)
  {
  }

  lemma NameExact(s: string, id: string, t: string)
    ensures NameRead(s, id, t) <==> IdLength(s) > 0 && id == s[..IdLength(s)] && t == s[IdLength(s)..]
  {
    hide Span, Following, Letter, IsIdChar, IsAlpha;
    SameCharacters();
    SpanIs(IsIdChar, s);
    if NameRead(s, id, t) {
      Cut(s, id, t);
      assert forall i :: 0 <= i < |id| ==> s[i] == id[i];
      assert t != "" ==> s[|id|] == t[0];
      SpanOnce(IsIdChar, s, |id|);
    }
    if IdLength(s) > 0 {
      Whole(s, IdLength(s));
    }
  }

  lemma NibbleExact(c: char, n: nat)
    ensures HexDigit(c, n) <==> Nibble(c) == Some(n)
  {
    if n == 0 {
    } else if n == 1 {
    } else if n == 2 {
    } else if n == 3 {
    } else if n == 4 {
    } else if n == 5 {
    } else if n == 6 {
    } else if n == 7 {
    } else if n == 8 {
    } else if n == 9 {
    } else if n == 10 {
    } else if n == 11 {
    } else if n == 12 {
    } else if n == 13 {
    } else if n == 14 {
    } else if n == 15 {
    }
  }

  lemma {:induction false} HexExact(digits: string, octets: Bytes)
    ensures HexBytes(digits) == Some(octets) <==> HexRead(digits, octets)
    decreases |digits|
  {
    hide Nibble, HexDigit;
    if |digits| >= 2 {
      if octets != [] {
        NibbleExact(digits[0], octets[0] / 16);
        NibbleExact(digits[1], octets[0] % 16);
        HexExact(digits[2..], octets[1..]);
        HexStep(digits, octets);
        assert octets == [octets[0]] + octets[1..];
      }
    }
  }

  lemma HexStep(digits: string, octets: Bytes)
    requires |digits| >= 2 && octets != []
    ensures HexRead(digits, octets) <==>
            HexDigit(digits[0], octets[0] / 16) && HexDigit(digits[1], octets[0] % 16) && HexRead(digits[2..], octets[1..])
  {
    hide HexDigit;
    if HexRead(digits[2..], octets[1..]) && HexDigit(digits[0], octets[0] / 16) && HexDigit(digits[1], octets[0] % 16) {
      forall i | 0 <= i < |octets|
        ensures HexDigit(digits[2 * i], octets[i] / 16) && HexDigit(digits[2 * i + 1], octets[i] % 16)
      {
        if i > 0 {
          assert digits[2..][2 * (i - 1)] == digits[2 * i] && digits[2..][2 * (i - 1) + 1] == digits[2 * i + 1];
          assert octets[1..][i - 1] == octets[i];
        }
      }
    }
    if HexRead(digits, octets) {
      forall i | 0 <= i < |octets[1..]|
        ensures HexDigit(digits[2..][2 * i], octets[1..][i] / 16) && HexDigit(digits[2..][2 * i + 1], octets[1..][i] % 16)
      {
        assert digits[2..][2 * i] == digits[2 * (i + 1)] && digits[2..][2 * i + 1] == digits[2 * (i + 1) + 1];
        assert octets[1..][i] == octets[i + 1];
      }
      assert HexDigit(digits[2 * 0], octets[0] / 16) && HexDigit(digits[2 * 0 + 1], octets[0] % 16);
    }
  }

  lemma {:induction false} VisibleIs(s: string)
    ensures DropWhite(s) == Visible(s)
  {
    if s != "" {
      VisibleIs(s[1..]);
    }
  }

  lemma BinaryExact(digits: string, bytes: Bytes, n: nat)
    ensures BinaryRead(digits, bytes, n) <==> AllBinary(digits) && n == |digits| && bytes == PackBits(BinaryDigits(digits))
  {
    hide Bit, PackBits, PackedIn;
    var bits := BinaryDigits(digits);
    PackedIs(bits, bytes);
    PackedInIs(bits, bytes);
  }

  lemma PackedInIs(bits: seq<bool>, b: Bytes)
    ensures PackedIn(bits, b) <==>
            |b| == (|bits| + 7) / 8 && forall k :: 0 <= k < 8 * |b| ==> Bit(b, k) == (k < |bits| && bits[k])
  {
    hide Bit;
  }

  lemma {:induction false} QuotedExact(s: string, content: string, suffix: char, t: string)
    ensures Quoted(s, content, suffix, t) <==>
            && StartsWith(s, '\'')
            && var n := Span(IsUnquoted, s[1..]);
               content == s[1..][..n] && var after := s[1..][n..]; |after| >= 2 && suffix == after[1] && t == after[2..]
  {
    hide Span;
    if Quoted(s, content, suffix, t) {
      var end := ['\'', suffix] + t;
      assert s[1..] == content + end;
      Cut(s[1..], content, end);
      assert forall i :: 0 <= i < |content| ==> s[1..][i] == content[i] && content[i] in content;
      SpanOnce(IsUnquoted, s[1..], |content|);
      assert end[2..] == t;
    }
    if StartsWith(s, '\'') {
      var n := Span(IsUnquoted, s[1..]);
      SpanIs(IsUnquoted, s[1..]);
      var after := s[1..][n..];
      Whole(s[1..], n);
      if |after| >= 2 {
        assert after == ['\'', after[1]] + after[2..];
        assert s == ['\''] + s[1..];
      }
    }
  }

  lemma DigitsExact(s: string, v: AvnValue, t: string)
    ensures HexOrBin(s) == Ok(v, t) <==> DigitsRead(s, v, t)
  {
    hide Span, HexBytes, HexRead, BinaryRead, PackBits, Visible, DropWhite, Quoted, AllBinary, BinaryDigits;
    if StartsWith(s, '\'') {
      var n := Span(IsUnquoted, s[1..]);
      var after := s[1..][n..];
      if |after| >= 2 {
        var content := s[1..][..n];
        QuotedExact(s, content, after[1], after[2..]);
        VisibleIs(content);
        if v.OctetString? {
          HexExact(Visible(content), v.octets);
        } else if v.BitString? {
          BinaryExact(Visible(content), v.bytes, v.bitLength);
        }
      }
    }
    forall content: string, suffix: char | Quoted(s, content, suffix, t)
      ensures StartsWith(s, '\'') && content == s[1..][..Span(IsUnquoted, s[1..])]
      ensures var after := s[1..][Span(IsUnquoted, s[1..])..]; |after| >= 2 && suffix == after[1] && t == after[2..]
    {
      QuotedExact(s, content, suffix, t);
    }
  }

  lemma TwiceMore(c: char, more: string)
    ensures Twice([c] + more) == (if c == '"' then ['"', '"'] else [c]) + Twice(more)
  {
    assert ([c] + more)[1..] == more;
  }

  lemma {:induction false} UnquoteRead(s: string)
    requires Unquote(s).Ok?
    ensures var r := Unquote(s); s == Twice(r.value) + (['"'] + r.rest) && !Starts(r.rest, '"')
    decreases |s|
  {
    hide Twice;
    if s[0] != '"' {
      UnquoteRead(s[1..]);
      TwiceMore(s[0], Unquote(s[1..]).value);
      assert s == [s[0]] + s[1..];
    } else if StartsWith(s[1..], '"') {
      UnquoteRead(s[2..]);
      TwiceMore('"', Unquote(s[2..]).value);
      assert s == ['"', '"'] + s[2..];
    } else {
      TwiceNothing();
      assert s == ['"'] + s[1..];
    }
  }

  lemma TwiceNothing()
    ensures Twice("") == ""
  {
  }

  lemma {:induction false} UnquoteTaken(chars: string, t: string)
    requires !Starts(t, '"')
    ensures Unquote(Twice(chars) + (['"'] + t)) == Ok(chars, t)
  {
    hide Twice, Unquote;
    if chars == "" {
      TwiceNothing();
      UnquoteEnd(t);
      assert "" + (['"'] + t) == ['"'] + t;
    } else {
      var more := Twice(chars[1..]) + (['"'] + t);
      UnquoteTaken(chars[1..], t);
      assert [chars[0]] + chars[1..] == chars;
      TwiceMore(chars[0], chars[1..]);
      UnquoteMore(chars[0], more);
      assert Twice(chars) + (['"'] + t) == (if chars[0] == '"' then ['"', '"'] else [chars[0]]) + more;
    }
  }

  lemma UnquoteEnd(t: string)
    requires !Starts(t, '"')
    ensures Unquote(['"'] + t) == Ok("", t)
  {
    assert (['"'] + t)[1..] == t;
  }

  lemma UnquoteMore(c: char, more: string)
    ensures Unquote((if c == '"' then ['"', '"'] else [c]) + more) == Prepend(c, Unquote(more))
  {
    if c == '"' {
      assert (['"', '"'] + more)[2..] == more && (['"', '"'] + more)[1..][0] == '"';
    } else {
      assert ([c] + more)[1..] == more;
    }
  }

  lemma TextExact(s: string, v: AvnValue, t: string)
    ensures QuotedString(s) == Ok(v, t) <==> TextRead(s, v, t)
  {
    hide Unquote, Twice;
    if QuotedString(s) == Ok(v, t) {
      UnquoteRead(s[1..]);
      assert s == ['"'] + s[1..];
    }
    if TextRead(s, v, t) {
      UnquoteTaken(v.chars, t);
      assert s[1..] == Twice(v.chars) + (['"'] + t);
    }
  }

  // ----- Numbers -----

  lemma DigitsSpan(d: string, t: string)
    requires (forall i :: 0 <= i < |d| ==> Decimal(d[i])) && (t != "" ==> !Decimal(t[0]))
    ensures Span(IsDigit, d + t) == |d|
  {
    hide Span;
    SpanOnce(IsDigit, d + t, |d|);
  }

  /** An integer: its sign, and digits up to something that is no digit and no point with digits. */
  lemma IntegerTaken(n: string, t: string)
    requires Decimals(WithoutSign(n)) && (t != "" ==> !Decimal(t[0])) && !(|t| > 1 && t[0] == '.' && Decimal(t[1]))
    ensures NumberLength(n + t) == |n| && '.' !in n
  {
    hide Span;
    var s := n + t;
    var sign := if StartsWith(s, '-') then 1 else 0;
    var d := WithoutSign(n);
    assert s[sign..] == d + t;
    DigitsSpan(d, t);
    Cut(s, n, t);
    if StartsWith(t, '.') {
      assert s[|n| + 1..] == t[1..];
      DigitsSpan("", t[1..]);
      assert "" + t[1..] == t[1..];
    }
    assert forall i :: 0 <= i < |n| ==> n[i] == '-' || n[i] in d;
  }

  lemma RealTaken(n: string, t: string)
    requires Pointed(WithoutSign(n)) && (t != "" ==> !Decimal(t[0]))
    ensures NumberLength(n + t) == |n| && '.' in n
  {
    hide Span, NumberLength, Decimals, Decimal;
    var sign, a, f := PointedIn(n);
    PointedTaken(sign, a, f, t);
    Associate(sign, a, ['.'], f, t);
  }

  /** The parts of a number with a point. */
  lemma PointedIn(n: string) returns (sign: string, a: string, f: string)
    requires Pointed(WithoutSign(n))
    ensures (sign == "" || sign == "-") && Decimals(a) && Decimals(f) && n == sign + (a + (['.'] + f))
  {
    hide Decimals;
    var d := WithoutSign(n);
    sign := if Starts(n, '-') then "-" else "";
    var k :| 0 <= k < |d| && d[k] == '.' && Decimals(d[..k]) && Decimals(d[k + 1..]);
    a, f := d[..k], d[k + 1..];
    assert d == a + (['.'] + f);
    assert n == sign + d;
  }

  lemma Associate(a: string, b: string, c: string, d: string, e: string)
    ensures a + (b + (c + d)) + e == a + (b + (c + (d + e)))
  {
  }

  lemma PointedTaken(sign: string, a: string, f: string, t: string)
    requires (sign == "" || sign == "-") && Decimals(a) && Decimals(f) && (t != "" ==> !Decimal(t[0]))
    ensures NumberLength(sign + (a + (['.'] + (f + t)))) == |sign| + |a| + 1 + |f|
    ensures '.' in sign + (a + (['.'] + f))
  {
    hide Span;
    var point := ['.'] + (f + t);
    var s := sign + (a + point);
    var whole := |sign| + |a|;
    PointedSlices(sign, a, f + t);
    DigitsSpan(a, point);
    DigitsSpan(f, t);
    assert (sign + (a + (['.'] + f)))[whole] == '.';
  }

  lemma PointedSlices(sign: string, a: string, more: string)
    requires (sign == "" || sign == "-") && Decimals(a)
    ensures var s := sign + (a + (['.'] + more));
            && (StartsWith(s, '-') <==> sign == "-")
            && s[|sign|..] == a + (['.'] + more)
            && s[|sign| + |a|..] == ['.'] + more
            && s[|sign| + |a| + 1..] == more
  {
    var point := ['.'] + more;
    var s := sign + (a + point);
    Cut(s, sign, a + point);
    assert s == (sign + a) + point;
    Cut(s, sign + a, point);
    assert s == (sign + a + ['.']) + more;
    Cut(s, sign + a + ['.'], more);
    assert s[|sign|..][0] == a[0];
  }

  lemma NumberParts(s: string)
    requires NumberLength(s) > 0
    ensures var n := NumberLength(s);
            && (n < |s| ==> !Decimal(s[n]))
            && (if '.' in s[..n] then Pointed(WithoutSign(s[..n]))
                else Decimals(WithoutSign(s[..n])) && !(n + 1 < |s| && s[n] == '.' && Decimal(s[n + 1])))
  {
    hide Span, Decimals, Pointed, WithoutSign;
    var sign := if StartsWith(s, '-') then 1 else 0;
    var digits := Span(IsDigit, s[sign..]);
    if NumberLength(s) > sign + digits {
      PointedParts(s, sign, digits);
    } else {
      IntegerParts(s, sign, digits);
    }
  }

  lemma IntegerParts(s: string, sign: nat, digits: nat)
    requires sign == (if StartsWith(s, '-') then 1 else 0) && digits == Span(IsDigit, s[sign..]) && digits > 0
    requires !(StartsWith(s[sign + digits..], '.') && Span(IsDigit, s[sign + digits + 1..]) > 0)
    ensures var n := sign + digits;
            && (n < |s| ==> !Decimal(s[n])) && '.' !in s[..n] && Decimals(WithoutSign(s[..n]))
            && !(n + 1 < |s| && s[n] == '.' && Decimal(s[n + 1]))
  {
    hide Span;
    var a, n := s[sign..], sign + digits;
    SpanIs(IsDigit, a);
    assert WithoutSign(s[..n]) == a[..digits];
    assert forall i :: sign <= i < n ==> s[i] == a[i - sign];
    assert n < |s| ==> s[n] == a[digits];
    if n < |s| && s[n] == '.' {
      SpanIs(IsDigit, s[n + 1..]);
    }
  }

  lemma PointedParts(s: string, sign: nat, digits: nat)
    requires sign == (if StartsWith(s, '-') then 1 else 0) && digits == Span(IsDigit, s[sign..])
    requires digits > 0 && StartsWith(s[sign + digits..], '.') && Span(IsDigit, s[sign + digits + 1..]) > 0
    ensures var n := sign + digits + 1 + Span(IsDigit, s[sign + digits + 1..]);
            (n < |s| ==> !Decimal(s[n])) && '.' in s[..n] && Pointed(WithoutSign(s[..n]))
  {
    hide Span, Decimals, Decimal;
    var a, g := s[sign..], s[sign + digits + 1..];
    var f := Span(IsDigit, g);
    var n := sign + digits + 1 + f;
    SpanDigits(a);
    SpanDigits(g);
    assert n < |s| ==> s[n] == g[f];
    var d := WithoutSign(s[..n]);
    assert d == s[sign..n];
    assert d[..digits] == a[..digits] && d[digits + 1..] == g[..f];
    assert s[..n][sign + digits] == '.';
    assert 0 <= digits < |d| && d[digits] == '.' && Decimals(d[..digits]) && Decimals(d[digits + 1..]);
  }

  lemma SpanDigits(s: string)
    ensures var n := Span(IsDigit, s); (n > 0 ==> Decimals(s[..n])) && (n < |s| ==> !Decimal(s[n]))
  {
    hide Span;
    SpanIs(IsDigit, s);
  }

  lemma NumberExact(s: string, v: AvnValue, t: string)
    ensures Number(s) == Ok(v, t) <==> NumberRead(s, v, t)
  {
    hide NumberLength, Pointed, Decimals;
    if Number(s) == Ok(v, t) {
      NumberParts(s);
      Whole(s, NumberLength(s));
    }
    if NumberRead(s, v, t) {
      match v
      case Integer(n) =>
        IntegerTaken(n, t);
        Cut(s, n, t);
        SomeDecimals(n);
      case Real(n) =>
        RealTaken(n, t);
        Cut(s, n, t);
    }
  }

  lemma SomeDecimals(n: string)
    requires Decimals(WithoutSign(n))
    ensures n != ""
  {
  }

  // ----- The parser's values -----

  lemma MeaningIs(id: string)
    ensures Word(id) == Meaning(id, false) && ItemWord(id) == Meaning(id, true)
  {
  }

  lemma {:induction false} WordExact(id: string, s: string, v: AvnValue, t: string, depth: nat)
    ensures WordRead(id, s, v, t, depth) <==>
            var u := SkipSpace(s);
            if StartsWith(u, ':') then InChoice(id, ParseValue(u[1..], depth + 1)) == Ok(v, t) else v == Word(id) && t == s
    decreases |s|, 4
  {
    hide ParseValue, ValueRead, SkipSpace, Skips;
    MeaningIs(id);
    var u := SkipSpace(s);
    SkipsExact(s, u);
    if StartsWith(u, ':') && v.Choice? {
      ValueExact(u[1..], v.value, t, depth + 1);
    }
    if w: string :|
      Skips(s, w) &&
      if Starts(w, ':') then v.Choice? && v.identifier == id && ValueRead(w[1..], v.value, t, depth + 1)
      else v == Meaning(id, false) && t == s
    {
      SkipsExact(s, w);
    }
  }

  lemma {:induction false} NamedExact(id: string, s: string, item: BraceItem, t: string, depth: nat)
    ensures NamedRead(id, s, item, t, depth) <==>
            var u := SkipSpace(s);
            if StartsWith(u, ':') then AsBare(InChoice(id, ParseValue(u[1..], depth))) == Ok(item, t)
            else if StartsWith(u, ',') || StartsWith(u, '}') then item == Bare(ItemWord(id)) && t == s
            else AsNamed(id, ParseValue(u, depth)) == Ok(item, t)
    decreases |s|, 4
  {
    hide ParseValue, ValueRead, SkipSpace, Skips;
    MeaningIs(id);
    var u := SkipSpace(s);
    SkipsExact(s, u);
    Shortened(s);
    if StartsWith(u, ':') {
      if item.Bare? && item.bare.Choice? {
        ValueExact(u[1..], item.bare.value, t, depth);
      }
    } else if item.Named? {
      ValueExact(u, item.named, t, depth);
    }
    forall w: string | Skips(s, w)
      ensures w == u
    {
      SkipsExact(s, w);
    }
  }

  lemma Shortened(s: string)
    ensures |SkipSpace(s)| <= |s|
  {
  }

  lemma {:induction false} ItemExact(s: string, item: BraceItem, t: string, depth: nat)
    ensures ParseItem(s, depth) == Ok(item, t) <==> ItemRead(s, item, t, depth)
    decreases |s|, 5
  {
    hide ParseValue, ValueRead, SkipSpace, NameRead, NamedRead;
    var n := IdLength(s);
    NameLetter(s);
    if n == 0 {
      if item.Bare? {
        ValueExact(s, item.bare, t, depth);
      }
    } else {
      NameExact(s, s[..n], s[n..]);
      NamedExact(s[..n], s[n..], item, t, depth);
      forall id: string, r: string | NameRead(s, id, r)
        ensures id == s[..n] && r == s[n..]
      {
        NameExact(s, id, r);
      }
    }
  }

  lemma NameLetter(s: string)
    ensures IdLength(s) > 0 <==> s != "" && Letter(s[0])
  {
  }

  lemma {:induction false} MoreExact(s: string, items: seq<BraceItem>, k: nat, t: string, depth: nat)
    requires 0 < k <= |items|
    ensures MoreRead(s, items, k, t, depth) <==>
            var u := SkipSpace(s);
            if StartsWith(u, '}') then k == |items| && t == u[1..]
            else if StartsWith(u, ',') then ParseItems(u[1..], depth, items[..k]) == Ok(items, t)
            else u != "" && (IsDigit(u[0]) || u[0] == '-') && AllIntegers(items[..k]) && ParseItems(u, depth, items[..k]) == Ok(items, t)
    decreases |s|, 8
  {
    hide ParseItems, ItemsRead, SkipSpace, Skips;
    var u := SkipSpace(s);
    SkipsExact(s, u);
    Shortened(s);
    assert AllIntegers(items[..k]) <==> forall i :: 0 <= i < k ==> items[i].Bare? && items[i].bare.Integer? by {
      assert forall i :: 0 <= i < k ==> items[..k][i] == items[i];
    }
    if StartsWith(u, ',') {
      ItemsExact(u[1..], items, k, t, depth);
    } else if !StartsWith(u, '}') {
      ItemsExact(u, items, k, t, depth);
    }
    forall w: string | Skips(s, w)
      ensures w == u
    {
      SkipsExact(s, w);
    }
  }

  /** What the parser makes of a list keeps the items read before. */
  lemma {:induction false} ItemsKept(s: string, depth: nat, before: seq<BraceItem>)
    requires ParseItems(s, depth, before).Ok?
    ensures var all := ParseItems(s, depth, before).value; |before| < |all| && all[..|before|] == before
    decreases |s|
  {
    hide ParseItem, SkipSpace;
    var item := ParseItem(SkipSpace(s), depth);
    var more := before + [item.value];
    var u := SkipSpace(item.rest);
    Shortened(s);
    Shortened(item.rest);
    ItemShorter(SkipSpace(s), depth);
    assert more[..|before|] == before;
    if !StartsWith(u, '}') {
      if StartsWith(u, ',') {
        ItemsKept(u[1..], depth, more);
      } else {
        ItemsKept(u, depth, more);
      }
      var all := ParseItems(s, depth, before).value;
      assert all[..|before|] == all[..|more|][..|before|];
    }
  }

  lemma ItemShorter(s: string, depth: nat)
    requires ParseItem(s, depth).Ok?
    ensures |ParseItem(s, depth).rest| < |s|
  {
  }

  lemma {:induction false} ItemsExact(s: string, items: seq<BraceItem>, k: nat, t: string, depth: nat)
    requires k <= |items|
    ensures ParseItems(s, depth, items[..k]) == Ok(items, t) <==> ItemsRead(s, items, k, t, depth)
    decreases |s|, 7
  {
    hide ParseItem, ItemRead, MoreRead, SkipSpace, Skips;
    var u := SkipSpace(s);
    SkipsExact(s, u);
    Shortened(s);
    if ParseItems(s, depth, items[..k]) == Ok(items, t) {
      ItemsForward(s, items, k, t, depth);
    }
    if ItemsRead(s, items, k, t, depth) {
      var r := ItemsPart(s, items, k, t, depth);
      ItemExact(u, items[k], r, depth);
      MoreExact(r, items, k + 1, t, depth);
      assert items[..k] + [items[k]] == items[..k + 1];
      assert k + 1 == |items| ==> items[..k + 1] == items;
    }
  }

  lemma {:induction false} ItemsPart(s: string, items: seq<BraceItem>, k: nat, t: string, depth: nat) returns (r: string)
    requires k <= |items| && ItemsRead(s, items, k, t, depth)
    ensures k < |items| && |r| < |s| && ItemRead(SkipSpace(s), items[k], r, depth) && MoreRead(r, items, k + 1, t, depth)
  {
    var u: string, r': string :| Skips(s, u) && |r'| < |s| && ItemRead(u, items[k], r', depth) && MoreRead(r', items, k + 1, t, depth);
    SkipsExact(s, u);
    r := r';
  }

  lemma {:induction false} ItemsForward(s: string, items: seq<BraceItem>, k: nat, t: string, depth: nat)
    requires k <= |items| && ParseItems(s, depth, items[..k]) == Ok(items, t)
    ensures ItemsRead(s, items, k, t, depth)
    decreases |s|, 6
  {
    hide ParseItem, ItemRead, MoreRead, SkipSpace, Skips;
    var u := SkipSpace(s);
    SkipsExact(s, u);
    Shortened(s);
    var item := ParseItem(u, depth);
    ItemShorter(u, depth);
    ItemsKept(s, depth, items[..k]);
    ItemIsNext(s, items, k, t, depth);
    ItemExact(u, items[k], item.rest, depth);
    assert items[..k] + [items[k]] == items[..k + 1];
    MoreExact(item.rest, items, k + 1, t, depth);
  }

  /** The next item is the one that is read. */
  lemma {:induction false} ItemIsNext(s: string, items: seq<BraceItem>, k: nat, t: string, depth: nat)
    requires k < |items| && ParseItems(s, depth, items[..k]) == Ok(items, t)
    ensures ParseItem(SkipSpace(s), depth).value == items[k]
  {
    hide ParseItem, SkipSpace;
    var item := ParseItem(SkipSpace(s), depth);
    var more := items[..k] + [item.value];
    var u := SkipSpace(item.rest);
    Shortened(item.rest);
    if !StartsWith(u, '}') {
      if StartsWith(u, ',') {
        ItemsKept(u[1..], depth, more);
      } else {
        ItemsKept(u, depth, more);
      }
      assert items[..|more|][k] == more[k];
    }
    assert more[k] == item.value;
  }

  lemma BuiltExact(items: seq<BraceItem>, v: AvnValue, t: string)
    requires items != []
    ensures Assemble(items, t) == Ok(v, t) <==> Built(items, v)
  {
    assert HasNamed(items) || HasBare(items) by {
      assert items[0].Named? || items[0].Bare?;
    }
    if v.Sequence? && !HasBare(items) {
      assert v.fields == Entries(items) <==>
             |v.fields| == |items| && forall i :: 0 <= i < |items| ==> v.fields[i] == Entries(items)[i];
    }
    if v.SequenceOf? && !HasNamed(items) {
      assert v.items == Elements(items) <==>
             |v.items| == |items| && forall i :: 0 <= i < |items| ==> v.items[i] == Elements(items)[i];
    }
  }

  lemma {:induction false} ListExact(s: string, v: AvnValue, t: string, depth: nat)
    ensures ParseBrace(s, depth) == Ok(v, t) <==> ListRead(s, v, t, depth)
    decreases |s|, 1
  {
    hide ParseItems, ItemsRead, SkipSpace, Skips, Built, Assemble;
    if StartsWith(s, '{') {
      var u := SkipSpace(s[1..]);
      SkipsExact(s[1..], u);
      Shortened(s[1..]);
      forall w: string | Skips(s[1..], w)
        ensures w == u
      {
        SkipsExact(s[1..], w);
      }
      if !StartsWith(u, '}') {
        var all := ParseItems(u, depth, []);
        if all.Ok? {
          assert all.value[..0] == [];
          ItemsExact(u, all.value, 0, all.rest, depth);
          ItemsKept(u, depth, []);
          BuiltExact(all.value, v, all.rest);
        }
        forall items: seq<BraceItem> | ItemsRead(u, items, 0, t, depth)
          ensures all == Ok(items, t)
        {
          assert items[..0] == [];
          ItemsExact(u, items, 0, t, depth);
        }
      }
    }
  }

  /** Each kind of value starts in a way of its own. */
  lemma Heads(s: string, depth: nat)
    ensures !StartsWith(s, '\'') ==> HexOrBin(s) == Err(Syntax)
    ensures !StartsWith(s, '"') ==> QuotedString(s) == Err(Syntax)
    ensures !(s != "" && (Decimal(s[0]) || s[0] == '-')) ==> Number(s) == Err(Syntax)
    ensures !StartsWith(s, '{') ==> ParseBrace(s, depth) == Err(Syntax)
    ensures !(s != "" && Letter(s[0])) ==> ParseWord(s, depth) == Err(Syntax)
    ensures HexOrBin(s).Err? ==> HexOrBin(s) == Err(Syntax)
    ensures QuotedString(s).Err? ==> QuotedString(s) == Err(Syntax)
    ensures Number(s).Err? ==> Number(s) == Err(Syntax)
  {
    hide HexBytes, Unquote;
    if s != "" {
      UnquoteSyntax(s[1..]);
    }
  }

  lemma {:induction false} UnquoteSyntax(s: string)
    ensures Unquote(s).Err? ==> Unquote(s) == Err(Syntax)
    decreases |s|
  {
    if s != "" {
      UnquoteSyntax(s[1..]);
      if |s| > 1 {
        UnquoteSyntax(s[2..]);
      }
    }
  }

  lemma {:induction false} FormExact(s: string, v: AvnValue, t: string, depth: nat)
    ensures OrElse(HexOrBin(s), OrElse(QuotedString(s), OrElse(Number(s), OrElse(ParseBrace(s, depth + 1), ParseWord(s, depth))))) == Ok(v, t)
            <==> FormRead(s, v, t, depth)
    decreases |s|, 2
  {
    hide HexOrBin, QuotedString, Number, ParseBrace, SkipSpace, DigitsRead, TextRead, NumberRead, ListRead, WordRead, NameRead;
    Heads(s, depth + 1);
    Heads(s, depth);
    DigitsExact(s, v, t);
    TextExact(s, v, t);
    NumberExact(s, v, t);
    ListExact(s, v, t, depth + 1);
    NameLetter(s);
    var n := IdLength(s);
    if n > 0 {
      NameExact(s, s[..n], s[n..]);
      WordExact(s[..n], s[n..], v, t, depth);
    }
    forall id: string, r: string | NameRead(s, id, r)
      ensures n > 0 && id == s[..n] && r == s[n..]
    {
      NameExact(s, id, r);
    }
  }

  /**
   The parser reads exactly what the rules read: for every text, value, rest and depth, a value is parsed and a rest
   left if and only if the rules say so.
   */
  lemma {:induction false} ValueExact(s: string, v: AvnValue, t: string, depth: nat)
    ensures ParseValue(s, depth) == Ok(v, t) <==> ValueRead(s, v, t, depth)
    decreases |s|, 3
  {
    hide HexOrBin, QuotedString, Number, ParseBrace, ParseWord, SkipSpace, FormRead, Skips, OrElse;
    var u := SkipSpace(s);
    SkipsExact(s, u);
    Shortened(s);
    FormExact(u, v, t, depth);
    forall w: string | Skips(s, w)
      ensures w == u
    {
      SkipsExact(s, w);
    }
  }

  lemma TextDenotes(s: string, v: AvnValue)
    ensures ParseText(s) == Ok(v, "") <==> Denotes(s, v)
  {
    hide ParseValue, ValueRead;
    assert forall c: char :: White(c) == IsWhite(c);
    if ParseText(s) == Ok(v, "") {
      ValueExact(s, v, ParseValue(s, 0).rest, 0);
    }
    if t: string :| ValueRead(s, v, t, 0) && forall i :: 0 <= i < |t| ==> White(t[i]) {
      ValueExact(s, v, t, 0);
    }
  }

  // ----- Consequences -----

  /** An identifier is read whole: a letter and then letters, digits, hyphens and underscores. */
  lemma IdentifierWhole(s: string, tail: string)
    requires s != "" && ('A' <= s[0] <= 'Z' || 'a' <= s[0] <= 'z')
    requires forall i :: 0 <= i < |s| ==>
               'A' <= s[i] <= 'Z' || 'a' <= s[i] <= 'z' || '0' <= s[i] <= '9' || s[i] == '-' || s[i] == '_'
    requires tail != "" ==>
               !('A' <= tail[0] <= 'Z' || 'a' <= tail[0] <= 'z' || '0' <= tail[0] <= '9' || tail[0] == '-' || tail[0] == '_')
    ensures IdLength(s + tail) == |s|
  {
    NameExact(s + tail, s, tail);
    assert |(s + tail)[..IdLength(s + tail)]| == IdLength(s + tail);
  }

  /** These are the names that types and trees may have. */
  lemma IdentifierNames(s: string)
    ensures AvnText.IsIdentifier(s) <==>
            && s != "" && ('A' <= s[0] <= 'Z' || 'a' <= s[0] <= 'z')
            && forall i :: 0 <= i < |s| ==>
                 'A' <= s[i] <= 'Z' || 'a' <= s[i] <= 'z' || '0' <= s[i] <= '9' || s[i] == '-' || s[i] == '_'
  {
  }
}
