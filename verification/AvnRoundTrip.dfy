/** The text theorem: parsing the text of a tree, by structural induction on the tree. */
module AvnRoundTrip {
  import opened Common
  import opened Bits
  import opened Numerals
  import opened AvnTree
  import opened AvnParser
  import opened AvnText

  // ----- Leaves -----

  lemma WordValue(id: string, depth: nat, tail: string)
    requires IsIdentifier(id) && EndsWord(tail) && depth <= MAX_DEPTH
    ensures ParseValue(id + tail, depth) == Ok(Word(id), tail)
  {
    IdToken(id, tail);
    var s := id + tail;
    SkipNothing(s);
    assert s[0] == id[0];
    assert ParseWord(s, depth) == Ok(Word(id), tail);
  }

  /** Only the number alternative can read a text that starts with a digit or a minus sign. */
  lemma NumberAlternative(s: string, depth: nat)
    requires s != "" && (IsDigit(s[0]) || s[0] == '-') && depth <= MAX_DEPTH
    requires NumberLength(s) > 0
    ensures ParseValue(s, depth) == Number(s)
  {
    hide ParseBrace, ParseWord, NumberLength;
    SkipNothing(s);
  }

  lemma NumberValue(s: string, depth: nat, tail: string)
    requires IsNumber(s) && EndsNumber(s, tail) && depth <= MAX_DEPTH
    ensures ParseValue(s + tail, depth) == Ok(if '.' in s then Real(s) else Integer(s), tail)
  {
    hide ParseValue;
    NumberToken(s, tail);
    NumberHead(s);
    NumberAlternative(s + tail, depth);
  }

  lemma {:induction false} UnquoteDoubled(s: string, tail: string)
    requires !StartsWith(tail, '"')
    ensures Unquote(Doubled(s) + "\"" + tail) == Ok(s, tail)
  {
    hide Unquote;
    var t := Doubled(s) + "\"" + tail;
    if s == "" {
      assert t == "\"" + tail;
      UnquoteEnd(tail);
    } else {
      UnquoteDoubled(s[1..], tail);
      var rest := Doubled(s[1..]) + "\"" + tail;
      UnquoteStep(s[0], rest);
      assert t == (if s[0] == '"' then "\"\"" else [s[0]]) + rest;
      assert [s[0]] + s[1..] == s;
    }
  }

  lemma {:induction false} UnquoteEnd(tail: string)
    requires !StartsWith(tail, '"')
    ensures Unquote("\"" + tail) == Ok("", tail)
  {
    assert ("\"" + tail)[1..] == tail;
  }

  lemma {:induction false} UnquoteStep(c: char, rest: string)
    ensures Unquote((if c == '"' then "\"\"" else [c]) + rest) == Prepend(c, Unquote(rest))
  {
    if c == '"' {
      var t := "\"\"" + rest;
      assert t[2..] == rest && t[1..][0] == '"';
    } else {
      assert ([c] + rest)[1..] == rest;
    }
  }

  lemma StringValue(s: string, depth: nat, tail: string)
    requires depth <= MAX_DEPTH && !StartsWith(tail, '"')
    ensures ParseValue("\"" + Doubled(s) + "\"" + tail, depth) == Ok(CharString(s), tail)
  {
    var t := "\"" + Doubled(s) + "\"" + tail;
    UnquoteDoubled(s, tail);
    assert t[1..] == Doubled(s) + "\"" + tail;
    SkipNothing(t);
  }

  predicate PlainHex(s: string) {
    forall i :: 0 <= i < |s| ==> !IsWhite(s[i]) && IsUnquoted(s[i])
  }

  lemma {:induction false} DropNothing(s: string)
    requires PlainHex(s)
    ensures DropWhite(s) == s
  {
    if s != "" {
      DropNothing(s[1..]);
    }
  }

  /** The scan of a quoted bstring or hstring finds its contents and its suffix letter. */
  lemma QuotedToken(content: string, suffix: char, tail: string)
    requires PlainHex(content)
    ensures HexOrBin("'" + content + "'" + [suffix] + tail) == Interpret(content, suffix, tail)
  {
    hide Interpret;
    var s := "'" + content + "'" + [suffix] + tail;
    var after := "'" + [suffix] + tail;
    assert s[1..] == content + after;
    SpanToken(IsUnquoted, content, after);
    DropNothing(content);
    assert s[1..][|content|..] == after && s[1..][..|content|] == content;
    assert after[2..] == tail;
  }

  /** Only the first alternative can read a text that starts with an apostrophe. */
  lemma QuotedAlternative(s: string, depth: nat)
    requires StartsWith(s, '\'') && depth <= MAX_DEPTH && HexOrBin(s).Ok?
    ensures ParseValue(s, depth) == HexOrBin(s)
  {
    hide HexOrBin, QuotedString, Number, ParseBrace, ParseWord;
    SkipNothing(s);
  }

  lemma {:induction false} HexIsPlain(bytes: Bytes)
    ensures PlainHex(HexText(bytes))
  {
    if bytes != [] {
      HexIsPlain(bytes[1..]);
      var pair := [HexChar(bytes[0] / 16), HexChar(bytes[0] % 16)];
      assert HexText(bytes) == pair + HexText(bytes[1..]);
      assert PlainHex(pair);
    }
  }

  lemma HexValue(bytes: Bytes, depth: nat, tail: string)
    requires depth <= MAX_DEPTH
    ensures ParseValue("'" + HexText(bytes) + "'H" + tail, depth) == Ok(OctetString(bytes), tail)
  {
    hide ParseValue, HexOrBin, HexText;
    var s := "'" + HexText(bytes) + "'" + ['H'] + tail;
    assert s == "'" + HexText(bytes) + "'H" + tail;
    HexIsPlain(bytes);
    HexBytesText(bytes);
    QuotedToken(HexText(bytes), 'H', tail);
    QuotedAlternative(s, depth);
  }

  lemma BinaryValue(bits: seq<bool>, depth: nat, tail: string)
    requires depth <= MAX_DEPTH
    ensures ParseValue("'" + BitChars(bits) + "'B" + tail, depth) == Ok(BitString(PackBits(bits), |bits|), tail)
  {
    hide ParseValue, HexOrBin, PackBits;
    var content := BitChars(bits);
    var s := "'" + content + "'" + ['B'] + tail;
    assert s == "'" + content + "'B" + tail;
    assert BinaryDigits(content) == bits;
    QuotedToken(content, 'B', tail);
    QuotedAlternative(s, depth);
  }

  lemma BitsValue(bytes: Bytes, n: nat, depth: nat, tail: string)
    requires depth <= MAX_DEPTH && |bytes| == Octets(n)
    ensures ParseValue(PrintBits(bytes, n) + tail, depth) == Ok(NormValue(BitString(bytes, n)), tail)
  {
    hide ParseValue, ParseItem, ParseItems, ParseBrace, ParseWord;
    if n % 8 == 0 {
      HexValue(bytes, depth, tail);
      if n == 0 {
        assert "'" + HexText(bytes) + "'H" == "''H";
      }
    } else {
      BinaryValue(BitsOf(bytes, n), depth, tail);
    }
  }

  // ----- Braces -----

  /** The first character of a text is none that could end an item or a name. */
  lemma {:induction false} Head(v: AvnValue, indent: nat)
    requires WellFormed(v)
    ensures var s := Print(v, indent);
            s != "" && !IsSpace(s[0]) && s[0] != ':' && s[0] != ',' && s[0] != '}'
    ensures !IsWord(v) && !v.Choice? ==> !IsAlpha(Print(v, indent)[0])
  {
    hide IsNumber, NumberLength, PrintArcs, PrintBits, PrintFields, PrintItems, HexText, Doubled;
    BitsHead(v);
    if v.Integer? || v.Real? {
      if IsNumber(Print(v, indent)) {
        NumberHead(Print(v, indent));
      }
    }
  }

  lemma BitsHead(v: AvnValue)
    ensures v.BitString? ==> PrintBits(v.bytes, v.bitLength) != "" && PrintBits(v.bytes, v.bitLength)[0] == '\''
  {
    hide HexText;
  }

  /** What `ParseValue` makes of the text of `v` followed by `tail`. */
  function Outcome(v: AvnValue, depth: nat, tail: string): Parsed<AvnValue> {
    if Fits(v, depth) then Ok(NormValue(v), tail) else Err(TooDeep)
  }

  function ItemOutcome(v: AvnValue, depth: nat, tail: string): Parsed<BraceItem> {
    if ItemFits(v, depth) then Ok(Bare(NormItem(v)), tail) else Err(TooDeep)
  }

  function Bares(vs: seq<AvnValue>): (items: seq<BraceItem>)
    ensures |items| == |vs|
  {
    seq(|vs|, i requires 0 <= i < |vs| => Bare(vs[i]))
  }

  function Nameds(fs: seq<Entry>): (items: seq<BraceItem>)
    requires forall i :: 0 <= i < |fs| ==> fs[i].value.Some?
    ensures |items| == |fs|
  {
    seq(|fs|, i requires 0 <= i < |fs| && fs[i].value.Some? => Named(fs[i].name, fs[i].value.value))
  }

  lemma {:induction false} NormFieldsPresent(fields: seq<Entry>)
    ensures forall i :: 0 <= i < |NormFields(fields)| ==> NormFields(fields)[i].value.Some?
    ensures NormFields(fields) == [] <==> !AnyPresent(fields)
  {
    if fields != [] {
      NormFieldsPresent(fields[1..]);
      assert AnyPresent(fields) <==> fields[0].value.Some? || AnyPresent(fields[1..]);
    }
  }

  /** A text that starts with an opening brace is no string, number or word. */
  lemma NotBrace(s: string, depth: nat)
    requires StartsWith(s, '{')
    ensures HexOrBin(s) == Err(Syntax) && QuotedString(s) == Err(Syntax) && Number(s) == Err(Syntax)
    ensures ParseWord(s, depth) == Err(Syntax)
    ensures SkipSpace(s) == s
  {
    hide ParseValue;
    SkipNothing(s);
    assert NumberLength(s) == 0 && IdLength(s) == 0;
  }

  /** Only the brace alternative can read a text that starts with an opening brace. */
  lemma BraceAlternative(s: string, depth: nat)
    requires StartsWith(s, '{') && depth <= MAX_DEPTH
    ensures ParseValue(s, depth) == ParseBrace(s, depth + 1)
  {
    hide ParseBrace, ParseWord, HexOrBin, QuotedString, Number;
    NotBrace(s, depth);
  }

  /** A brace whose text after the opening mark is blank and then an item. */
  lemma BraceOpens(blank: string, body: string, depth: nat)
    requires Blank(blank)
    requires SkipSpace(body) != "" && SkipSpace(body)[0] != '}'
    ensures ParseBrace("{" + blank + body, depth) == Assembled(ParseItems(body, depth, []))
  {
    var s := "{" + blank + body;
    assert s[1..] == blank + body;
    SkipBlank(blank, body);
    SkipItems(body, depth, []);
  }

  lemma {:induction false} SkipItems(s: string, depth: nat, acc: seq<BraceItem>)
    ensures ParseItems(SkipSpace(s), depth, acc) == ParseItems(s, depth, acc)
  {
    hide SkipSpace, ParseItem;
    SkipTwice(s);
  }

  lemma EmptyBody(blank: string, depth: nat, tail: string)
    requires Blank(blank)
    ensures ParseBrace("{" + blank + "}" + tail, depth) == Ok(SequenceOf([]), tail)
  {
    var s := "{" + blank + "}" + tail;
    assert s[1..] == blank + ("}" + tail);
    SkipBlank(blank, "}" + tail);
    SkipNothing("}" + tail);
  }

  lemma EmptyBrace(blank: string, depth: nat, tail: string)
    requires Blank(blank) && depth <= MAX_DEPTH
    ensures ParseValue("{" + blank + "}" + tail, depth) == Ok(SequenceOf([]), tail)
  {
    hide ParseValue, ParseItem, ParseItems, ParseBrace, ParseWord;
    BraceAlternative("{" + blank + "}" + tail, depth);
    EmptyBody(blank, depth + 1, tail);
  }

  // One turn of the brace loop.

  lemma ItemsError(s: string, depth: nat, acc: seq<BraceItem>)
    requires ParseItem(SkipSpace(s), depth) == Err(TooDeep)
    ensures ParseItems(s, depth, acc) == Err(TooDeep)
  {
  }

  lemma ItemsLast(s: string, depth: nat, acc: seq<BraceItem>, item: BraceItem, rest: string, tail: string)
    requires ParseItem(SkipSpace(s), depth) == Ok(item, rest)
    requires SkipSpace(rest) == "}" + tail
    ensures ParseItems(s, depth, acc) == Ok(acc + [item], tail)
  {
  }

  lemma ItemsComma(s: string, depth: nat, acc: seq<BraceItem>, item: BraceItem, rest: string, next: string)
    requires ParseItem(SkipSpace(s), depth) == Ok(item, rest)
    requires SkipSpace(rest) == "," + next
    ensures ParseItems(s, depth, acc) == ParseItems(next, depth, acc + [item])
  {
  }

  lemma {:induction false} ItemsArc(s: string, depth: nat, acc: seq<BraceItem>, item: BraceItem, rest: string)
    requires ParseItem(SkipSpace(s), depth) == Ok(item, rest)
    requires SkipSpace(rest) != "" && IsDigit(SkipSpace(rest)[0])
    requires AllIntegers(acc + [item])
    ensures ParseItems(s, depth, acc) == ParseItems(rest, depth, acc + [item])
  {
    hide ParseItem, SkipSpace;
    SkipItems(rest, depth, acc + [item]);
  }

  lemma {:induction false} ArcItem(arc: U32, depth: nat, after: string)
    requires StartsWith(after, ' ')
    ensures ParseItem(SkipSpace(" " + NatText(arc) + after), depth) ==
            if depth <= MAX_DEPTH then Ok(Bare(Integer(NatText(arc))), after) else Err(TooDeep)
  {
    hide ParseItem, ParseValue, SkipSpace, NatText, Number;
    var numeral := NatText(arc);
    NatHead(arc);
    assert " " + numeral + after == " " + (numeral + after);
    SkipBlank(" ", numeral + after);
    SkipNothing(numeral + after);
    BareItem(numeral + after, depth);
    NumeralValue(arc, depth, after);
  }

  lemma NatHead(n: nat)
    ensures NatText(n) != "" && IsDigit(NatText(n)[0]) && !IsAlpha(NatText(n)[0]) && !IsSpace(NatText(n)[0])
  {
  }

  lemma {:induction false} NumeralValue(arc: U32, depth: nat, after: string)
    requires StartsWith(after, ' ')
    ensures ParseValue(NatText(arc) + after, depth) ==
            if depth <= MAX_DEPTH then Ok(Integer(NatText(arc)), after) else Err(TooDeep)
  {
    hide NatText, Number, NumberLength, ParseBrace, ParseWord, HexOrBin, QuotedString;
    IntTextIsNumber(arc);
    if depth <= MAX_DEPTH {
      NumberValue(NatText(arc), depth, after);
    }
  }

  /** One arc, and either the closing brace or the next arc without a comma. */
  lemma ArcTurn(arcs: seq<U32>, depth: nat, acc: seq<BraceItem>, tail: string)
    requires arcs != [] && AllIntegers(acc) && depth <= MAX_DEPTH
    ensures ParseItems(PrintArcs(arcs) + " }" + tail, depth, acc) ==
            var all := acc + [Bare(Integer(NatText(arcs[0])))];
            if |arcs| == 1 then Ok(all, tail) else ParseItems(PrintArcs(arcs[1..]) + " }" + tail, depth, all)
  {
    hide ParseValue, ParseItem, ParseItems, ParseBrace, ParseWord;
    var after := PrintArcs(arcs[1..]) + " }" + tail;
    var s := PrintArcs(arcs) + " }" + tail;
    assert s == " " + NatText(arcs[0]) + after;
    ArcItem(arcs[0], depth, after);
    var item := Bare(Integer(NatText(arcs[0])));
    if |arcs| == 1 {
      assert after == " " + ("}" + tail);
      SkipBlank(" ", "}" + tail);
      SkipNothing("}" + tail);
      ItemsLast(s, depth, acc, item, after, tail);
    } else {
      ArcHead(arcs[1..], tail);
      ItemsArc(s, depth, acc, item, after);
    }
  }

  lemma ArcTooDeep(arcs: seq<U32>, depth: nat, acc: seq<BraceItem>, tail: string)
    requires arcs != [] && depth > MAX_DEPTH
    ensures ParseItems(PrintArcs(arcs) + " }" + tail, depth, acc) == Err(TooDeep)
  {
    hide ParseValue, ParseItem;
    var after := PrintArcs(arcs[1..]) + " }" + tail;
    assert PrintArcs(arcs) + " }" + tail == " " + NatText(arcs[0]) + after;
    ArcItem(arcs[0], depth, after);
  }

  /** The text of an object identifier's arcs, read as integers without commas. */
  lemma {:induction false} ArcItems(arcs: seq<U32>, depth: nat, acc: seq<BraceItem>, tail: string)
    requires arcs != [] && AllIntegers(acc) && depth <= MAX_DEPTH
    ensures ParseItems(PrintArcs(arcs) + " }" + tail, depth, acc) == Ok(acc + Bares(ArcValues(arcs)), tail)
    decreases |arcs|
  {
    hide ParseValue, ParseItem, ParseItems, ParseBrace, ParseWord, NatText;
    ArcTurn(arcs, depth, acc, tail);
    var all := acc + [Bare(Integer(NatText(arcs[0])))];
    assert acc + Bares(ArcValues(arcs)) == all + Bares(ArcValues(arcs[1..]));
    if |arcs| == 1 {
      assert all + Bares(ArcValues(arcs[1..])) == all;
    } else {
      ArcItems(arcs[1..], depth, all, tail);
    }
  }

  lemma {:induction false} ArcHead(arcs: seq<U32>, tail: string)
    requires arcs != []
    ensures var s := SkipSpace(PrintArcs(arcs) + " }" + tail);
            s != "" && IsDigit(s[0])
  {
    hide NatText, SkipSpace;
    NatHead(arcs[0]);
    var rest := NatText(arcs[0]) + PrintArcs(arcs[1..]) + " }" + tail;
    assert rest[0] == NatText(arcs[0])[0];
    assert PrintArcs(arcs) + " }" + tail == " " + rest;
    SkipBlank(" ", rest);
    SkipNothing(rest);
  }

  lemma OidValue(arcs: seq<U32>, depth: nat, tail: string)
    requires depth <= MAX_DEPTH
    ensures ParseValue("{" + PrintArcs(arcs) + " }" + tail, depth) == Outcome(Oid(arcs), depth, tail)
  {
    hide ParseValue, ParseItem, ParseItems, ParseBrace, ParseWord, NatText;
    if arcs == [] {
      assert "{" + PrintArcs(arcs) + " }" + tail == "{" + " " + "}" + tail;
      EmptyBrace(" ", depth, tail);
    } else {
      var body := PrintArcs(arcs) + " }" + tail;
      var s := "{" + PrintArcs(arcs) + " }" + tail;
      assert s == "{" + "" + body;
      ArcHead(arcs, tail);
      BraceAlternative(s, depth);
      BraceOpens("", body, depth + 1);
      if depth + 1 <= MAX_DEPTH {
        ArcItems(arcs, depth + 1, [], tail);
      } else {
        ArcTooDeep(arcs, depth + 1, [], tail);
      }
      AssembleBares(ArcValues(arcs), tail);
      assert [] + Bares(ArcValues(arcs)) == Bares(ArcValues(arcs));
    }
  }

  lemma AssembleBares(vs: seq<AvnValue>, rest: string)
    ensures Assemble(Bares(vs), rest) == Ok(SequenceOf(vs), rest)
  {
    assert Elements(Bares(vs)) == vs;
  }

  lemma AssembleNameds(fs: seq<Entry>, rest: string)
    requires fs != [] && forall i :: 0 <= i < |fs| ==> fs[i].value.Some?
    ensures Assemble(Nameds(fs), rest) == Ok(Sequence(fs), rest)
  {
    assert Nameds(fs)[0].Named?;
    assert Entries(Nameds(fs)) == fs;
  }

  // ----- The induction -----

  /** The text between the opening brace line of a SEQUENCE OF and what follows the value. */
  function ItemsBody(items: seq<AvnValue>, indent: nat, outer: nat, tail: string): string {
    PrintItems(items, indent) + Spaces(2 * outer) + "}" + tail
  }

  function FieldsBody(fields: seq<Entry>, indent: nat, outer: nat, tail: string): string {
    PrintFields(fields, indent) + Spaces(2 * outer) + "}" + tail
  }

  /** What stands after an item: its line ending and the rest of the body. */
  lemma Separator(more: bool, outer: nat, tail: string, next: string)
    requires !more ==> next == Spaces(2 * outer) + "}" + tail
    ensures var after := Ending(more) + next;
            && Closes(after)
            && SkipSpace(after) == if more then "," + ("\n" + next) else "}" + tail
  {
    var after := Ending(more) + next;
    if more {
      assert after == "," + ("\n" + next);
      SkipNothing(after);
    } else {
      assert after == ("\n" + Spaces(2 * outer)) + ("}" + tail);
      SkipBlank("\n" + Spaces(2 * outer), "}" + tail);
      SkipNothing("}" + tail);
    }
  }

  lemma ItemsNext(next: string, depth: nat, acc: seq<BraceItem>)
    ensures ParseItems("\n" + next, depth, acc) == ParseItems(next, depth, acc)
  {
    hide ParseItem, ParseValue;
    SkipBlank("\n", next);
  }

  /** One turn of the brace loop over an item that stands after `blank` and before its line ending. */
  lemma ItemTurn(blank: string, text: string, more: bool, next: string, outer: nat, tail: string,
                 depth: nat, acc: seq<BraceItem>, item: Option<BraceItem>)
    requires Blank(blank) && text != "" && !IsSpace(text[0])
    requires !more ==> next == Spaces(2 * outer) + "}" + tail
    requires ParseItem(text + (Ending(more) + next), depth) ==
             if item.Some? then Ok(item.value, Ending(more) + next) else Err(TooDeep)
    ensures ParseItems(blank + (text + (Ending(more) + next)), depth, acc) ==
            if item.None? then Err(TooDeep)
            else if more then ParseItems(next, depth, acc + [item.value])
            else Ok(acc + [item.value], tail)
  {
    hide ParseItem, ParseItems, Closes;
    var after := Ending(more) + next;
    var s := blank + (text + after);
    SkipBlank(blank, text + after);
    SkipNothing(text + after);
    Separator(more, outer, tail, next);
    if item.None? {
      ItemsError(s, depth, acc);
    } else if more {
      ItemsComma(s, depth, acc, item.value, after, "\n" + next);
      ItemsNext(next, depth, acc + [item.value]);
    } else {
      ItemsLast(s, depth, acc, item.value, after, tail);
    }
  }

  lemma WordItem(id: string, depth: nat, tail: string)
    requires IsIdentifier(id) && Closes(tail)
    ensures ParseItem(id + tail, depth) == Ok(Bare(ItemWord(id)), tail)
  {
    hide ParseValue;
    IdToken(id, tail);
  }

  lemma ChoiceItem(id: string, inner: string, depth: nat)
    requires IsIdentifier(id)
    ensures ParseItem(id + " : " + inner, depth) ==
            AsBare(InChoice(id, ParseValue(inner, depth)))
  {
    hide ParseValue;
    ColonAfter(id, inner);
    SkipToInner(inner, depth);
  }

  lemma ColonAfter(id: string, inner: string)
    requires IsIdentifier(id)
    ensures var s := id + " : " + inner;
            && IdLength(s) == |id| && s[..|id|] == id
            && SkipSpace(s[|id|..]) == ": " + inner
  {
    var after := " : " + inner;
    assert id + " : " + inner == id + after;
    IdToken(id, after);
    assert after == " " + (": " + inner);
    SkipBlank(" ", ": " + inner);
    SkipNothing(": " + inner);
  }

  lemma SkipToInner(inner: string, depth: nat)
    ensures ParseValue((": " + inner)[1..], depth) == ParseValue(inner, depth)
  {
    hide ParseBrace, ParseWord;
    assert (": " + inner)[1..] == " " + inner;
    SkipBlank(" ", inner);
  }

  lemma ChoiceValue(id: string, inner: string, depth: nat)
    requires IsIdentifier(id) && depth <= MAX_DEPTH
    ensures ParseValue(id + " : " + inner, depth) ==
            InChoice(id, ParseValue(inner, depth + 1))
  {
    var s := id + " : " + inner;
    assert s[0] == id[0];
    WordAlternative(s, depth);
    ChoiceWord(id, inner, depth);
  }

  lemma ChoiceWord(id: string, inner: string, depth: nat)
    requires IsIdentifier(id)
    ensures ParseWord(id + " : " + inner, depth) ==
            InChoice(id, ParseValue(inner, depth + 1))
  {
    hide ParseValue;
    ColonAfter(id, inner);
    SkipToInner(inner, depth + 1);
  }

  /** A text that starts with a letter is no string, number or brace. */
  lemma {:induction false} NotWord(s: string, depth: nat)
    requires s != "" && IsAlpha(s[0])
    ensures HexOrBin(s) == Err(Syntax) && QuotedString(s) == Err(Syntax) && Number(s) == Err(Syntax)
    ensures ParseBrace(s, depth) == Err(Syntax)
    ensures SkipSpace(s) == s
  {
    hide HexOrBin, QuotedString, Number, ParseBrace, SkipSpace;
    SkipNothing(s);
    NoQuote(s);
    NoNumber(s);
    NoBrace(s, depth);
  }

  lemma {:induction false} NoQuote(s: string)
    requires !StartsWith(s, '\'') && !StartsWith(s, '"')
    ensures HexOrBin(s) == Err(Syntax) && QuotedString(s) == Err(Syntax)
  {
  }

  lemma {:induction false} NoNumber(s: string)
    requires s != "" && IsAlpha(s[0])
    ensures Number(s) == Err(Syntax)
  {
    assert s[0..] == s;
    assert Span(IsDigit, s) == 0;
    assert NumberLength(s) == 0;
  }

  lemma {:induction false} NoBrace(s: string, depth: nat)
    requires !StartsWith(s, '{')
    ensures ParseBrace(s, depth) == Err(Syntax)
  {
    hide ParseItems;
  }

  /** Only the identifier alternative can read a text that starts with a letter. */
  lemma WordAlternative(s: string, depth: nat)
    requires s != "" && IsAlpha(s[0]) && depth <= MAX_DEPTH
    ensures ParseValue(s, depth) == ParseWord(s, depth)
  {
    hide ParseBrace, ParseWord, HexOrBin, QuotedString, Number;
    NotWord(s, depth + 1);
  }

  lemma PrintWord(v: AvnValue, indent: nat)
    requires WellFormed(v) && IsWord(v)
    ensures Print(v, indent) == WordText(v) && IsIdentifier(WordText(v))
  {
    KeywordsAreIdentifiers();
  }

  lemma KeywordsAreIdentifiers()
    ensures IsIdentifier("TRUE") && IsIdentifier("FALSE") && IsIdentifier("NULL")
    ensures IsIdentifier("PLUS-INFINITY") && IsIdentifier("MINUS-INFINITY") && IsIdentifier("NOT-A-NUMBER")
  {
  }

  lemma {:induction false} ChoiceItemText(id: string, v: AvnValue, indent: nat, depth: nat, tail: string)
    requires IsIdentifier(id) && WellFormed(v) && Closes(tail)
    ensures ParseItem(Print(Choice(id, v), indent) + tail, depth) == ItemOutcome(Choice(id, v), depth, tail)
    decreases v, 2
  {
    hide ParseValue, ParseItem, Closes, Ends;
    var inner := Print(v, indent) + tail;
    assert Print(Choice(id, v), indent) + tail == id + " : " + inner;
    ChoiceItem(id, inner, depth);
    ClosesEnds(v, tail);
    ValueText(v, indent, depth, tail);
    assert NormItem(Choice(id, v)) == Choice(id, NormValue(v));
  }

  lemma {:induction false} ItemText(v: AvnValue, indent: nat, depth: nat, tail: string)
    requires WellFormed(v) && Closes(tail)
    ensures ParseItem(Print(v, indent) + tail, depth) == ItemOutcome(v, depth, tail)
    decreases v, 2
  {
    hide ParseValue, ParseItem, Print, Closes, Ends;
    if IsWord(v) {
      PrintWord(v, indent);
      WordItem(WordText(v), depth, tail);
    } else if v.Choice? {
      ChoiceItemText(v.identifier, v.value, indent, depth, tail);
    } else {
      Head(v, indent);
      ClosesEnds(v, tail);
      ValueText(v, indent, depth, tail);
      BareItem(Print(v, indent) + tail, depth);
    }
  }

  lemma BareItem(s: string, depth: nat)
    requires s != "" && !IsAlpha(s[0])
    ensures ParseItem(s, depth) == AsBare(ParseValue(s, depth))
  {
    hide ParseValue;
  }

  /** One printed item and what the brace loop does after it. */
  lemma {:induction false} ItemsTurn(items: seq<AvnValue>, indent: nat, outer: nat, depth: nat,
                                     acc: seq<BraceItem>, tail: string)
    requires items != [] && WellFormed(items[0])
    ensures ParseItems(ItemsBody(items, indent, outer, tail), depth, acc) ==
            if !ItemFits(items[0], depth) then Err(TooDeep)
            else
              var all := acc + [Bare(NormItem(items[0]))];
              if |items| == 1 then Ok(all, tail)
              else ParseItems(ItemsBody(items[1..], indent, outer, tail), depth, all)
    decreases items, 0
  {
    hide ParseValue, ParseItem, ParseItems, Print, NormItem, ItemFits, WellFormed, Closes, ItemsBody, SkipSpace, Ending;
    var v := items[0];
    var more := |items| > 1;
    var next := ItemsBody(items[1..], indent, outer, tail);
    var text := Print(v, indent);
    ItemsSplit(items, indent, outer, tail);
    Head(v, indent);
    Separator(more, outer, tail, next);
    ItemText(v, indent, depth, Ending(more) + next);
    ItemTurn(Spaces(2 * indent), text, more, next, outer, tail, depth, acc,
             if ItemFits(v, depth) then Some(Bare(NormItem(v))) else None);
  }

  lemma {:induction false} ItemsSplit(items: seq<AvnValue>, indent: nat, outer: nat, tail: string)
    requires items != []
    ensures ItemsBody(items, indent, outer, tail) ==
            Spaces(2 * indent) + (Print(items[0], indent) + (Ending(|items| > 1) + ItemsBody(items[1..], indent, outer, tail)))
    ensures |items| == 1 ==> ItemsBody(items[1..], indent, outer, tail) == Spaces(2 * outer) + "}" + tail
  {
    hide Print, Spaces, Ending;
  }

  lemma {:induction false} ItemsText(items: seq<AvnValue>, indent: nat, outer: nat, depth: nat,
                                     acc: seq<BraceItem>, tail: string)
    requires items != [] && forall i :: 0 <= i < |items| ==> WellFormed(items[i])
    ensures ParseItems(ItemsBody(items, indent, outer, tail), depth, acc) ==
            if forall i :: 0 <= i < |items| ==> ItemFits(items[i], depth)
            then Ok(acc + Bares(NormItems(items)), tail) else Err(TooDeep)
    decreases items, 1
  {
    hide ParseItems, ItemsBody, ItemFits, NormItem, WellFormed;
    ItemsTurn(items, indent, outer, depth, acc, tail);
    var all := acc + [Bare(NormItem(items[0]))];
    assert acc + Bares(NormItems(items)) == all + Bares(NormItems(items[1..]));
    assert forall i :: 1 <= i < |items| ==> items[1..][i - 1] == items[i];
    if |items| == 1 {
      assert all + Bares(NormItems(items[1..])) == all;
    } else if ItemFits(items[0], depth) {
      ItemsText(items[1..], indent, outer, depth, all, tail);
    }
  }

  lemma {:induction false} FieldText(name: string, v: AvnValue, indent: nat, depth: nat, tail: string)
    requires IsIdentifier(name) && WellFormed(v) && Closes(tail)
    ensures ParseItem(name + " " + Print(v, indent) + tail, depth) ==
            if Fits(v, depth) then Ok(Named(name, NormValue(v)), tail) else Err(TooDeep)
    decreases v, 2
  {
    hide ParseValue, ParseItem, ParseWord, ParseBrace, ParseItems;
    ClosesEnds(v, tail);
    Head(v, indent);
    ValueText(v, indent, depth, tail);
    NamedItem(name, Print(v, indent) + tail, depth);
    assert name + " " + Print(v, indent) + tail == name + " " + (Print(v, indent) + tail);
  }

  lemma NamedItem(name: string, text: string, depth: nat)
    requires IsIdentifier(name)
    requires text != "" && !IsSpace(text[0]) && text[0] != ':' && text[0] != ',' && text[0] != '}'
    ensures ParseItem(name + " " + text, depth) == AsNamed(name, ParseValue(text, depth))
  {
    hide ParseValue;
    assert name + " " + text == name + (" " + text);
    IdToken(name, " " + text);
    SkipBlank(" ", text);
    SkipNothing(text);
  }

  /** One printed field and what the brace loop does after it. */
  lemma {:induction false} FieldsTurn(fields: seq<Entry>, indent: nat, outer: nat, depth: nat,
                                      acc: seq<BraceItem>, tail: string)
    requires fields != [] && fields[0].value.Some?
    requires IsIdentifier(fields[0].name) && WellFormed(fields[0].value.value)
    ensures ParseItems(FieldsBody(fields, indent, outer, tail), depth, acc) ==
            if !Fits(fields[0].value.value, depth) then Err(TooDeep)
            else
              var all := acc + [Named(fields[0].name, NormValue(fields[0].value.value))];
              if AnyPresent(fields[1..]) then ParseItems(FieldsBody(fields[1..], indent, outer, tail), depth, all)
              else Ok(all, tail)
    decreases fields, 0
  {
    hide ParseValue, ParseItem, ParseItems, Print, NormValue, Fits, WellFormed, Closes;
    var name := fields[0].name;
    var v := fields[0].value.value;
    var more := AnyPresent(fields[1..]);
    var next := FieldsBody(fields[1..], indent, outer, tail);
    var text := name + " " + Print(v, indent);
    FieldsSplit(fields, indent, outer, tail);
    if !more {
      NothingPresent(fields[1..], indent);
      assert next == Spaces(2 * outer) + "}" + tail;
    }
    Separator(more, outer, tail, next);
    FieldText(name, v, indent, depth, Ending(more) + next);
    ItemTurn(Spaces(2 * indent), text, more, next, outer, tail, depth, acc,
             if Fits(v, depth) then Some(Named(name, NormValue(v))) else None);
  }

  lemma {:induction false} FieldsSplit(fields: seq<Entry>, indent: nat, outer: nat, tail: string)
    requires fields != [] && fields[0].value.Some?
    ensures FieldsBody(fields, indent, outer, tail) ==
            Spaces(2 * indent) + (fields[0].name + " " + Print(fields[0].value.value, indent) +
                                  (Ending(AnyPresent(fields[1..])) + FieldsBody(fields[1..], indent, outer, tail)))
  {
    hide Print, Spaces, AnyPresent, Ending;
    var line := fields[0].name + " " + Print(fields[0].value.value, indent);
    var end := Ending(AnyPresent(fields[1..]));
    var rest := PrintFields(fields[1..], indent);
    assert PrintFields(fields, indent) == Spaces(2 * indent) + line + end + rest;
  }

  predicate FieldsFit(fields: seq<Entry>, depth: nat) {
    forall i :: 0 <= i < |fields| && fields[i].value.Some? ==> Fits(fields[i].value.value, depth)
  }

  lemma {:induction false} FieldsText(fields: seq<Entry>, indent: nat, outer: nat, depth: nat,
                                      acc: seq<BraceItem>, tail: string)
    requires AnyPresent(fields) && WellFormed(Sequence(fields))
    requires forall i :: 0 <= i < |NormFields(fields)| ==> NormFields(fields)[i].value.Some?
    ensures ParseItems(FieldsBody(fields, indent, outer, tail), depth, acc) ==
            if FieldsFit(fields, depth) then Ok(acc + Nameds(NormFields(fields)), tail) else Err(TooDeep)
    decreases fields, 1
  {
    hide ParseItems, Fits, Print, NormValue, FieldsBody, WellFormed, NormFields, Nameds, FieldsFit, AnyPresent;
    FieldsParts(fields, depth);
    var rest := fields[1..];
    NormFieldsPresent(rest);
    if fields[0].value.None? {
      SkipAbsent(fields, indent, outer, tail);
      FieldsText(rest, indent, outer, depth, acc, tail);
    } else {
      var v := fields[0].value.value;
      FieldsTurn(fields, indent, outer, depth, acc, tail);
      var all := acc + [Named(fields[0].name, NormValue(v))];
      NamedsStep(fields, acc);
      if !AnyPresent(rest) {
        NothingNamed(rest, all, depth);
      } else if Fits(v, depth) {
        FieldsText(rest, indent, outer, depth, all, tail);
      }
    }
  }

  /** What holds of a list of fields holds of its first and its rest. */
  lemma {:induction false} FieldsParts(fields: seq<Entry>, depth: nat)
    requires AnyPresent(fields) && WellFormed(Sequence(fields))
    ensures fields != [] && WellFormed(Sequence(fields[1..])) && IsIdentifier(fields[0].name)
    ensures fields[0].value.Some? ==> WellFormed(fields[0].value.value)
    ensures fields[0].value.None? ==> AnyPresent(fields[1..])
    ensures FieldsFit(fields, depth) <==>
            (fields[0].value.Some? ==> Fits(fields[0].value.value, depth)) && FieldsFit(fields[1..], depth)
  {
    hide Fits, IsIdentifier;
    var rest := fields[1..];
    assert forall i :: 1 <= i < |fields| ==> rest[i - 1] == fields[i];
  }

  lemma {:induction false} SkipAbsent(fields: seq<Entry>, indent: nat, outer: nat, tail: string)
    requires fields != [] && fields[0].value.None?
    ensures FieldsBody(fields, indent, outer, tail) == FieldsBody(fields[1..], indent, outer, tail)
    ensures NormFields(fields) == NormFields(fields[1..])
  {
    hide Print;
  }

  lemma {:induction false} NamedsStep(fields: seq<Entry>, acc: seq<BraceItem>)
    requires fields != [] && fields[0].value.Some?
    requires forall i :: 0 <= i < |NormFields(fields)| ==> NormFields(fields)[i].value.Some?
    requires forall i :: 0 <= i < |NormFields(fields[1..])| ==> NormFields(fields[1..])[i].value.Some?
    ensures acc + Nameds(NormFields(fields)) ==
            acc + [Named(fields[0].name, NormValue(fields[0].value.value))] + Nameds(NormFields(fields[1..]))
  {
    hide NormValue;
  }

  lemma {:induction false} NothingNamed(fields: seq<Entry>, all: seq<BraceItem>, depth: nat)
    requires !AnyPresent(fields) && forall i :: 0 <= i < |NormFields(fields)| ==> NormFields(fields)[i].value.Some?
    ensures all + Nameds(NormFields(fields)) == all && FieldsFit(fields, depth)
  {
    NoFields(fields);
  }

  lemma {:induction false} NoFields(fields: seq<Entry>)
    requires !AnyPresent(fields)
    ensures NormFields(fields) == []
  {
    if fields != [] {
      assert forall i :: 1 <= i < |fields| ==> fields[1..][i - 1] == fields[i];
      NoFields(fields[1..]);
    }
  }

  lemma {:induction false} NothingPresent(fields: seq<Entry>, indent: nat)
    requires !AnyPresent(fields)
    ensures PrintFields(fields, indent) == ""
  {
    if fields != [] {
      assert forall i :: 1 <= i < |fields| ==> fields[1..][i - 1] == fields[i];
      NothingPresent(fields[1..], indent);
    }
  }

  /**
   The text theorem. At every indentation and every parse depth, and before every tail that does
   not extend its last token, the text of a well-formed tree parses to the tree's normal form and
   leaves the tail, exactly if the tree fits the depth limit; otherwise the parser reports `TooDeep`.
   */
  lemma {:induction false} ValueText(v: AvnValue, indent: nat, depth: nat, tail: string)
    requires WellFormed(v) && Ends(v, tail)
    ensures ParseValue(Print(v, indent) + tail, depth) == Outcome(v, depth, tail)
    decreases v, 1
  {
    hide ParseValue, NormValue, Ends, WellFormed;
    if depth > MAX_DEPTH {
      TooDeepValue(Print(v, indent) + tail, depth);
    } else {
      match v
      case Choice(id, inner) => ChoiceText(id, inner, indent, depth, tail);
      case SequenceOf(items) => SequenceOfText(items, indent, depth, tail);
      case Sequence(fields) => SequenceText(fields, indent, depth, tail);
      case _ =>
        if IsWord(v) {
          PrintWord(v, indent);
          WordOutcome(v, depth, tail);
        } else {
          LeafText(v, indent, depth, tail);
        }
    }
  }

  lemma {:induction false} ChoiceText(id: string, inner: AvnValue, indent: nat, depth: nat, tail: string)
    requires WellFormed(Choice(id, inner)) && Ends(Choice(id, inner), tail) && depth <= MAX_DEPTH
    ensures ParseValue(Print(Choice(id, inner), indent) + tail, depth) == Outcome(Choice(id, inner), depth, tail)
    decreases inner, 2
  {
    hide ParseValue, IsIdentifier;
    var text := Print(inner, indent) + tail;
    assert Print(Choice(id, inner), indent) + tail == id + " : " + text;
    ChoiceValue(id, text, depth);
    ValueText(inner, indent, depth + 1, tail);
    assert NormValue(Choice(id, inner)) == Choice(id, NormValue(inner));
  }

  /** The reading of a single word is the normal form of the value it was printed from. */
  lemma WordOutcome(v: AvnValue, depth: nat, tail: string)
    requires IsWord(v) && WellFormed(v) && Ends(v, tail) && depth <= MAX_DEPTH
    requires IsIdentifier(WordText(v))
    ensures ParseValue(WordText(v) + tail, depth) == Outcome(v, depth, tail)
  {
    hide ParseValue, IsIdentifier, EndsWord;
    WordValue(WordText(v), depth, tail);
  }

  lemma LeafText(v: AvnValue, indent: nat, depth: nat, tail: string)
    requires WellFormed(v) && Ends(v, tail) && depth <= MAX_DEPTH
    requires !IsWord(v) && !v.Choice? && !v.Sequence? && !v.SequenceOf?
    ensures ParseValue(Print(v, indent) + tail, depth) == Outcome(v, depth, tail)
  {
    hide ParseValue, IsNumber, EndsNumber;
    match v
    case Integer(s) => NumberValue(s, depth, tail);
    case Real(s) => NumberValue(s, depth, tail);
    case OctetString(bytes) => HexValue(bytes, depth, tail);
    case BitString(bytes, n) => BitsValue(bytes, n, depth, tail);
    case CharString(s) => StringValue(s, depth, tail);
    case Oid(arcs) => OidValue(arcs, depth, tail);
  }

  lemma TooDeepValue(s: string, depth: nat)
    requires depth > MAX_DEPTH
    ensures ParseValue(s, depth) == Err(TooDeep)
  {
  }

  lemma PrintBraces(v: AvnValue, indent: nat, tail: string)
    requires v.SequenceOf? || v.Sequence?
    ensures Print(v, indent) + tail ==
            if v.SequenceOf? && v.items != [] then "{\n" + ItemsBody(v.items, indent + 1, indent, tail)
            else if v.Sequence? && AnyPresent(v.fields) then "{\n" + FieldsBody(v.fields, indent + 1, indent, tail)
            else "{" + "" + "}" + tail
  {
    hide PrintItems, PrintFields;
  }

  lemma {:induction false} SequenceOfText(items: seq<AvnValue>, indent: nat, depth: nat, tail: string)
    requires WellFormed(SequenceOf(items)) && depth <= MAX_DEPTH
    ensures ParseValue(Print(SequenceOf(items), indent) + tail, depth) == Outcome(SequenceOf(items), depth, tail)
    decreases items, 2
  {
    hide ParseValue, ParseItems, Print, ItemsBody, SkipSpace, NormItem, ItemFits, Assemble;
    PrintBraces(SequenceOf(items), indent, tail);
    if items == [] {
      EmptyBrace("", depth, tail);
    } else {
      var body := ItemsBody(items, indent + 1, indent, tail);
      ItemsHead(items, indent + 1, indent, tail);
      ItemsText(items, indent + 1, indent, depth + 1, [], tail);
      BraceBody("{\n" + body, body, depth);
      assert [] + Bares(NormItems(items)) == Bares(NormItems(items));
      AssembleBares(NormItems(items), tail);
    }
  }

  /** A value printed over several lines is a brace around its body. */
  lemma BraceBody(s: string, body: string, depth: nat)
    requires s == "{\n" + body && depth <= MAX_DEPTH
    requires SkipSpace(body) != "" && SkipSpace(body)[0] != '}'
    ensures ParseValue(s, depth) == Assembled(ParseItems(body, depth + 1, []))
  {
    hide ParseValue, ParseItems, ParseBrace, SkipSpace;
    assert s == "{" + "\n" + body;
    BraceAlternative(s, depth);
    BraceOpens("\n", body, depth + 1);
  }

  lemma {:induction false} ItemsHead(items: seq<AvnValue>, indent: nat, outer: nat, tail: string)
    requires items != [] && WellFormed(items[0])
    ensures var s := SkipSpace(ItemsBody(items, indent, outer, tail));
            s != "" && s[0] != '}'
  {
    hide Print, SkipSpace, WellFormed, ItemsBody, Ending;
    Head(items[0], indent);
    ItemsSplit(items, indent, outer, tail);
    var text := Print(items[0], indent) + (Ending(|items| > 1) + ItemsBody(items[1..], indent, outer, tail));
    assert text[0] == Print(items[0], indent)[0];
    SkipBlank(Spaces(2 * indent), text);
    SkipNothing(text);
  }

  lemma PresentHead(fields: seq<Entry>, indent: nat, outer: nat, tail: string)
    requires fields != [] && fields[0].value.Some? && IsIdentifier(fields[0].name)
    ensures var s := SkipSpace(FieldsBody(fields, indent, outer, tail));
            s != "" && s[0] != '}'
  {
    hide Print, PrintFields, FieldsBody;
    FieldsSplit(fields, indent, outer, tail);
    var text := fields[0].name + " " + Print(fields[0].value.value, indent) +
    (Ending(AnyPresent(fields[1..])) + FieldsBody(fields[1..], indent, outer, tail));
    assert text[0] == fields[0].name[0];
    SkipBlank(Spaces(2 * indent), text);
    SkipNothing(text);
  }

  lemma {:induction false} FieldsHead(fields: seq<Entry>, indent: nat, outer: nat, tail: string)
    requires AnyPresent(fields) && forall i :: 0 <= i < |fields| ==> IsIdentifier(fields[i].name)
    ensures var s := SkipSpace(FieldsBody(fields, indent, outer, tail));
            s != "" && s[0] != '}'
    decreases |fields|
  {
    hide Print, SkipSpace, IsIdentifier;
    if fields[0].value.None? {
      assert forall i :: 1 <= i < |fields| ==> fields[1..][i - 1] == fields[i];
      FieldsHead(fields[1..], indent, outer, tail);
    } else {
      PresentHead(fields, indent, outer, tail);
    }
  }

  lemma {:induction false} SequenceText(fields: seq<Entry>, indent: nat, depth: nat, tail: string)
    requires WellFormed(Sequence(fields)) && depth <= MAX_DEPTH
    ensures ParseValue(Print(Sequence(fields), indent) + tail, depth) == Outcome(Sequence(fields), depth, tail)
    decreases fields, 2
  {
    hide ParseValue, ParseItems, Print, FieldsBody, SkipSpace, Assemble;
    PrintBraces(Sequence(fields), indent, tail);
    if !AnyPresent(fields) {
      EmptyBrace("", depth, tail);
      assert Fits(Sequence(fields), depth);
    } else {
      var body := FieldsBody(fields, indent + 1, indent, tail);
      var norm := NormFields(fields);
      FieldsHead(fields, indent + 1, indent, tail);
      NormFieldsPresent(fields);
      FieldsText(fields, indent + 1, indent, depth + 1, [], tail);
      BraceBody("{\n" + body, body, depth);
      assert [] + Nameds(norm) == Nameds(norm);
      AssembleNameds(norm, tail);
    }
  }

  lemma {:induction false} EndsNothing(v: AvnValue)
    ensures Ends(v, "")
  {
    SkipNothing("");
    if v.Choice? {
      EndsNothing(v.value);
    }
  }

  /** Parsing a whole printed text, at the depth the decoder starts from. */
  lemma {:induction false} PrintedText(v: AvnValue)
    requires WellFormed(v)
    ensures ParseText(Print(v, 0)) == if Fits(v, 0) then Ok(NormValue(v), "") else Err(TooDeep)
  {
    hide ParseValue, Print, NormValue, WellFormed, Fits, Ends;
    EndsNothing(v);
    ValueText(v, 0, 0, "");
    assert Print(v, 0) + "" == Print(v, 0);
  }
}
