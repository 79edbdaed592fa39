/** The text that the AVN printer writes, as rules stated without the printer. */
module AvnPrinting {
  import opened Common
  import opened Bits
  import opened Positional
  import opened Numerals
  import opened AvnTree
  import opened AvnGrammar

  /** 10 to the `k`. */
  function TenTo(k: nat): nat {
    if k == 0 then 1 else 10 * TenTo(k - 1)
  }

  /** The value of decimal digits by their positions. */
  function DecimalValue(s: string): nat
    requires forall i :: 0 <= i < |s| ==> Decimal(s[i])
  {
    if s == "" then 0
    else
      assert Decimal(s[0]);
      var digit: nat := s[0] as int - '0' as int;
      digit * TenTo(|s| - 1) + DecimalValue(s[1..])
  }

  /** Digits without a superfluous zero at the front. */
  predicate NumeralPrinted(n: nat, s: string) {
    Decimals(s) && DecimalValue(s) == n && (|s| > 1 ==> s[0] != '0')
  }

  predicate HexPrinted(octets: Bytes, s: string) {
    && |s| == 2 * |octets|
    && forall i :: 0 <= i < |octets| ==>
         s[2 * i] == "0123456789ABCDEF"[octets[i] / 16] && s[2 * i + 1] == "0123456789ABCDEF"[octets[i] % 16]
  }

  ghost predicate BitsPrinted(bytes: Bytes, n: nat, s: string) {
    if n == 0 then s == "''H"
    else if n % 8 == 0 then exists h: string :: HexPrinted(bytes, h) && s == "'" + h + "'H"
    else
      exists b: string ::
        && |b| == (if n < 8 * |bytes| then n else 8 * |bytes|)
        && (forall i :: 0 <= i < |b| ==> b[i] == if Bit(bytes, i) then '1' else '0')
        && s == "'" + b + "'B"
  }

  ghost predicate ArcsPrinted(arcs: seq<U32>, s: string) {
    if arcs == [] then s == ""
    else exists n: string, more: string :: NumeralPrinted(arcs[0], n) && ArcsPrinted(arcs[1..], more) && s == " " + n + more
  }

  /** Two spaces for each level. */
  predicate Margin(depth: nat, s: string) {
    |s| == 2 * depth && forall i :: 0 <= i < |s| ==> s[i] == ' '
  }

  predicate NonePresent(fields: seq<Entry>) {
    forall i :: 0 <= i < |fields| ==> fields[i].value == None
  }

  ghost predicate Printed(v: AvnValue, depth: nat, s: string)
    decreases v, 2
  {
    match v
    case Boolean(b) => s == if b then "TRUE" else "FALSE"
    case Integer(n) => s == n
    case OctetString(octets) => exists h: string :: HexPrinted(octets, h) && s == "'" + h + "'H"
    case BitString(bytes, n) => BitsPrinted(bytes, n, s)
    case Null => s == "NULL"
    case Oid(arcs) => exists a: string :: ArcsPrinted(arcs, a) && s == "{" + a + " }"
    case Real(n) => s == n
    case Enumerated(id) => s == id
    case Sequence(fields) =>
      if NonePresent(fields) then s == "{}"
      else exists a: string, m: string :: FieldsPrinted(fields, depth + 1, a) && Margin(depth, m) && s == "{\n" + a + m + "}"
    case SequenceOf(items) =>
      if items == [] then s == "{}"
      else exists a: string, m: string :: ItemsPrinted(items, depth + 1, a) && Margin(depth, m) && s == "{\n" + a + m + "}"
    case Choice(id, inner) => exists a: string :: Printed(inner, depth, a) && s == id + " : " + a
    case CharString(chars) => s == "\"" + Twice(chars) + "\""
  }

  /** A line for each field that is present: margin, name and value, with a comma but on the last one. */
  ghost predicate FieldsPrinted(fields: seq<Entry>, depth: nat, s: string)
    decreases fields, 1
  {
    if fields == [] then s == ""
    else if fields[0].value == None then FieldsPrinted(fields[1..], depth, s)
    else exists m: string, a: string, z: string :: FieldThen(fields, depth, m, a, z, s)
  }

  ghost predicate FieldThen(fields: seq<Entry>, depth: nat, m: string, a: string, z: string, s: string)
    requires fields != [] && fields[0].value != None
    decreases fields, 0
  {
    && Margin(depth, m) && Printed(fields[0].value.value, depth, a) && FieldsPrinted(fields[1..], depth, z)
    && s == m + fields[0].name + " " + a + (if NonePresent(fields[1..]) then "\n" else ",\n") + z
  }

  ghost predicate ItemsPrinted(items: seq<AvnValue>, depth: nat, s: string)
    decreases items, 1
  {
    if items == [] then s == "" else exists m: string, a: string, z: string :: ItemThen(items, depth, m, a, z, s)
  }

  ghost predicate ItemThen(items: seq<AvnValue>, depth: nat, m: string, a: string, z: string, s: string)
    requires items != []
    decreases items, 0
  {
    && Margin(depth, m) && Printed(items[0], depth, a) && ItemsPrinted(items[1..], depth, z)
    && s == m + a + (if |items| == 1 then "\n" else ",\n") + z
  }

  // ----- The printer's parts -----

  lemma TenTimes(k: nat)
    ensures TenTo(k) == if k == 0 then 1 else 10 * TenTo(k - 1)
  {
  }

  lemma Tenfold(d: int, p: int)
    ensures d * (10 * p) == 10 * (d * p)
  {
  }

  lemma {:induction false} DecimalEnd(front: string, c: char)
    requires (forall i :: 0 <= i < |front| ==> Decimal(front[i])) && Decimal(c)
    ensures DecimalValue(front + [c]) == 10 * DecimalValue(front) + (c as int - '0' as int)
  {
    hide TenTo;
    var s := front + [c];
    TenTimes(|front|);
    if front == "" {
      assert s[1..] == "";
    } else {
      assert s[1..] == front[1..] + [c];
      DecimalEnd(front[1..], c);
      Tenfold(front[0] as int - '0' as int, TenTo(|front| - 1));
    }
  }

  lemma {:induction false} DecimalIs(s: string)
    requires AllDigits(s)
    ensures NatValue(s) == DecimalValue(s)
  {
    if s != "" {
      var front := s[..|s| - 1];
      DecimalIs(front);
      DecimalEnd(front, s[|s| - 1]);
      assert s == front + [s[|s| - 1]];
    }
  }

  lemma {:induction false} NumeralLeads(n: nat)
    ensures |NatText(n)| > 1 ==> n >= 10 && NatText(n)[0] != '0'
    ensures n > 0 ==> NatText(n)[0] != '0'
  {
    if n >= 10 {
      NumeralLeads(n / 10);
    }
  }

  lemma {:induction false} NumeralOnce(s: string)
    requires s != "" && AllDigits(s) && (|s| > 1 ==> s[0] != '0')
    ensures NatText(NatValue(s)) == s && (|s| > 1 ==> NatValue(s) >= 10) && (s[0] != '0' ==> NatValue(s) > 0)
  {
    var front, last := s[..|s| - 1], s[|s| - 1];
    assert s == front + [last];
    if |s| > 1 {
      NumeralOnce(front);
      assert NatValue(s) / 10 == NatValue(front) && NatValue(s) % 10 == DigitValue(last);
    } else {
      assert front == "";
    }
  }

  lemma NumeralIs(n: nat, s: string)
    ensures NumeralPrinted(n, s) <==> s == NatText(n)
  {
    hide NatText, NatValue, DecimalValue;
    assert Decimals(s) <==> s != "" && AllDigits(s);
    NatValueText(n);
    NumeralLeads(n);
    DecimalIs(NatText(n));
    if NumeralPrinted(n, s) {
      DecimalIs(s);
      NumeralOnce(s);
    }
  }

  lemma HexCharIs(n: nat)
    requires n < 16
    ensures HexChar(n) == "0123456789ABCDEF"[n]
  {
    NibbleExact(HexChar(n), n);
    NibbleHexChar(n);
  }

  lemma {:induction false} HexIs(octets: Bytes, s: string)
    ensures HexPrinted(octets, s) <==> s == HexText(octets)
  {
    hide HexChar;
    if octets != [] {
      HexCharIs(octets[0] / 16);
      HexCharIs(octets[0] % 16);
      var text := HexText(octets);
      assert text[2..] == HexText(octets[1..]);
      HexIs(octets[1..], text[2..]);
      HexPrintedStep(octets, text);
      if HexPrinted(octets, s) {
        HexPrintedStep(octets, s);
        HexIs(octets[1..], s[2..]);
        assert s == [s[0], s[1]] + s[2..];
      }
    }
  }

  lemma HexPrintedStep(octets: Bytes, s: string)
    requires octets != [] && |s| >= 2
    ensures HexPrinted(octets, s) <==>
            s[0] == "0123456789ABCDEF"[octets[0] / 16] && s[1] == "0123456789ABCDEF"[octets[0] % 16] && HexPrinted(octets[1..], s[2..])
  {
    var hex := "0123456789ABCDEF";
    if HexPrinted(octets, s) {
      forall i | 0 <= i < |octets[1..]|
        ensures s[2..][2 * i] == hex[octets[1..][i] / 16] && s[2..][2 * i + 1] == hex[octets[1..][i] % 16]
      {
        assert s[2..][2 * i] == s[2 * (i + 1)] && s[2..][2 * i + 1] == s[2 * (i + 1) + 1] && octets[1..][i] == octets[i + 1];
      }
      assert s[2 * 0] == hex[octets[0] / 16] && s[2 * 0 + 1] == hex[octets[0] % 16];
    }
    if s[0] == hex[octets[0] / 16] && s[1] == hex[octets[0] % 16] && HexPrinted(octets[1..], s[2..]) {
      forall i | 0 <= i < |octets|
        ensures s[2 * i] == hex[octets[i] / 16] && s[2 * i + 1] == hex[octets[i] % 16]
      {
        if i > 0 {
          assert s[2..][2 * (i - 1)] == s[2 * i] && s[2..][2 * (i - 1) + 1] == s[2 * i + 1] && octets[1..][i - 1] == octets[i];
        }
      }
    }
  }

  lemma BitsAre(bytes: Bytes, n: nat, s: string)
    ensures BitsPrinted(bytes, n, s) <==> s == PrintBits(bytes, n)
  {
    hide HexText, HexPrinted, BitAt, Bit;
    HexIs(bytes, HexText(bytes));
    if n % 8 == 0 {
      if h: string :| HexPrinted(bytes, h) && s == "'" + h + "'H" {
        HexIs(bytes, h);
      }
    } else {
      var m := Min(n, 8 * |bytes|);
      var text := BitChars(BitsOf(bytes, m));
      forall i | 0 <= i < m
        ensures text[i] == if Bit(bytes, i) then '1' else '0'
      {
        BitIs(bytes, i);
      }
      forall b: string | |b| == m && forall i :: 0 <= i < |b| ==> b[i] == if Bit(bytes, i) then '1' else '0'
        ensures b == text
      {
      }
    }
  }

  lemma {:induction false} ArcsAre(arcs: seq<U32>, s: string)
    ensures ArcsPrinted(arcs, s) <==> s == PrintArcs(arcs)
  {
    hide NatText, NumeralPrinted;
    if arcs != [] {
      var n, more := NatText(arcs[0]), PrintArcs(arcs[1..]);
      NumeralIs(arcs[0], n);
      ArcsAre(arcs[1..], more);
      forall n': string, more': string | NumeralPrinted(arcs[0], n') && ArcsPrinted(arcs[1..], more')
        ensures n' == n && more' == more
      {
        NumeralIs(arcs[0], n');
        ArcsAre(arcs[1..], more');
      }
    }
  }

  lemma MarginIs(depth: nat, s: string)
    ensures Margin(depth, s) <==> s == Spaces(2 * depth)
  {
  }

  lemma PresentIs(fields: seq<Entry>)
    ensures NonePresent(fields) <==> !AnyPresent(fields)
  {
  }

  lemma {:induction false} TwiceIs(s: string)
    ensures Doubled(s) == Twice(s)
  {
    if s != "" {
      TwiceIs(s[1..]);
    }
  }

  lemma {:induction false} FieldsPart(fields: seq<Entry>, depth: nat, s: string) returns (m: string, a: string, z: string)
    requires fields != [] && fields[0].value != None && FieldsPrinted(fields, depth, s)
    ensures FieldThen(fields, depth, m, a, z, s)
  {
    m, a, z :| FieldThen(fields, depth, m, a, z, s);
  }

  lemma {:induction false} FieldsAre(fields: seq<Entry>, depth: nat, s: string)
    ensures FieldsPrinted(fields, depth, s) <==> s == PrintFields(fields, depth)
    decreases fields, 0
  {
    hide Print, Printed, Margin, NonePresent, AnyPresent;
    if fields != [] {
      var z := PrintFields(fields[1..], depth);
      if fields[0].value == None {
        FieldsAre(fields[1..], depth, s);
      } else {
        var v := fields[0].value.value;
        PresentIs(fields[1..]);
        if s == PrintFields(fields, depth) {
          MarginIs(depth, Spaces(2 * depth));
          PrintedExactly(v, depth, Print(v, depth));
          FieldsAre(fields[1..], depth, z);
          assert FieldThen(fields, depth, Spaces(2 * depth), Print(v, depth), z, s);
        }
        if FieldsPrinted(fields, depth, s) {
          var m, a, z' := FieldsPart(fields, depth, s);
          MarginIs(depth, m);
          PrintedExactly(v, depth, a);
          FieldsAre(fields[1..], depth, z');
        }
      }
    }
  }

  lemma {:induction false} ItemsPart(items: seq<AvnValue>, depth: nat, s: string) returns (m: string, a: string, z: string)
    requires items != [] && ItemsPrinted(items, depth, s)
    ensures ItemThen(items, depth, m, a, z, s)
  {
    m, a, z :| ItemThen(items, depth, m, a, z, s);
  }

  lemma {:induction false} ItemsAre(items: seq<AvnValue>, depth: nat, s: string)
    ensures ItemsPrinted(items, depth, s) <==> s == PrintItems(items, depth)
    decreases items, 0
  {
    hide Print, Printed, Margin;
    if items != [] {
      var z := PrintItems(items[1..], depth);
      if s == PrintItems(items, depth) {
        MarginIs(depth, Spaces(2 * depth));
        PrintedExactly(items[0], depth, Print(items[0], depth));
        ItemsAre(items[1..], depth, z);
        assert ItemThen(items, depth, Spaces(2 * depth), Print(items[0], depth), z, s);
      }
      if ItemsPrinted(items, depth, s) {
        var m, a, z' := ItemsPart(items, depth, s);
        MarginIs(depth, m);
        PrintedExactly(items[0], depth, a);
        ItemsAre(items[1..], depth, z');
      }
    }
  }

  /** The printer writes exactly the text of the rules, for every tree at every indentation. */
  lemma {:induction false} PrintedExactly(v: AvnValue, depth: nat, s: string)
    ensures s == Print(v, depth) <==> Printed(v, depth, s)
    decreases v, 0
  {
    hide PrintFields, FieldsPrinted, PrintItems, ItemsPrinted, PrintArcs, ArcsPrinted, PrintBits, BitsPrinted, HexText, HexPrinted, Margin,
      NonePresent, AnyPresent, Doubled, Twice;
    match v
    case OctetString(octets) =>
      HexIs(octets, HexText(octets));
      forall h: string | HexPrinted(octets, h)
        ensures h == HexText(octets)
      {
        HexIs(octets, h);
      }
    case BitString(bytes, n) => BitsAre(bytes, n, s);
    case Oid(arcs) =>
      ArcsAre(arcs, PrintArcs(arcs));
      forall a: string | ArcsPrinted(arcs, a)
        ensures a == PrintArcs(arcs)
      {
        ArcsAre(arcs, a);
      }
    case Sequence(fields) =>
      PresentIs(fields);
      MarginIs(depth, Spaces(2 * depth));
      FieldsAre(fields, depth + 1, PrintFields(fields, depth + 1));
      var inner := depth + 1;
      forall a: string | FieldsPrinted(fields, inner, a)
        ensures a == PrintFields(fields, inner)
      {
        FieldsAre(fields, inner, a);
      }
      forall m: string | Margin(depth, m)
        ensures m == Spaces(2 * depth)
      {
        MarginIs(depth, m);
      }
    case SequenceOf(items) =>
      MarginIs(depth, Spaces(2 * depth));
      ItemsAre(items, depth + 1, PrintItems(items, depth + 1));
      var inner := depth + 1;
      forall a: string | ItemsPrinted(items, inner, a)
        ensures a == PrintItems(items, inner)
      {
        ItemsAre(items, inner, a);
      }
      forall m: string | Margin(depth, m)
        ensures m == Spaces(2 * depth)
      {
        MarginIs(depth, m);
      }
    case Choice(id, inner) =>
      PrintedExactly(inner, depth, Print(inner, depth));
      forall a: string | Printed(inner, depth, a)
        ensures a == Print(inner, depth)
      {
        PrintedExactly(inner, depth, a);
      }
    case CharString(chars) => TwiceIs(chars);
    case _ =>
  }
}
