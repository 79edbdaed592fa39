/**
 Printing an AVN tree and parsing the text back. The parser recovers the tree up to the
 distinctions the notation does not carry (`NormValue`), and it stops with `TooDeep`
 exactly on the trees that do not fit its depth limit (`Fits`).
 */
module AvnText {
  import opened Common
  import opened Bits
  import opened Numerals
  import opened AvnTree
  import opened AvnParser

  // ----- What a text can carry -----

  predicate IsIdentifier(s: string) {
    s != "" && IsAlpha(s[0]) && forall i :: 0 <= i < |s| ==> IsIdChar(s[i])
  }

  predicate IsNumber(s: string) {
    s != "" && NumberLength(s) == |s|
  }

  /** The leaves and names of the tree are tokens of the notation. */
  predicate WellFormed(v: AvnValue) {
    match v
    case Integer(s) => IsNumber(s) && '.' !in s
    case BitString(bytes, n) => |bytes| == Octets(n)
    case Real(s) => IsNumber(s) || IsRealKeyword(s)
    case Enumerated(id) => IsIdentifier(id)
    case Sequence(fields) =>
      forall i :: 0 <= i < |fields| ==>
        IsIdentifier(fields[i].name) && (fields[i].value.Some? ==> WellFormed(fields[i].value.value))
    case SequenceOf(items) => forall i :: 0 <= i < |items| ==> WellFormed(items[i])
    case Choice(id, inner) => IsIdentifier(id) && WellFormed(inner)
    case _ => true
  }

  /** The tree that the text of `v` denotes where a value is expected. */
  function NormValue(v: AvnValue): AvnValue
    decreases v, 0
  {
    match v
    case BitString(bytes, n) =>
      if n % 8 == 0 then OctetString(bytes)
      else BitString(if n <= 8 * |bytes| then PackBits(BitsOf(bytes, n)) else bytes, n)
    case Oid(arcs) => SequenceOf(ArcValues(arcs))
    case Real(s) => if IsRealKeyword(s) || '.' in s then v else Integer(s)
    case Enumerated(id) => Word(id)
    case Sequence(fields) => if AnyPresent(fields) then Sequence(NormFields(fields)) else SequenceOf([])
    case SequenceOf(items) => SequenceOf(NormItems(items))
    case Choice(id, inner) => Choice(id, NormValue(inner))
    case _ => v
  }

  function ArcValues(arcs: seq<U32>): seq<AvnValue> {
    if arcs == [] then [] else [Integer(NatText(arcs[0]))] + ArcValues(arcs[1..])
  }

  /** The tree that the text of `v` denotes directly between braces. */
  function NormItem(v: AvnValue): AvnValue
    decreases v, 1
  {
    if IsWord(v) then ItemWord(WordText(v)) else NormValue(v)
  }

  function NormFields(fields: seq<Entry>): seq<Entry>
    decreases fields, 0
  {
    if fields == [] then []
    else
      var rest := NormFields(fields[1..]);
      match fields[0].value
      case None => rest
      case Some(v) => [Entry(fields[0].name, Some(NormValue(v)))] + rest
  }

  function NormItems(items: seq<AvnValue>): (r: seq<AvnValue>)
    ensures |r| == |items|
    decreases items, 0
  {
    if items == [] then [] else [NormItem(items[0])] + NormItems(items[1..])
  }

  /** Values printed as a single identifier. */
  predicate IsWord(v: AvnValue) {
    v.Boolean? || v.Null? || v.Enumerated? || (v.Real? && IsRealKeyword(v.text))
  }

  function WordText(v: AvnValue): string
    requires IsWord(v)
  {
    match v
    case Boolean(b) => if b then "TRUE" else "FALSE"
    case Null => "NULL"
    case Enumerated(id) => id
    case Real(s) => s
  }

  /** The parser's depth limit is respected when it starts on `v` at `depth`. */
  predicate Fits(v: AvnValue, depth: nat)
    decreases v, 0
  {
    depth <= 64 &&
    match v
    case Oid(arcs) => arcs != [] ==> depth + 1 <= 64
    case Sequence(fields) =>
      forall i :: 0 <= i < |fields| && fields[i].value.Some? ==> Fits(fields[i].value.value, depth + 1)
    case SequenceOf(items) => forall i :: 0 <= i < |items| ==> ItemFits(items[i], depth + 1)
    case Choice(_, inner) => Fits(inner, depth + 1)
    case _ => true
  }

  /** The same directly between braces, where a word is read without a depth check. */
  predicate ItemFits(v: AvnValue, depth: nat)
    decreases v, 1
  {
    if IsWord(v) then true else if v.Choice? then Fits(v.value, depth) else Fits(v, depth)
  }

  // ----- What may follow a text -----

  predicate EndsWord(tail: string) {
    (tail != "" ==> !IsIdChar(tail[0])) && !StartsWith(SkipSpace(tail), ':')
  }

  predicate EndsNumber(s: string, tail: string) {
    (tail != "" ==> !IsDigit(tail[0])) &&
    ('.' in s || !(StartsWith(tail, '.') && tail[1..] != "" && IsDigit(tail[1])))
  }

  /** `tail` does not extend the last token of the text of `v`. */
  predicate Ends(v: AvnValue, tail: string) {
    match v
    case Integer(s) => EndsNumber(s, tail)
    case Real(s) => if IsRealKeyword(s) then EndsWord(tail) else EndsNumber(s, tail)
    case CharString(_) => !StartsWith(tail, '"')
    case Choice(_, inner) => Ends(inner, tail)
    case _ => IsWord(v) ==> EndsWord(tail)
  }

  /** A comma or a closing brace follows, perhaps on the next line. */
  predicate Closes(tail: string) {
    tail != "" && (tail[0] == ',' || tail[0] == '\n' || tail[0] == ' ') &&
    (StartsWith(SkipSpace(tail), ',') || StartsWith(SkipSpace(tail), '}'))
  }

  lemma ClosesEnds(v: AvnValue, tail: string)
    requires Closes(tail)
    ensures Ends(v, tail)
  {
  }

  // ----- Lexical lemmas -----

  lemma {:induction false} SpanConcat(p: char -> bool, a: string, t: string)
    ensures Span(p, a + t) == if Span(p, a) == |a| then |a| + Span(p, t) else Span(p, a)
  {
    if a == "" {
      assert a + t == t;
    } else {
      SpanConcat(p, a[1..], t);
      assert (a + t)[1..] == a[1..] + t;
    }
  }

  lemma {:induction false} SpanAll(p: char -> bool, a: string)
    requires forall i :: 0 <= i < |a| ==> p(a[i])
    ensures Span(p, a) == |a|
  {
    if a != "" {
      SpanAll(p, a[1..]);
    }
  }

  lemma SpanToken(p: char -> bool, a: string, t: string)
    requires forall i :: 0 <= i < |a| ==> p(a[i])
    requires t != "" ==> !p(t[0])
    ensures Span(p, a + t) == |a|
  {
    SpanAll(p, a);
    SpanConcat(p, a, t);
  }

  predicate Blank(a: string) {
    forall i :: 0 <= i < |a| ==> IsSpace(a[i])
  }

  lemma SkipBlank(a: string, t: string)
    requires Blank(a)
    ensures SkipSpace(a + t) == SkipSpace(t)
  {
    SpanAll(IsSpace, a);
    SpanConcat(IsSpace, a, t);
  }

  lemma SkipNothing(t: string)
    requires t != "" ==> !IsSpace(t[0])
    ensures SkipSpace(t) == t
  {
  }

  lemma {:induction false} SkipTwice(s: string)
    ensures SkipSpace(SkipSpace(s)) == SkipSpace(s)
  {
    if s != "" && IsSpace(s[0]) {
      SkipTwice(s[1..]);
      assert SkipSpace(s) == SkipSpace(s[1..]);
    }
  }

  lemma IdToken(id: string, t: string)
    requires IsIdentifier(id)
    requires t != "" ==> !IsIdChar(t[0])
    ensures IdLength(id + t) == |id|
    ensures (id + t)[..|id|] == id && (id + t)[|id|..] == t
  {
    SpanToken(IsIdChar, id, t);
  }

  /** The sign and the digits of a number, before any point. */
  function Whole(s: string): (n: nat)
    ensures n <= |s|
  {
    var sign := if StartsWith(s, '-') then 1 else 0;
    sign + Span(IsDigit, s[sign..])
  }

  lemma WholeToken(s: string, t: string)
    requires s != "" && NumberLength(s) > 0
    requires t != "" ==> !IsDigit(t[0])
    ensures Whole(s + t) == Whole(s)
  {
    var sign := if StartsWith(s, '-') then 1 else 0;
    assert (s + t)[sign..] == s[sign..] + t;
    SpanConcat(IsDigit, s[sign..], t);
  }

  lemma SpanNone(p: char -> bool, s: string)
    requires s != "" ==> !p(s[0])
    ensures Span(p, s) == 0
  {
  }

  lemma {:induction false} NumberToken(s: string, t: string)
    requires IsNumber(s)
    requires EndsNumber(s, t)
    ensures NumberLength(s + t) == |s|
    ensures (s + t)[..|s|] == s && (s + t)[|s|..] == t
  {
    hide Span;
    var n := Whole(s);
    WholeToken(s, t);
    SpanNone(IsDigit, t);
    if n < |s| {
      assert s[n] == '.' && (s + t)[n] == '.';
      assert (s + t)[n + 1..] == s[n + 1..] + t;
      SpanConcat(IsDigit, s[n + 1..], t);
    } else {
      NoPoint(s, if StartsWith(s, '-') then 1 else 0);
      assert (s + t)[n..] == t;
      if StartsWith(t, '.') {
        assert (s + t)[n + 1..] == t[1..];
        SpanNone(IsDigit, t[1..]);
      }
    }
  }

  lemma {:induction false} SpanHolds(p: char -> bool, s: string, i: nat)
    requires i < Span(p, s)
    ensures p(s[i])
  {
    if i > 0 {
      SpanHolds(p, s[1..], i - 1);
    }
  }

  lemma NoPoint(s: string, sign: nat)
    requires sign == if StartsWith(s, '-') then 1 else 0
    requires sign + Span(IsDigit, s[sign..]) == |s|
    ensures '.' !in s
  {
    forall i | sign <= i < |s|
      ensures s[i] != '.'
    {
      SpanHolds(IsDigit, s[sign..], i - sign);
    }
  }

  /** A number starts with a digit or a minus sign. */
  lemma NumberHead(s: string)
    requires IsNumber(s)
    ensures s != "" && (IsDigit(s[0]) || s[0] == '-')
  {
  }

  /** Canonical integer numerals are numbers without a point. */
  lemma IntTextIsNumber(i: int)
    ensures IsNumber(IntText(i)) && '.' !in IntText(i)
  {
    var s := IntText(i);
    var sign := if StartsWith(s, '-') then 1 else 0;
    SpanAll(IsDigit, s[sign..]);
    NoPoint(s, sign);
  }
}
