/** The recursive-descent parser of AVN text, as functions on the remaining input. */
module AvnParser {
  import opened Common
  import opened Bits
  import opened Numerals
  import opened AvnTree

  /** A failure of the depth guard is final; a syntax error lets the next alternative try. */
  datatype Error = TooDeep | Syntax

  datatype Parsed<+T> = Ok(value: T, rest: string) | Err(error: Error)

  const MAX_DEPTH: nat := 64

  // ----- Lexical elements -----

  predicate IsSpace(c: char) {
    c == ' ' || c == '\t' || c == '\r' || c == '\n'
  }

  /** The Unicode White_Space property, used inside bstring and hstring and after the value. */
  predicate IsWhite(c: char) {
    var n := c as int;
    9 <= n <= 13 || n == 32 || n == 0x85 || n == 0xA0 || n == 0x1680 || 0x2000 <= n <= 0x200A ||
    n == 0x2028 || n == 0x2029 || n == 0x202F || n == 0x205F || n == 0x3000
  }

  predicate IsAlpha(c: char) {
    'a' <= c <= 'z' || 'A' <= c <= 'Z'
  }

  predicate IsIdChar(c: char) {
    IsAlpha(c) || IsDigit(c) || c == '-' || c == '_'
  }

  predicate IsUnquoted(c: char) {
    c != '\''
  }

  /** The length of the longest prefix all of whose characters satisfy `p`. */
  function Span(p: char -> bool, s: string): (n: nat)
    ensures n <= |s|
  {
    if s != "" && p(s[0]) then 1 + Span(p, s[1..]) else 0
  }

  function SkipSpace(s: string): (r: string)
    ensures |r| <= |s|
  {
    s[Span(IsSpace, s)..]
  }

  predicate StartsWith(s: string, c: char) {
    s != "" && s[0] == c
  }

  function IdLength(s: string): (n: nat)
    ensures n <= |s|
  {
    if s != "" && IsAlpha(s[0]) then Span(IsIdChar, s) else 0
  }

  function DropWhite(s: string): string {
    if s == "" then "" else (if IsWhite(s[0]) then "" else [s[0]]) + DropWhite(s[1..])
  }

  predicate AllBinary(s: string) {
    forall i :: 0 <= i < |s| ==> s[i] == '0' || s[i] == '1'
  }

  function BinaryDigits(s: string): seq<bool> {
    seq(|s|, i requires 0 <= i < |s| => s[i] == '1')
  }

  /** The contents of a quoted string, read by its suffix letter. */
  function Interpret(content: string, suffix: char, rest: string): (r: Parsed<AvnValue>)
    ensures r.Ok? ==> r.rest == rest
  {
    if suffix == 'H' then
      match HexBytes(content)
      case Some(bytes) => Ok(OctetString(bytes), rest)
      case None => Err(Syntax)
    else if suffix == 'B' && AllBinary(content) then
      Ok(BitString(PackBits(BinaryDigits(content)), |content|), rest)
    else Err(Syntax)
  }

  function HexOrBin(s: string): (r: Parsed<AvnValue>)
    ensures r.Ok? ==> |r.rest| < |s|
  {
    if !StartsWith(s, '\'') then Err(Syntax)
    else
      var n := Span(IsUnquoted, s[1..]);
      var after := s[1..][n..];
      if |after| < 2 then Err(Syntax) else Interpret(DropWhite(s[1..][..n]), after[1], after[2..])
  }

  /** The characters up to the closing quotation mark, each doubled mark read as one. */
  function Unquote(s: string): (r: Parsed<string>)
    ensures r.Ok? ==> |r.rest| < |s|
  {
    if s == "" then Err(Syntax)
    else if s[0] != '"' then Prepend(s[0], Unquote(s[1..]))
    else if StartsWith(s[1..], '"') then Prepend('"', Unquote(s[2..]))
    else Ok("", s[1..])
  }

  function Prepend(c: char, r: Parsed<string>): Parsed<string> {
    if r.Ok? then Ok([c] + r.value, r.rest) else r
  }

  function QuotedString(s: string): (r: Parsed<AvnValue>)
    ensures r.Ok? ==> |r.rest| < |s|
  {
    if !StartsWith(s, '"') then Err(Syntax)
    else
      match Unquote(s[1..])
      case Ok(chars, rest) => Ok(CharString(chars), rest)
      case Err(e) => Err(e)
  }

  /** The length of an optional sign, digits, and a point followed by digits; zero if there is no number. */
  function NumberLength(s: string): (n: nat)
    ensures n <= |s|
  {
    var sign := if StartsWith(s, '-') then 1 else 0;
    var digits := Span(IsDigit, s[sign..]);
    var whole := sign + digits;
    if digits == 0 then 0
    else if StartsWith(s[whole..], '.') && Span(IsDigit, s[whole + 1..]) > 0
    then whole + 1 + Span(IsDigit, s[whole + 1..])
    else whole
  }

  function Number(s: string): (r: Parsed<AvnValue>)
    ensures r.Ok? ==> |r.rest| < |s|
  {
    var n := NumberLength(s);
    if n == 0 then Err(Syntax)
    else Ok(if '.' in s[..n] then Real(s[..n]) else Integer(s[..n]), s[n..])
  }

  predicate IsRealKeyword(id: string) {
    id == "PLUS-INFINITY" || id == "MINUS-INFINITY" || id == "NOT-A-NUMBER"
  }

  /** A lone identifier where a value is expected. */
  function Word(id: string): AvnValue {
    if id == "TRUE" then Boolean(true)
    else if id == "FALSE" then Boolean(false)
    else if id == "NULL" then Null
    else ItemWord(id)
  }

  /** A lone identifier standing directly between braces: never BOOLEAN or NULL. */
  function ItemWord(id: string): AvnValue {
    if IsRealKeyword(id) then Real(id) else Enumerated(id)
  }

  // ----- Values -----

  function OrElse<T>(first: Parsed<T>, second: Parsed<T>): Parsed<T> {
    if first == Err(Syntax) then second else first
  }

  function ParseValue(s: string, depth: nat): (r: Parsed<AvnValue>)
    ensures r.Ok? ==> |r.rest| < |s|
    decreases |s|, 3
  {
    if depth > MAX_DEPTH then Err(TooDeep)
    else
      var t := SkipSpace(s);
      OrElse(HexOrBin(t), OrElse(QuotedString(t), OrElse(Number(t),
                                                         OrElse(ParseBrace(t, depth + 1), ParseWord(t, depth)))))
  }

  /** An identifier, or a CHOICE value when a colon follows it. */
  function ParseWord(s: string, depth: nat): (r: Parsed<AvnValue>)
    ensures r.Ok? ==> |r.rest| < |s|
    decreases |s|, 2
  {
    var n := IdLength(s);
    if n == 0 then Err(Syntax)
    else
      var after := SkipSpace(s[n..]);
      if StartsWith(after, ':') then
        InChoice(s[..n], ParseValue(after[1..], depth + 1))
      else Ok(Word(s[..n]), s[n..])
  }

  function InChoice(id: string, r: Parsed<AvnValue>): Parsed<AvnValue> {
    match r
    case Ok(inner, rest) => Ok(Choice(id, inner), rest)
    case Err(e) => Err(e)
  }

  datatype BraceItem = Named(name: string, named: AvnValue) | Bare(bare: AvnValue)

  function AsBare(r: Parsed<AvnValue>): Parsed<BraceItem> {
    match r
    case Ok(v, rest) => Ok(Bare(v), rest)
    case Err(e) => Err(e)
  }

  function AsNamed(name: string, r: Parsed<AvnValue>): Parsed<BraceItem> {
    match r
    case Ok(v, rest) => Ok(Named(name, v), rest)
    case Err(e) => Err(e)
  }

  function ParseBrace(s: string, depth: nat): (r: Parsed<AvnValue>)
    ensures r.Ok? ==> |r.rest| < |s|
    decreases |s|, 2
  {
    if !StartsWith(s, '{') then Err(Syntax)
    else
      var t := SkipSpace(s[1..]);
      if StartsWith(t, '}') then Ok(SequenceOf([]), t[1..])
      else
        Assembled(ParseItems(t, depth, []))
  }

  /** One named field or bare element; one token decides between them. */
  function ParseItem(s: string, depth: nat): (r: Parsed<BraceItem>)
    ensures r.Ok? ==> |r.rest| < |s|
    decreases |s|, 4
  {
    var n := IdLength(s);
    if n == 0 then
      AsBare(ParseValue(s, depth))
    else
      var after := SkipSpace(s[n..]);
      if StartsWith(after, ':') then
        AsBare(InChoice(s[..n], ParseValue(after[1..], depth)))
      else if StartsWith(after, ',') || StartsWith(after, '}') then
        Ok(Bare(ItemWord(s[..n])), s[n..])
      else
        AsNamed(s[..n], ParseValue(after, depth))
  }

  predicate AllIntegers(items: seq<BraceItem>) {
    forall i :: 0 <= i < |items| ==> items[i].Bare? && items[i].bare.Integer?
  }

  /** The rest of a brace list, after the items already read; arcs need no comma between them. */
  function ParseItems(s: string, depth: nat, items: seq<BraceItem>): (r: Parsed<seq<BraceItem>>)
    ensures r.Ok? ==> |r.rest| < |s|
    decreases |s|, 5
  {
    match ParseItem(SkipSpace(s), depth)
    case Err(e) => Err(e)
    case Ok(item, rest) =>
      var all := items + [item];
      var t := SkipSpace(rest);
      if StartsWith(t, '}') then Ok(all, t[1..])
      else if StartsWith(t, ',') then ParseItems(t[1..], depth, all)
      else if t != "" && (IsDigit(t[0]) || t[0] == '-') && AllIntegers(all) then ParseItems(t, depth, all)
      else Err(Syntax)
  }

  predicate HasNamed(items: seq<BraceItem>) {
    exists i :: 0 <= i < |items| && items[i].Named?
  }

  predicate HasBare(items: seq<BraceItem>) {
    exists i :: 0 <= i < |items| && items[i].Bare?
  }

  function Entries(items: seq<BraceItem>): seq<Entry>
    requires !HasBare(items)
  {
    seq(|items|, i requires 0 <= i < |items| && items[i].Named? => Entry(items[i].name, Some(items[i].named)))
  }

  function Elements(items: seq<BraceItem>): seq<AvnValue>
    requires !HasNamed(items)
  {
    seq(|items|, i requires 0 <= i < |items| && items[i].Bare? => items[i].bare)
  }

  /** All items named: a SEQUENCE; all bare: a SEQUENCE OF; a mixture is an error. */
  function Assemble(items: seq<BraceItem>, rest: string): (r: Parsed<AvnValue>)
    ensures r.Ok? ==> r.rest == rest
  {
    if HasNamed(items) then
      if HasBare(items) then Err(Syntax) else Ok(Sequence(Entries(items)), rest)
    else Ok(SequenceOf(Elements(items)), rest)
  }

  function Assembled(items: Parsed<seq<BraceItem>>): Parsed<AvnValue> {
    match items
    case Ok(all, rest) => Assemble(all, rest)
    case Err(e) => Err(e)
  }

  predicate AllWhite(s: string) {
    forall i :: 0 <= i < |s| ==> IsWhite(s[i])
  }

  /** A whole text: one value and then nothing but white space. */
  function ParseText(s: string): Parsed<AvnValue> {
    match ParseValue(s, 0)
    case Ok(v, rest) => if AllWhite(rest) then Ok(v, "") else Err(Syntax)
    case Err(e) => Err(e)
  }
}
