/** The AVN tree and its indenting printer. */
module AvnTree {
  import opened Common
  import opened Bits
  import opened Numerals

  datatype AvnValue =
    | Boolean(b: bool)
    | Integer(numeral: string)
    | OctetString(octets: Bytes)
    | BitString(bytes: Bytes, bitLength: nat)
    | Null
    | Oid(arcs: seq<U32>)
    | Real(text: string)
    | Enumerated(id: string)
    | Sequence(fields: seq<Entry>)
    | SequenceOf(items: seq<AvnValue>)
    | Choice(identifier: string, value: AvnValue)
    | CharString(chars: string)

  /** A field of a SEQUENCE; `None` is an absent OPTIONAL field. */
  datatype Entry = Entry(name: string, value: Option<AvnValue>)

  function Spaces(n: nat): (s: string)
    ensures |s| == n && forall i :: 0 <= i < n ==> s[i] == ' '
  {
    seq(n, i => ' ')
  }

  /** A character string with every quotation mark doubled (clause 12.14 of X.680). */
  function Doubled(s: string): string {
    if s == "" then ""
    else (if s[0] == '"' then "\"\"" else [s[0]]) + Doubled(s[1..])
  }

  function BitChars(bits: seq<bool>): (s: string)
    ensures |s| == |bits|
  {
    seq(|bits|, i requires 0 <= i < |bits| => if bits[i] then '1' else '0')
  }

  function PrintBits(bytes: Bytes, n: nat): string {
    if n == 0 then "''H"
    else if n % 8 == 0 then "'" + HexText(bytes) + "'H"
    else "'" + BitChars(BitsOf(bytes, Min(n, 8 * |bytes|))) + "'B"
  }

  function PrintArcs(arcs: seq<U32>): string {
    if arcs == [] then "" else " " + NatText(arcs[0]) + PrintArcs(arcs[1..])
  }

  predicate AnyPresent(fields: seq<Entry>) {
    exists i :: 0 <= i < |fields| && fields[i].value.Some?
  }

  /** The text of a tree whose closing brace stands at indentation `depth`. */
  function Print(v: AvnValue, depth: nat): string
    decreases v, 1
  {
    match v
    case Boolean(b) => if b then "TRUE" else "FALSE"
    case Integer(s) => s
    case OctetString(bytes) => "'" + HexText(bytes) + "'H"
    case BitString(bytes, n) => PrintBits(bytes, n)
    case Null => "NULL"
    case Oid(arcs) => "{" + PrintArcs(arcs) + " }"
    case Real(s) => s
    case Enumerated(id) => id
    case Sequence(fields) =>
      if !AnyPresent(fields) then "{}"
      else "{\n" + PrintFields(fields, depth + 1) + Spaces(2 * depth) + "}"
    case SequenceOf(items) =>
      if items == [] then "{}"
      else "{\n" + PrintItems(items, depth + 1) + Spaces(2 * depth) + "}"
    case Choice(id, inner) => id + " : " + Print(inner, depth)
    case CharString(s) => "\"" + Doubled(s) + "\""
  }

  /** One line for each present field, separated by commas. */
  function PrintFields(fields: seq<Entry>, depth: nat): string
    decreases fields, 0
  {
    if fields == [] then ""
    else
      var rest := PrintFields(fields[1..], depth);
      match fields[0].value
      case None => rest
      case Some(v) =>
        Spaces(2 * depth) + fields[0].name + " " + Print(v, depth) + Ending(AnyPresent(fields[1..])) + rest
  }

  function PrintItems(items: seq<AvnValue>, depth: nat): string
    decreases items, 0
  {
    if items == [] then ""
    else Spaces(2 * depth) + Print(items[0], depth) + Ending(|items| > 1) + PrintItems(items[1..], depth)
  }

  /** The end of a line: a comma when another line follows. */
  function Ending(more: bool): string {
    if more then ",\n" else "\n"
  }
}
