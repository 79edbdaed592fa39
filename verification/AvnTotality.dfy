/**
 What holds of the parser on every input string, well formed or not: a success leaves a proper
 suffix of the input, and the depth limit bounds the height of the tree. Termination, with the
 remaining input as the measure, is part of the definition of the parsing functions.
 */
module AvnTotality {
  import opened Common
  import opened AvnTree
  import opened AvnParser
  import opened AvnText

  predicate IsSuffix(rest: string, s: string) {
    |rest| <= |s| && rest == s[|s| - |rest|..]
  }

  /** No path from the root to a leaf has more than `h` edges. */
  predicate HeightAtMost(v: AvnValue, h: int)
    decreases v
  {
    match v
    case Sequence(fields) =>
      fields != [] ==> h >= 1 && forall i :: 0 <= i < |fields| && fields[i].value.Some? ==>
                                               HeightAtMost(fields[i].value.value, h - 1)
    case SequenceOf(items) => items != [] ==> h >= 1 && forall i :: 0 <= i < |items| ==> HeightAtMost(items[i], h - 1)
    case Choice(_, inner) => h >= 1 && HeightAtMost(inner, h - 1)
    case _ => true
  }

  /** A CHOICE directly inside a brace costs no depth, so each level of depth allows two edges. */
  function HeightLimit(depth: nat): int {
    2 * (64 - depth) + 1
  }

  predicate ItemHeight(item: BraceItem, h: int) {
    match item
    case Named(_, v) => HeightAtMost(v, h)
    case Bare(v) => HeightAtMost(v, h)
  }

  lemma SuffixTrans(a: string, b: string, c: string)
    requires IsSuffix(a, b) && IsSuffix(b, c)
    ensures IsSuffix(a, c)
  {
  }

  lemma Drop(s: string, n: nat)
    requires n <= |s|
    ensures IsSuffix(s[n..], s)
  {
  }

  lemma DropSuffix(s: string, n: nat, rest: string)
    requires n <= |s| && IsSuffix(rest, s[n..])
    ensures IsSuffix(rest, s)
  {
    SuffixTrans(rest, s[n..], s);
  }

  lemma {:induction false} UnquoteSuffix(s: string)
    requires Unquote(s).Ok?
    ensures IsSuffix(Unquote(s).rest, s)
  {
    if s[0] != '"' {
      UnquoteSuffix(s[1..]);
    } else if StartsWith(s[1..], '"') {
      UnquoteSuffix(s[2..]);
    }
  }

  lemma LeafBounds(s: string)
    ensures HexOrBin(s).Ok? ==> IsSuffix(HexOrBin(s).rest, s) && HeightAtMost(HexOrBin(s).value, 0)
    ensures QuotedString(s).Ok? ==> IsSuffix(QuotedString(s).rest, s) && HeightAtMost(QuotedString(s).value, 0)
    ensures Number(s).Ok? ==> IsSuffix(Number(s).rest, s) && HeightAtMost(Number(s).value, 0)
  {
    if QuotedString(s).Ok? {
      UnquoteSuffix(s[1..]);
    }
    if HexOrBin(s).Ok? {
      var n := Span(IsUnquoted, s[1..]);
      assert s[1..][n..][2..] == s[n + 3..];
    }
  }

  lemma {:induction false} HeightMonotone(v: AvnValue, h: int, k: int)
    requires HeightAtMost(v, h) && h <= k
    ensures HeightAtMost(v, k)
  {
    match v
    case Sequence(fields) =>
      forall i | 0 <= i < |fields| && fields[i].value.Some?
        ensures HeightAtMost(fields[i].value.value, k - 1)
      {
        HeightMonotone(fields[i].value.value, h - 1, k - 1);
      }
    case SequenceOf(items) =>
      forall i | 0 <= i < |items|
        ensures HeightAtMost(items[i], k - 1)
      {
        HeightMonotone(items[i], h - 1, k - 1);
      }
    case Choice(_, inner) => HeightMonotone(inner, h - 1, k - 1);
    case _ =>
  }

  /**
   On every input, a value parsed at `depth` leaves a strict suffix of the input and has a height of at
   most `HeightLimit(depth)`; at the outermost depth that is 129.
   */
  lemma {:induction false} ValueBounds(s: string, depth: nat)
    requires ParseValue(s, depth).Ok?
    ensures IsSuffix(ParseValue(s, depth).rest, s) && |ParseValue(s, depth).rest| < |s|
    ensures depth <= MAX_DEPTH && HeightAtMost(ParseValue(s, depth).value, HeightLimit(depth))
    decreases |s|, 3
  {
    hide HexOrBin, QuotedString, Number, ParseBrace, ParseWord, IsSuffix, HeightAtMost, Span;
    var t := SkipSpace(s);
    var r := ParseValue(s, depth);
    LeafBounds(t);
    if HexOrBin(t) == r || QuotedString(t) == r || Number(t) == r {
      HeightMonotone(r.value, 0, HeightLimit(depth));
    } else if ParseBrace(t, depth + 1) == r {
      BraceBounds(t, depth + 1);
    } else {
      WordBounds(t, depth);
    }
    DropSuffix(s, Span(IsSpace, s), r.rest);
  }

  lemma {:induction false} WordBounds(s: string, depth: nat)
    requires ParseWord(s, depth).Ok? && depth <= MAX_DEPTH
    ensures IsSuffix(ParseWord(s, depth).rest, s)
    ensures HeightAtMost(ParseWord(s, depth).value, HeightLimit(depth))
    decreases |s|, 2
  {
    hide ParseItems, IsSuffix, Span;
    hide ParseValue, IsSuffix, IdLength, SkipSpace;
    var n := IdLength(s);
    Drop(s, n);
    var after := SkipSpace(s[n..]);
    if StartsWith(after, ':') {
      ValueBounds(after[1..], depth + 1);
      var r := ParseValue(after[1..], depth + 1);
      HeightMonotone(r.value, HeightLimit(depth + 1), HeightLimit(depth) - 1);
      AfterWord(s, n, 1, r.rest);
    }
  }

  /** What follows an identifier, the space after it and `k` more characters. */
  lemma AfterWord(s: string, n: nat, k: nat, rest: string)
    requires n <= |s| && k <= |SkipSpace(s[n..])|
    requires IsSuffix(rest, SkipSpace(s[n..])[k..])
    ensures IsSuffix(rest, s)
  {
    var m := Span(IsSpace, s[n..]);
    assert SkipSpace(s[n..])[k..] == s[n + m + k..];
    DropSuffix(s, n + m + k, rest);
  }

  /** Items stand one level below their brace; `depth` is the depth of the items. */
  lemma {:induction false} ItemBounds(s: string, depth: nat)
    requires ParseItem(s, depth).Ok? && depth <= MAX_DEPTH + 1
    ensures IsSuffix(ParseItem(s, depth).rest, s)
    ensures ItemHeight(ParseItem(s, depth).value, HeightLimit(depth) + 1)
    decreases |s|, 4
  {
    hide ParseValue, IsSuffix, IdLength, SkipSpace;
    var n := IdLength(s);
    Drop(s, n);
    var limit := HeightLimit(depth);
    if n == 0 {
      ValueBounds(s, depth);
      HeightMonotone(ParseValue(s, depth).value, limit, limit + 1);
    } else {
      var after := SkipSpace(s[n..]);
      if StartsWith(after, ':') {
        ValueBounds(after[1..], depth);
        AfterWord(s, n, 1, ParseValue(after[1..], depth).rest);
      } else if !StartsWith(after, ',') && !StartsWith(after, '}') {
        ValueBounds(after, depth);
        var r := ParseValue(after, depth);
        HeightMonotone(r.value, limit, limit + 1);
        assert after[0..] == after;
        AfterWord(s, n, 0, r.rest);
      }
    }
  }

  lemma {:induction false} ItemsBounds(s: string, depth: nat, items: seq<BraceItem>)
    requires ParseItems(s, depth, items).Ok? && depth <= MAX_DEPTH + 1
    requires forall i :: 0 <= i < |items| ==> ItemHeight(items[i], HeightLimit(depth) + 1)
    ensures IsSuffix(ParseItems(s, depth, items).rest, s)
    ensures var all := ParseItems(s, depth, items).value;
            all != [] && forall i :: 0 <= i < |all| ==> ItemHeight(all[i], HeightLimit(depth) + 1)
    decreases |s|, 5
  {
    hide ParseValue, ParseItem, IsSuffix, Span, HeightAtMost;
    ItemBounds(SkipSpace(s), depth);
    var r := ParseItem(SkipSpace(s), depth);
    var all := items + [r.value];
    DropSuffix(s, Span(IsSpace, s), r.rest);
    var n := Span(IsSpace, r.rest);
    var t := r.rest[n..];
    SuffixTrans(t, r.rest, s);
    var end := ParseItems(s, depth, items).rest;
    if StartsWith(t, '}') {
      SuffixTrans(t[1..], t, s);
    } else if StartsWith(t, ',') {
      ItemsBounds(t[1..], depth, all);
      SuffixTrans(t[1..], t, s);
      SuffixTrans(end, t[1..], s);
    } else {
      ItemsBounds(t, depth, all);
      SuffixTrans(end, t, s);
    }
  }

  lemma EmptyHeight(h: int)
    ensures HeightAtMost(SequenceOf([]), h)
  {
  }

  lemma AssembledHeight(items: seq<BraceItem>, rest: string, h: int)
    requires items != [] && h >= 0 && Assemble(items, rest).Ok?
    requires forall i :: 0 <= i < |items| ==> ItemHeight(items[i], h)
    ensures HeightAtMost(Assemble(items, rest).value, h + 1)
  {
  }

  lemma {:induction false} BraceBounds(s: string, depth: nat)
    requires ParseBrace(s, depth).Ok? && 1 <= depth <= MAX_DEPTH + 1
    ensures IsSuffix(ParseBrace(s, depth).rest, s)
    ensures HeightAtMost(ParseBrace(s, depth).value, HeightLimit(depth - 1))
    decreases |s|, 2
  {
    hide ParseItems, IsSuffix, Span, HeightAtMost;
    var n := Span(IsSpace, s[1..]);
    var t := SkipSpace(s[1..]);
    assert t == s[1 + n..];
    if StartsWith(t, '}') {
      Drop(s, 2 + n);
      EmptyHeight(HeightLimit(depth - 1));
    } else {
      ItemsBounds(t, depth, []);
      var items := ParseItems(t, depth, []);
      DropSuffix(s, 1 + n, items.rest);
      AssembledHeight(items.value, items.rest, HeightLimit(depth) + 1);
    }
  }
}
