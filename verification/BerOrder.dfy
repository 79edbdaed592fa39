/** The canonical orders of SET OF elements (X.690 clause 11.6) and SET components (clause 10.3). */
module BerOrder {
  import opened Common

  // ----- Sorted sequences -----

  ghost predicate SortedBy<T(!new)>(s: seq<T>, leq: (T, T) -> bool) {
    forall i, j :: 0 <= i < j < |s| ==> leq(s[i], s[j])
  }

  /** The order decides between any two different elements of `s`. */
  ghost predicate Decisive<T(!new)>(s: seq<T>, leq: (T, T) -> bool) {
    forall x, y :: x in s && y in s && leq(x, y) && leq(y, x) ==> x == y
  }

  /** There is one way to arrange the same elements in order. */
  lemma {:induction false} OneOrder<T(!new)>(a: seq<T>, b: seq<T>, leq: (T, T) -> bool)
    requires SortedBy(a, leq) && SortedBy(b, leq) && multiset(a) == multiset(b) && Decisive(a, leq)
    ensures a == b
  {
    hide SortedBy, Decisive;
    assert |multiset(a)| == |a| && |multiset(b)| == |b|;
    if a != [] {
      SameHead(a, b, leq);
      Tail(a, leq);
      Tail(b, leq);
      TailDecisive(a, leq);
      OneOrder(a[1..], b[1..], leq);
    }
  }

  lemma Tail<T(!new)>(s: seq<T>, leq: (T, T) -> bool)
    requires s != [] && SortedBy(s, leq)
    ensures s == [s[0]] + s[1..] && SortedBy(s[1..], leq) && multiset(s[1..]) == multiset(s) - multiset{s[0]}
  {
    assert s == [s[0]] + s[1..];
    assert multiset(s) == multiset{s[0]} + multiset(s[1..]);
  }

  lemma TailDecisive<T(!new)>(s: seq<T>, leq: (T, T) -> bool)
    requires s != [] && Decisive(s, leq)
    ensures Decisive(s[1..], leq)
  {
    assert forall x :: x in s[1..] ==> x in s;
  }

  lemma SortedCons<T(!new)>(x: T, s: seq<T>, leq: (T, T) -> bool)
    requires SortedBy(s, leq) && forall y :: y in s ==> leq(x, y)
    ensures SortedBy([x] + s, leq)
  {
    var r := [x] + s;
    forall i, j | 0 <= i < j < |r|
      ensures leq(r[i], r[j])
    {
      assert r[j] == s[j - 1];
    }
  }

  lemma SameHead<T(!new)>(a: seq<T>, b: seq<T>, leq: (T, T) -> bool)
    requires a != [] && b != []
    requires SortedBy(a, leq) && SortedBy(b, leq) && multiset(a) == multiset(b) && Decisive(a, leq)
    ensures a[0] == b[0]
  {
    assert a[0] in multiset(b) && b[0] in multiset(a);
    var j :| 0 <= j < |b| && b[j] == a[0];
    var i :| 0 <= i < |a| && a[i] == b[0];
    if i > 0 && j > 0 {
      assert leq(a[0], a[i]) && leq(b[0], b[j]);
      assert a[0] in a && a[i] in a;
    }
  }

  function Map<S, T>(s: seq<S>, f: S -> T): (r: seq<T>)
    ensures |r| == |s| && forall i :: 0 <= i < |s| ==> r[i] == f(s[i])
  {
    seq(|s|, i requires 0 <= i < |s| => f(s[i]))
  }

  function Without<T>(s: seq<T>, j: nat): seq<T>
    requires j < |s|
  {
    s[..j] + s[j + 1..]
  }

  lemma WithoutElements<T>(s: seq<T>, j: nat)
    requires j < |s|
    ensures multiset(s) == multiset{s[j]} + multiset(Without(s, j))
  {
    var left, right := s[..j], s[j + 1..];
    assert s == left + ([s[j]] + right);
    assert multiset(s) == multiset(left) + (multiset{s[j]} + multiset(right));
  }

  lemma Cancel<T>(x: T, a: multiset<T>, b: multiset<T>)
    requires multiset{x} + a == multiset{x} + b
    ensures a == b
  {
    assert a == (multiset{x} + a) - multiset{x};
    assert b == (multiset{x} + b) - multiset{x};
  }

  lemma MapWithout<S, T>(s: seq<S>, j: nat, f: S -> T)
    requires j < |s|
    ensures Map(Without(s, j), f) == Without(Map(s, f), j)
  {
  }

  /** Mapping a permutation gives a permutation. */
  lemma {:induction false} MapPermutation<S, T>(a: seq<S>, b: seq<S>, f: S -> T)
    requires multiset(a) == multiset(b)
    ensures multiset(Map(a, f)) == multiset(Map(b, f))
    decreases |a|
  {
    hide Without;
    assert |multiset(a)| == |a| && |multiset(b)| == |b|;
    if a != [] {
      var j := Position(a, b);
      MapPermutation(Without(a, 0), Without(b, j), f);
      MapWithout(a, 0, f);
      MapWithout(b, j, f);
      WithoutElements(Map(a, f), 0);
      WithoutElements(Map(b, f), j);
    }
  }

  /** Where the first element of `a` is in its permutation `b`; the others are a permutation as well. */
  lemma Position<T>(a: seq<T>, b: seq<T>) returns (j: nat)
    requires a != [] && multiset(a) == multiset(b)
    ensures j < |b| && b[j] == a[0] && multiset(Without(a, 0)) == multiset(Without(b, j)) && |Without(a, 0)| < |a|
  {
    assert a[0] in multiset(b);
    j :| 0 <= j < |b| && b[j] == a[0];
    WithoutElements(a, 0);
    WithoutElements(b, j);
    Cancel(a[0], multiset(Without(a, 0)), multiset(Without(b, j)));
  }

  // ----- SET OF -----

  datatype Ordering = Less | Equal | Greater

  /** Lexicographic order, a proper prefix being less. */
  function Compare(a: Bytes, b: Bytes): Ordering {
    if a == [] then if b == [] then Equal else Less
    else if b == [] then Greater
    else if a[0] < b[0] then Less
    else if a[0] > b[0] then Greater
    else Compare(a[1..], b[1..])
  }

  method OctetStringAscending(a: Bytes, b: Bytes) returns (o: Ordering)
    ensures o == Compare(a, b)
  {
    var n := Min(|b|, |a|);
    assert a[0..] == a && b[0..] == b;
    for i := 0 to n
      invariant Compare(a, b) == Compare(a[i..], b[i..])
    {
      assert a[i..][1..] == a[i + 1..] && b[i..][1..] == b[i + 1..];
      if a[i] < b[i] {
        return Less;
      } else if a[i] > b[i] {
        return Greater;
      }
    }
    if |a| < |b| {
      return Less;
    } else if |a| > |b| {
      return Greater;
    }
    return Equal;
  }

  predicate Leq(a: Bytes, b: Bytes) {
    Compare(a, b) != Greater
  }

  lemma {:induction false} CompareEqual(a: Bytes, b: Bytes)
    ensures Compare(a, b) == Equal <==> a == b
  {
    if a != [] && b != [] {
      CompareEqual(a[1..], b[1..]);
      assert a == [a[0]] + a[1..] && b == [b[0]] + b[1..];
    }
  }

  lemma {:induction false} CompareFlip(a: Bytes, b: Bytes)
    ensures Compare(a, b) == Less <==> Compare(b, a) == Greater
  {
    if a != [] && b != [] {
      CompareFlip(a[1..], b[1..]);
    }
  }

  lemma {:induction false} LeqTransitive(a: Bytes, b: Bytes, c: Bytes)
    requires Leq(a, b) && Leq(b, c)
    ensures Leq(a, c)
  {
    if a != [] && b != [] && c != [] && a[0] == b[0] == c[0] {
      LeqTransitive(a[1..], b[1..], c[1..]);
    }
  }

  lemma LeqAntisymmetric(a: Bytes, b: Bytes)
    requires Leq(a, b) && Leq(b, a)
    ensures a == b
  {
    CompareEqual(a, b);
    CompareFlip(a, b);
    CompareFlip(b, a);
  }

  lemma LeqTotal(a: Bytes, b: Bytes)
    ensures Leq(a, b) || Leq(b, a)
  {
    CompareFlip(a, b);
    CompareFlip(b, a);
  }

  function InsertSorted(x: Bytes, s: seq<Bytes>): seq<Bytes> {
    if s == [] || Leq(x, s[0]) then [x] + s else [s[0]] + InsertSorted(x, s[1..])
  }

  /** The elements in ascending order. */
  function Sort(s: seq<Bytes>): seq<Bytes> {
    if s == [] then [] else InsertSorted(s[0], Sort(s[1..]))
  }

  lemma {:induction false} InsertSortedElements(x: Bytes, s: seq<Bytes>)
    ensures multiset(InsertSorted(x, s)) == multiset{x} + multiset(s)
    ensures forall y :: y in InsertSorted(x, s) ==> y == x || y in s
  {
    hide Leq;
    if s != [] && !Leq(x, s[0]) {
      InsertSortedElements(x, s[1..]);
      assert s == [s[0]] + s[1..];
    }
  }

  lemma {:induction false} InsertSortedKeeps(x: Bytes, s: seq<Bytes>)
    requires SortedBy(s, Leq)
    ensures SortedBy(InsertSorted(x, s), Leq)
  {
    hide Leq, SortedBy;
    if s == [] {
      SortedCons(x, s, Leq);
    } else {
      Tail(s, Leq);
      Least(s);
      LeqTotal(x, s[0]);
      if Leq(x, s[0]) {
        forall y | y in s
          ensures Leq(x, y)
        {
          LeqTransitive(x, s[0], y);
        }
        SortedCons(x, s, Leq);
      } else {
        InsertSortedKeeps(x, s[1..]);
        InsertSortedElements(x, s[1..]);
        SortedCons(s[0], InsertSorted(x, s[1..]), Leq);
      }
    }
  }

  lemma Least(s: seq<Bytes>)
    requires s != [] && SortedBy(s, Leq)
    ensures forall y :: y in s ==> Leq(s[0], y)
  {
    hide Leq;
    LeqTotal(s[0], s[0]);
  }

  lemma {:induction false} SortKeeps(s: seq<Bytes>)
    ensures SortedBy(Sort(s), Leq) && multiset(Sort(s)) == multiset(s)
  {
    if s != [] {
      SortKeeps(s[1..]);
      InsertSortedKeeps(s[0], Sort(s[1..]));
      InsertSortedElements(s[0], Sort(s[1..]));
      assert s == [s[0]] + s[1..];
    }
  }

  /**
   SET OF is canonical: whatever the order of the elements, and whatever the sorting algorithm, the
   same element encodings give the same contents.
   */
  lemma SetOfCanonical(a: seq<Bytes>, b: seq<Bytes>, sorted: seq<Bytes>)
    requires multiset(a) == multiset(b)
    requires SortedBy(sorted, Leq) && multiset(sorted) == multiset(b)
    ensures sorted == Sort(a) && Flatten(Sort(a)) == Flatten(Sort(b)) == Flatten(sorted)
  {
    hide Sort, Leq;
    SortKeeps(a);
    SortKeeps(b);
    forall x, y | x in Sort(a) && y in Sort(a) && Leq(x, y) && Leq(y, x)
      ensures x == y
    {
      LeqAntisymmetric(x, y);
    }
    OneOrder(Sort(a), Sort(b), Leq);
    OneOrder(Sort(a), sorted, Leq);
  }

  /** An octet of `a`, padded with zeros. */
  function PaddedAt(a: Bytes, i: nat): Byte {
    if i < |a| then a[i] else 0
  }

  /** The order of clause 11.6: the shorter string is compared as if padded with zeros. */
  ghost predicate PaddedLeq(a: Bytes, b: Bytes) {
    forall i: nat :: (forall j: nat :: j < i ==> PaddedAt(a, j) == PaddedAt(b, j)) ==> PaddedAt(a, i) <= PaddedAt(b, i)
  }

  /** The code compares by prefix and then length, which implies the order with padding. */
  lemma {:induction false} LeqPadded(a: Bytes, b: Bytes)
    requires Leq(a, b)
    ensures PaddedLeq(a, b)
  {
    forall i: nat | forall j: nat :: j < i ==> PaddedAt(a, j) == PaddedAt(b, j)
      ensures PaddedAt(a, i) <= PaddedAt(b, i)
    {
      LeqPaddedAt(a, b, i);
    }
  }

  lemma {:induction false} LeqPaddedAt(a: Bytes, b: Bytes, i: nat)
    requires Leq(a, b) && forall j: nat :: j < i ==> PaddedAt(a, j) == PaddedAt(b, j)
    ensures PaddedAt(a, i) <= PaddedAt(b, i)
  {
    if a != [] && b != [] && i > 0 {
      assert PaddedAt(a, 0) == PaddedAt(b, 0);
      forall j: nat | j < i - 1
        ensures PaddedAt(a[1..], j) == PaddedAt(b[1..], j)
      {
        assert PaddedAt(a, j + 1) == PaddedAt(b, j + 1);
      }
      LeqPaddedAt(a[1..], b[1..], i - 1);
    }
  }

  /** Strings that the padded order does not tell apart differ in trailing zeros only. */
  lemma {:induction false} PaddedTies(a: Bytes, b: Bytes)
    requires PaddedLeq(a, b) && PaddedLeq(b, a)
    ensures forall i: nat :: PaddedAt(a, i) == PaddedAt(b, i)
  {
    forall i: nat
      ensures PaddedAt(a, i) == PaddedAt(b, i)
    {
      PaddedTiesAt(a, b, i);
    }
  }

  lemma {:induction false} PaddedTiesAt(a: Bytes, b: Bytes, i: nat)
    requires PaddedLeq(a, b) && PaddedLeq(b, a)
    ensures forall j: nat :: j <= i ==> PaddedAt(a, j) == PaddedAt(b, j)
    decreases i
  {
    if i > 0 {
      PaddedTiesAt(a, b, i - 1);
    }
  }

  /** The elements of every SET OF ascend in the padded order. */
  lemma SetOfAscends(s: seq<Bytes>)
    ensures forall i, j :: 0 <= i < j < |Sort(s)| ==> PaddedLeq(Sort(s)[i], Sort(s)[j])
  {
    hide Sort, PaddedLeq;
    SortKeeps(s);
    forall i, j | 0 <= i < j < |Sort(s)|
      ensures PaddedLeq(Sort(s)[i], Sort(s)[j])
    {
      assert Leq(Sort(s)[i], Sort(s)[j]);
      LeqPadded(Sort(s)[i], Sort(s)[j]);
    }
  }

  // ----- SET -----

  /** A component of a SET: its tag and its encoding. */
  datatype Entry = Entry(tag: Tag, bytes: Bytes)

  predicate EntryLeq(a: Entry, b: Entry) {
    !TagLess(b.tag, a.tag)
  }

  /** An ordered map as the list of its entries. */
  ghost predicate Ascending(m: seq<Entry>) {
    forall i, j :: 0 <= i < j < |m| ==> TagLess(m[i].tag, m[j].tag)
  }

  /** Adds an entry, or replaces the one with the same tag. */
  function Insert(m: seq<Entry>, e: Entry): seq<Entry> {
    if m == [] || TagLess(e.tag, m[0].tag) then [e] + m
    else if e.tag == m[0].tag then [e] + m[1..]
    else [m[0]] + Insert(m[1..], e)
  }

  /** A later entry replaces an earlier one with its tag. */
  lemma {:induction false} InsertTwice(m: seq<Entry>, a: Entry, b: Entry)
    requires a.tag == b.tag
    ensures Insert(Insert(m, a), b) == Insert(m, b)
  {
    hide TagLess;
    LessIrreflexive(a.tag);
    if m == [] || TagLess(a.tag, m[0].tag) {
      assert ([a] + m)[1..] == m;
    } else if a.tag == m[0].tag {
      assert ([a] + m[1..])[1..] == m[1..];
    } else {
      InsertTwice(m[1..], a, b);
      assert ([m[0]] + Insert(m[1..], a))[1..] == Insert(m[1..], a);
    }
  }

  lemma LessIrreflexive(tag: Tag)
    ensures !TagLess(tag, tag)
  {
  }

  ghost predicate HasTag(m: seq<Entry>, tag: Tag) {
    exists i :: 0 <= i < |m| && m[i].tag == tag
  }

  lemma {:induction false} InsertElements(m: seq<Entry>, e: Entry)
    ensures e in Insert(m, e) && forall x :: x in Insert(m, e) ==> x == e || x in m
    ensures !HasTag(m, e.tag) ==> multiset(Insert(m, e)) == multiset(m) + multiset{e}
  {
    hide TagLess;
    if m != [] && !TagLess(e.tag, m[0].tag) {
      assert m == [m[0]] + m[1..];
      if e.tag == m[0].tag {
        assert HasTag(m, e.tag);
      } else {
        InsertElements(m[1..], e);
        assert HasTag(m[1..], e.tag) ==> HasTag(m, e.tag) by {
          assert forall i :: 0 <= i < |m[1..]| ==> m[1..][i] == m[i + 1];
        }
      }
    }
  }

  lemma AscendingCons(e: Entry, m: seq<Entry>)
    requires Ascending(m) && forall x :: x in m ==> TagLess(e.tag, x.tag)
    ensures Ascending([e] + m)
  {
    hide TagLess;
    var r := [e] + m;
    forall i, j | 0 <= i < j < |r|
      ensures TagLess(r[i].tag, r[j].tag)
    {
      assert r[j] == m[j - 1];
    }
  }

  lemma AscendingTail(m: seq<Entry>)
    requires Ascending(m) && m != []
    ensures Ascending(m[1..]) && forall x :: x in m[1..] ==> TagLess(m[0].tag, x.tag)
  {
    hide TagLess;
  }

  lemma {:induction false} InsertAscending(m: seq<Entry>, e: Entry)
    requires Ascending(m)
    ensures Ascending(Insert(m, e))
  {
    hide Ascending;
    if m == [] {
      AscendingCons(e, m);
    } else {
      AscendingTail(m);
      assert m == [m[0]] + m[1..];
      if TagLess(e.tag, m[0].tag) {
        AscendingCons(e, m);
      } else if e.tag == m[0].tag {
        AscendingCons(e, m[1..]);
      } else {
        InsertAscending(m[1..], e);
        InsertElements(m[1..], e);
        AscendingCons(m[0], Insert(m[1..], e));
      }
    }
  }

  /** The map after the components were written one after the other. */
  function Collected(fields: seq<Entry>): seq<Entry> {
    if fields == [] then [] else Insert(Collected(fields[..|fields| - 1]), fields[|fields| - 1])
  }

  ghost predicate DistinctTags(fields: seq<Entry>) {
    forall i, j :: 0 <= i < j < |fields| ==> fields[i].tag != fields[j].tag
  }

  lemma WithoutDistinct(a: seq<Entry>, j: nat)
    requires DistinctTags(a) && j < |a|
    ensures DistinctTags(Without(a, j)) && forall x :: x in Without(a, j) ==> x.tag != a[j].tag
  {
    var others := Without(a, j);
    forall i | 0 <= i < |others|
      ensures others[i] == a[if i < j then i else i + 1]
    {
    }
  }

  lemma DistinctCons(e: Entry, s: seq<Entry>)
    requires DistinctTags(s) && forall x :: x in s ==> x.tag != e.tag
    ensures DistinctTags([e] + s)
  {
  }

  lemma {:induction false} SameTags(a: seq<Entry>, b: seq<Entry>)
    requires DistinctTags(a) && multiset(a) == multiset(b)
    ensures DistinctTags(b)
    decreases |b|
  {
    hide Without;
    if b == [] {
      assert |a| == |multiset(a)|;
    } else {
      var j := Position(b, a);
      WithoutDistinct(a, j);
      var others := Without(b, 0);
      SameTags(Without(a, j), others);
      forall x | x in others
        ensures x.tag != b[0].tag
      {
        assert x in multiset(others);
        assert x in Without(a, j);
      }
      DistinctCons(b[0], others);
      WithoutFirst(b);
    }
  }

  lemma WithoutFirst<T>(s: seq<T>)
    requires s != []
    ensures [s[0]] + Without(s, 0) == s
  {
  }

  /** The map holds each component once, in ascending order of the tags. */
  lemma {:induction false} CollectedKeeps(fields: seq<Entry>)
    requires DistinctTags(fields)
    ensures Ascending(Collected(fields)) && multiset(Collected(fields)) == multiset(fields)
  {
    if fields != [] {
      var front, last := fields[..|fields| - 1], fields[|fields| - 1];
      assert fields == front + [last];
      CollectedKeeps(front);
      var m := Collected(front);
      forall i | 0 <= i < |m|
        ensures m[i].tag != last.tag
      {
        assert m[i] in multiset(m);
        assert m[i] in front;
      }
      InsertAscending(m, last);
      InsertElements(m, last);
    }
  }

  lemma AscendingDecisive(m: seq<Entry>)
    requires Ascending(m)
    ensures SortedBy(m, EntryLeq) && Decisive(m, EntryLeq)
  {
    forall x, y | x in m && y in m && EntryLeq(x, y) && EntryLeq(y, x)
      ensures x == y
    {
      var i :| 0 <= i < |m| && m[i] == x;
      var j :| 0 <= j < |m| && m[j] == y;
    }
  }

  /** A SET has one encoding whatever order its components, with distinct tags, are written in. */
  lemma SetOrder(a: seq<Entry>, b: seq<Entry>)
    requires DistinctTags(a) && DistinctTags(b) && multiset(a) == multiset(b)
    ensures Collected(a) == Collected(b)
  {
    hide Collected, Ascending;
    CollectedKeeps(a);
    CollectedKeeps(b);
    AscendingDecisive(Collected(a));
    AscendingDecisive(Collected(b));
    OneOrder(Collected(a), Collected(b), EntryLeq);
  }

  /** The entries' encodings in order. */
  function Values(m: seq<Entry>): Bytes {
    if m == [] then [] else m[0].bytes + Values(m[1..])
  }
}
