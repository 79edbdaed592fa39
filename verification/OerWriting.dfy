/**
 What the OER encoder writes, as rules (X.696) stated without the encoder: each rule says of octets `b` that
 they are the encoding of a value. The encoder writes exactly what the rules allow, and there is at most one
 such encoding.
 */
module OerWriting {
  import opened Common
  import opened Bits
  import opened BigEndian
  import opened Positional
  import opened Decoding
  import opened OerTypes
  import opened OerTag
  import opened OerEncode
  import opened OerReading

  // ----- Integers, lengths and tags -----

  /** The shortest unsigned form. */
  predicate ShortestBig(c: Bytes, i: int) {
    c != [] && i == Big(c) && (|c| > 1 ==> c[0] != 0)
  }

  /** The shortest two's complement form: the first octet is not a copy of the sign. */
  predicate ShortestTwo(c: Bytes, i: int) {
    c != [] && i == Two(c) && (|c| > 1 ==> !(c[0] == 0 && c[1] < 128) && !(c[0] == 255 && c[1] >= 128))
  }

  /** Octets `c` behind their length in its shortest form. */
  ghost predicate Opened(c: Bytes, b: Bytes) {
    exists l: Bytes :: IsLength(l, |c|, true) && b == l + c
  }

  /** The written number has the binary digits of `n`, of which there are `k`, in the reverse order. */
  predicate Reversed(n: nat, m: nat, k: nat) {
    k > 0 && TwoTo(k - 1) <= n < TwoTo(k) && m < TwoTo(k) &&
    forall j :: 0 <= j < k ==> m / TwoTo(j) % 2 == n / TwoTo(k - 1 - j) % 2
  }

  ghost predicate TagWritten(tag: Tag, b: Bytes) {
    if tag.value < 63 then b == [64 * tag.cls + tag.value]
    else
      && b != [] && b[0] == 64 * tag.cls + 63
      && var g := b[1..];
         && g != [] && g[|g| - 1] < 128 && (forall i :: 0 <= i < |g| - 1 ==> g[i] >= 128)
         && exists k: nat :: Reversed(tag.value, Septal(g), k) && |g| == k / 7 + 1
  }

  ghost predicate IntegerWritten(i: int, bounds: Option<Bounds>, extensible: bool, b: Bytes) {
    var start := if bounds.Some? then bounds.value.start else None;
    var end := if bounds.Some? then bounds.value.end else None;
    var signed := extensible || start.None? || start.value < 0;
    var width := if !extensible && start.Some? && end.Some? then FixedWidth(start.value, end.value) else None;
    && (extensible || ((start.Some? ==> start.value <= i) && (end.Some? ==> i <= end.value)))
    && if width.Some? then |b| == width.value && i == if signed then Two(b) else Big(b)
       else exists c: Bytes :: Opened(c, b) && if signed then ShortestTwo(c, i) else ShortestBig(c, i)
  }

  // ----- Strings -----

  ghost predicate OctetsWritten(octets: Bytes, size: Size, b: Bytes) {
    match size
    case Fixed(n) => |octets| == n && b == octets
    case AnySize => |octets| <= 0x1FFF_FFFF_FFFF_FFFF && Opened(octets, b)
    case Ranged(least, most) => least <= |octets| <= most && |octets| <= 0x1FFF_FFFF_FFFF_FFFF && Opened(octets, b)
  }

  /** The same behind the number of those zeros. */
  predicate CountedIn(bits: seq<bool>, c: Bytes) {
    c != [] && c[0] == 8 * (|c| - 1) - |bits| && PackedIn(bits, c[1..])
  }

  ghost predicate BitsWritten(bits: seq<bool>, size: Size, b: Bytes) {
    if size.Fixed? then |bits| == size.n && PackedIn(bits, b)
    else |bits| <= 0x1FFF_FFFF_FFFF_FFFF && exists c: Bytes :: Opened(c, b) && CountedIn(bits, c)
  }

  predicate DiscriminantWritten(d: int, b: Bytes) {
    if 0 <= d < 128 then b == [d] else 2 <= |b| <= 128 && b[0] == 127 + |b| && ShortestTwo(b[1..], d)
  }

  // ----- Constructed values -----

  /** A root component that takes octets: present, and not at its DEFAULT. */
  predicate IsWritten(c: Component, field: Option<Value>) {
    field.Some? && (c.presence.Default? ==> field.value != c.presence.value)
  }

  /** One bit for each OPTIONAL or DEFAULT component, in order. */
  function PresenceOf(components: seq<Component>, fields: seq<Option<Value>>): seq<bool>
    requires |fields| == |components|
  {
    if components == [] then []
    else
      (if components[0].presence.Required? then [] else [IsWritten(components[0], fields[0])]) +
      PresenceOf(components[1..], fields[1..])
  }

  predicate SomeAddition(fields: seq<Option<Value>>) {
    exists i :: 0 <= i < |fields| && fields[i] != None
  }

  function Presences(fields: seq<Option<Value>>): seq<bool> {
    if fields == [] then [] else [fields[0] != None] + Presences(fields[1..])
  }

  ghost predicate Writes(ty: Type, v: Value, b: Bytes)
    requires Encodable(v, ty)
    decreases ty, 1, 0
  {
    match ty
    case BooleanType => b == if v.b then [255] else [0]
    case NullType => b == []
    case IntegerType(bounds, extensible) => IntegerWritten(v.i, bounds, extensible, b)
    case OctetStringType(size) => OctetsWritten(v.octets, size, b)
    case BitStringType(size) => BitsWritten(v.bits, size, b)
    case EnumeratedType(discriminants) => DiscriminantWritten(discriminants[v.index], b)
    case SequenceType(_, _, _) =>
      exists p: Bytes, r: Bytes, x: Bytes :: b == p + (r + x) && SequenceWritten(ty, v, p, r, x)
    case SequenceOfType(element) =>
      exists q: Bytes, n: Bytes, z: Bytes ::
        b == n + z && Opened(q, n) && ShortestBig(q, |v.items|) && |q| <= 8 && ItemsWritten(element, v.items, z)
    case ChoiceType(alternatives) =>
      exists p: Bytes, z: Bytes ::
        b == p + z && TagWritten(alternatives[v.chosen].tag, p) && AlternativeWritten(alternatives[v.chosen], v.inner, z)
  }

  ghost predicate AlternativeWritten(a: Alternative, v: Value, b: Bytes)
    requires Encodable(v, a.ty)
    decreases a, 0, 0
  {
    if a.extension then OpenWritten(a.ty, v, b) else Writes(a.ty, v, b)
  }

  /** A value as an open type. */
  ghost predicate OpenWritten(ty: Type, v: Value, b: Bytes)
    requires Encodable(v, ty)
    decreases ty, 2, 0
  {
    exists c: Bytes :: Writes(ty, v, c) && Opened(c, b)
  }

  ghost predicate ItemsWritten(element: Type, items: seq<Value>, b: Bytes)
    requires WellFormed(element) && forall i :: 0 <= i < |items| ==> Matches(items[i], element)
    decreases element, 2, |items|, 1
  {
    if items == [] then b == []
    else exists a: Bytes, z: Bytes :: b == a + z && ItemThen(element, items, a, z)
  }

  ghost predicate ItemThen(element: Type, items: seq<Value>, a: Bytes, z: Bytes)
    requires WellFormed(element) && (forall i :: 0 <= i < |items| ==> Matches(items[i], element)) && items != []
    decreases element, 2, |items|, 0
  {
    Writes(element, items[0], a) && ItemsWritten(element, items[1..], z)
  }

  /** The preamble `p`, the root `r`, and if there are additions a bitmap and the additions `x`. */
  ghost predicate SequenceWritten(ty: Type, v: Value, p: Bytes, r: Bytes, x: Bytes)
    requires ty.SequenceType? && Encodable(v, ty)
    decreases ty, 0, 1
  {
    FieldsLength(v.root, ty.root);
    && PackedIn((if ty.extensible then [SomeAddition(v.additions)] else []) + PresenceOf(ty.root, v.root), p)
    && FieldsWritten(ty.root, v.root, r)
    && if SomeAddition(v.additions) then exists m: Bytes, z: Bytes :: x == m + z && ExtensionWritten(ty, v, m, z) else x == []
  }

  ghost predicate ExtensionWritten(ty: Type, v: Value, m: Bytes, z: Bytes)
    requires ty.SequenceType? && Encodable(v, ty)
    decreases ty, 0, 0
  {
    (exists c: Bytes :: Opened(c, m) && CountedIn(Presences(v.additions), c)) && AdditionsWritten(ty.additions, v.additions, z)
  }

  ghost predicate FieldsWritten(components: seq<Component>, fields: seq<Option<Value>>, b: Bytes)
    requires FieldsEncodable(fields, components)
    decreases components, 1, 0
  {
    if components == [] then b == []
    else exists a: Bytes, z: Bytes :: b == a + z && FieldThen(components, fields, a, z)
  }

  ghost predicate FieldThen(components: seq<Component>, fields: seq<Option<Value>>, a: Bytes, z: Bytes)
    requires FieldsEncodable(fields, components) && components != []
    decreases components, 0, 0
  {
    FieldWritten(components[0], fields[0], a) && FieldsWritten(components[1..], fields[1..], z)
  }

  ghost predicate FieldWritten(c: Component, field: Option<Value>, b: Bytes)
    requires ComponentWellFormed(c) && FieldMatches(field, c)
    decreases c, 0, 0
  {
    if IsWritten(c, field) then Writes(c.ty, field.value, b) else b == []
  }

  /** Every addition that has a value is an open type, also at its DEFAULT. */
  ghost predicate AdditionsWritten(components: seq<Component>, fields: seq<Option<Value>>, b: Bytes)
    requires FieldsEncodable(fields, components)
    decreases components, 1, 0
  {
    if components == [] then b == []
    else exists a: Bytes, z: Bytes :: b == a + z && AdditionThen(components, fields, a, z)
  }

  ghost predicate AdditionThen(components: seq<Component>, fields: seq<Option<Value>>, a: Bytes, z: Bytes)
    requires FieldsEncodable(fields, components) && components != []
    decreases components, 0, 0
  {
    AdditionWritten(components[0], fields[0], a) && AdditionsWritten(components[1..], fields[1..], z)
  }

  ghost predicate AdditionWritten(c: Component, field: Option<Value>, b: Bytes)
    requires ComponentWellFormed(c) && FieldMatches(field, c)
    decreases c, 0, 0
  {
    if field.Some? then OpenWritten(c.ty, field.value, b) else b == []
  }

  // ----- The encoder's parts -----

  lemma {:induction false} BigShortest(c: Bytes, i: int)
    ensures ShortestBig(c, i) <==> i >= 0 && c == UnsignedBytes(i)
  {
    hide UnsignedBytes, UnsignedValue, Big;
    BigIs(c);
    if c != [] && (|c| > 1 ==> c[0] != 0) {
      UnsignedCanonical(c);
    }
    if i >= 0 {
      UnsignedRoundTrip(i);
      UnsignedLeads(i);
    }
  }

  lemma {:induction false} UnsignedLeads(n: nat)
    ensures |UnsignedBytes(n)| > 1 ==> UnsignedBytes(n)[0] != 0
  {
    if n >= 256 {
      UnsignedMinimal(n);
    }
  }

  /** A leading octet that only repeats the sign. */
  predicate Superfluous(c: Bytes) {
    |c| > 1 && ((c[0] == 0 && c[1] < 128) || (c[0] == 255 && c[1] >= 128))
  }

  lemma {:induction false} SignedNeeded(i: int)
    ensures !Superfluous(SignedBytes(i))
    decreases if i < 0 then -i else i
  {
    if !(-128 <= i < 128) {
      SignedNeeded(i / 256);
      if -128 <= i / 256 < 128 {
        assert SignedBytes(i) == [i / 256 % 256, i % 256];
      }
    }
  }

  lemma {:induction false} SignedKept(c: Bytes)
    requires c != [] && !Superfluous(c)
    ensures SignedBytes(SignedValue(c)) == c && (|c| > 1 ==> !(-128 <= SignedValue(c) < 128))
  {
    var i := SignedValue(c);
    if |c| == 1 {
      assert c == [c[0]];
    } else {
      var front, last := c[..|c| - 1], c[|c| - 1];
      SignedKept(front);
      assert c == front + [last];
      assert i / 256 == SignedValue(front) && i % 256 == last;
      if |c| == 2 {
        assert front == [c[0]];
      }
    }
  }

  lemma TwoShortest(c: Bytes, i: int)
    ensures ShortestTwo(c, i) <==> c == SignedBytes(i)
  {
    hide SignedBytes, SignedValue, Two;
    TwoIs(c);
    SignedRoundTrip(i);
    SignedNeeded(i);
    if c != [] && !Superfluous(c) {
      SignedKept(c);
    }
  }

  lemma EightAtMost(n: nat)
    ensures |UnsignedBytes(n)| <= 8 <==> n < 0x1_0000_0000_0000_0000
  {
    UsizeLength(n);
  }

  lemma LengthIs(l: Bytes, n: nat)
    ensures IsLength(l, n, true) <==> EncLength(n) == Some(l)
  {
    hide UnsignedBytes, Big;
    EightAtMost(n);
    if l != [] {
      BigShortest(l[1..], n);
      if |l| > 1 {
        assert l == [l[0]] + l[1..];
      }
    }
    if n >= 128 {
      var c := UnsignedBytes(n);
      BigShortest(c, n);
      UnsignedMinimal(n);
      assert |c| < 128 ==> ([128 + |c|] + c)[1..] == c;
    }
  }

  lemma OpenedIs(c: Bytes, b: Bytes)
    ensures Opened(c, b) <==> EncOpen(Some(c)) == Some(b)
  {
    hide IsLength, EncLength;
    if EncOpen(Some(c)) == Some(b) {
      LengthIs(EncLength(|c|).value, |c|);
    }
    if l: Bytes :| IsLength(l, |c|, true) && b == l + c {
      LengthIs(l, |c|);
    }
  }

  // ----- Tags -----

  lemma {:induction false} DigitsTo(n: nat, k: nat)
    requires n > 0 && k == |Digits(n)|
    ensures k > 0 && TwoTo(k - 1) <= n < TwoTo(k)
  {
    if n > 1 {
      DigitsTo(n / 2, k - 1);
    }
  }

  lemma {:induction false} DigitAt(n: nat, j: nat)
    requires j < |Digits(n)|
    ensures Digits(n)[j] == (n / TwoTo(j) % 2 == 1)
  {
    if j > 0 {
      DigitAt(n / 2, j - 1);
      var p := TwoTo(j - 1);
      Halves(n, p);
    }
  }

  lemma Halves(n: nat, p: nat)
    requires p > 0
    ensures n / (2 * p) == n / 2 / p
  {
    var q, r := n / 2 / p, n / 2 % p;
    assert n / 2 == p * q + r;
    assert n == 2 * p * q + (2 * r + n % 2);
    Divided(n, 2 * p, q, 2 * r + n % 2);
  }

  lemma Divided(n: nat, d: nat, q: nat, r: nat)
    requires d > 0 && n == d * q + r && r < d
    ensures n / d == q
  {
    var e := n / d - q;
    assert d * e == r - n % d;
    assert e > 0 ==> d * e >= d;
    assert e < 0 ==> d * e + d <= 0;
  }

  lemma {:induction false} NumberBelow(bits: seq<bool>)
    ensures Number(bits, 0) < TwoTo(|bits|)
  {
    if bits != [] {
      var front := bits[..|bits| - 1];
      NumberBelow(front);
      NumberLast(bits);
    }
  }

  lemma NumberLast(bits: seq<bool>)
    requires bits != []
    ensures Number(bits, 0) == 2 * Number(bits[..|bits| - 1], 0) + if bits[|bits| - 1] then 1 else 0
  {
    hide Number;
    var front, last := bits[..|bits| - 1], bits[|bits| - 1];
    assert bits == front + [last];
    NumberJoin(front, [last], 0);
    Digit(last, Number(front, 0));
  }

  /** The last bit weighs one. */
  lemma {:induction false} NumberBit(bits: seq<bool>, j: nat)
    requires j < |bits|
    ensures (Number(bits, 0) / TwoTo(j) % 2 == 1) == bits[|bits| - 1 - j]
  {
    hide Number;
    NumberLast(bits);
    if j > 0 {
      var front := bits[..|bits| - 1];
      NumberBit(front, j - 1);
      Halves(Number(bits, 0), TwoTo(j - 1));
      assert Number(bits, 0) / 2 == Number(front, 0);
    }
  }

  lemma MirrorReversed(n: nat)
    requires n > 0
    ensures Reversed(n, Mirror(n), |Digits(n)|)
  {
    hide Number, Digits, TwoTo;
    var bits := Digits(n);
    DigitsTo(n, |bits|);
    NumberBelow(bits);
    forall j | 0 <= j < |bits|
      ensures Mirror(n) / TwoTo(j) % 2 == n / TwoTo(|bits| - 1 - j) % 2
    {
      NumberBit(bits, j);
      DigitAt(n, |bits| - 1 - j);
    }
  }

  /** A number below 2 to the `k` is determined by its `k` binary digits. */
  lemma {:induction false} SameDigits(a: nat, b: nat, k: nat)
    requires a < TwoTo(k) && b < TwoTo(k) && forall j :: 0 <= j < k ==> a / TwoTo(j) % 2 == b / TwoTo(j) % 2
    ensures a == b
  {
    hide TwoTo;
    TwoToNext(0);
    if k > 0 {
      TwoToNext(k - 1);
      assert a / TwoTo(0) % 2 == b / TwoTo(0) % 2;
      forall j | 0 <= j < k - 1
        ensures a / 2 / TwoTo(j) % 2 == b / 2 / TwoTo(j) % 2
      {
        TwoToNext(j);
        Halves(a, TwoTo(j));
        Halves(b, TwoTo(j));
        assert a / TwoTo(j + 1) % 2 == b / TwoTo(j + 1) % 2;
      }
      SameDigits(a / 2, b / 2, k - 1);
    }
  }

  lemma TwoToNext(k: nat)
    ensures TwoTo(0) == 1 && TwoTo(k + 1) == 2 * TwoTo(k)
  {
  }

  lemma {:induction false} TwoToGrows(j: nat, k: nat)
    requires j <= k
    ensures TwoTo(j) <= TwoTo(k)
  {
    if j < k {
      TwoToGrows(j, k - 1);
    }
  }

  lemma ReversedOnce(n: nat, m: nat, k: nat)
    requires n > 0 && Reversed(n, m, k)
    ensures m == Mirror(n) && k == |Digits(n)|
  {
    hide Mirror, Digits, TwoTo;
    var d := |Digits(n)|;
    MirrorReversed(n);
    if k < d {
      TwoToGrows(k, d - 1);
    } else if d < k {
      TwoToGrows(d, k - 1);
    }
    forall j | 0 <= j < k
      ensures m / TwoTo(j) % 2 == Mirror(n) / TwoTo(j) % 2
    {
      assert m / TwoTo(j) % 2 == n / TwoTo(k - 1 - j) % 2;
    }
    SameDigits(m, Mirror(n), k);
  }

  lemma {:induction false} ContinuedIs(bits: seq<bool>)
    requires |bits| % 7 == 0
    ensures Septal(OerTag.Continued(bits)) == Number(bits, 0)
    ensures forall i :: 0 <= i < |OerTag.Continued(bits)| ==> OerTag.Continued(bits)[i] >= 128
    decreases |bits|
  {
    hide Number;
    if bits == [] {
      OerTag.Nothing(0);
    } else {
      var rest := |bits| - 7;
      ContinuedIs(bits[..rest]);
      Group(bits, 0);
      NumberBound(bits[rest..]);
      var c := OerTag.Continued(bits);
      assert c[..|c| - 1] == OerTag.Continued(bits[..rest]);
    }
  }

  lemma SeptetsIs(bits: seq<bool>)
    requires |bits| % 7 == 0 && bits != []
    ensures var g := Septets(bits);
            g != [] && g[|g| - 1] < 128 && (forall i :: 0 <= i < |g| - 1 ==> g[i] >= 128) && Septal(g) == Number(bits, 0)
  {
    hide Number, OerTag.Continued, PowerOfTwo, Septal, Septets;
    var rest := |bits| - 7;
    var front, last := bits[..rest], bits[rest..];
    ContinuedIs(front);
    Group(bits, 0);
    NumberBound(last);
    GroupsEnd(OerTag.Continued(front), Number(last, 0));
    SeptetsParts(bits);
  }

  lemma SeptetsParts(bits: seq<bool>)
    requires |bits| % 7 == 0 && bits != []
    ensures var rest := |bits| - 7;
            Number(bits[rest..], 0) < 128 && Septets(bits) == OerTag.Continued(bits[..rest]) + [Number(bits[rest..], 0)]
  {
    hide Number, OerTag.Continued;
    NumberBound(bits[|bits| - 7..]);
  }

  lemma GroupsEnd(c: Bytes, x: Byte)
    requires x < 128 && forall i :: 0 <= i < |c| ==> c[i] >= 128
    ensures var g := c + [x];
            g != [] && g[|g| - 1] < 128 && (forall i :: 0 <= i < |g| - 1 ==> g[i] >= 128) && Septal(g) == 128 * Septal(c) + x
  {
    assert (c + [x])[..|c|] == c;
  }

  /** Groups are determined by their number and their value. */
  lemma {:induction false} GroupsOnce(a: Bytes, b: Bytes)
    requires |a| == |b| && Septal(a) == Septal(b)
    requires forall i :: 0 <= i < |a| ==> (a[i] < 128 <==> b[i] < 128)
    ensures a == b
  {
    hide Septal;
    if a != [] {
      var k := |a| - 1;
      SeptalLast(a);
      SeptalLast(b);
      LastGroup(Septal(a[..k]), a[k], Septal(b[..k]), b[k]);
      GroupsOnce(a[..k], b[..k]);
      assert a == a[..k] + [a[k]] && b == b[..k] + [b[k]];
    }
  }

  lemma SeptalLast(g: Bytes)
    requires g != []
    ensures Septal(g) == 128 * Septal(g[..|g| - 1]) + g[|g| - 1] % 128
  {
  }

  lemma LastGroup(p: nat, x: Byte, q: nat, y: Byte)
    requires 128 * p + x % 128 == 128 * q + y % 128 && (x < 128 <==> y < 128)
    ensures p == q && x == y
  {
  }

  lemma {:induction false} TagIs(tag: Tag, b: Bytes)
    ensures TagWritten(tag, b) <==> b == EncTag(tag)
  {
    hide Number, Digits, Filled, Septets, Mirror, Septal, Reversed;
    if tag.value >= 63 {
      var bits := Filled(Digits(tag.value));
      SeptetsIs(bits);
      FilledNumber(Digits(tag.value));
      MirrorIs(tag.value);
      MirrorReversed(tag.value);
      var g := Septets(bits);
      assert EncTag(tag)[1..] == g;
      if TagWritten(tag, b) {
        var k: nat :| Reversed(tag.value, Septal(b[1..]), k) && |b[1..]| == k / 7 + 1;
        ReversedOnce(tag.value, Septal(b[1..]), k);
        GroupsOnce(b[1..], g);
        assert b == [b[0]] + b[1..];
      }
    }
  }

  lemma MirrorIs(n: nat)
    ensures Mirror(n) == Number(Digits(n), 0)
  {
  }

  // ----- Primitive values -----

  lemma FixedIs(i: int, signed: bool, k: nat, b: Bytes)
    requires k > 0 && (signed || i >= 0)
    ensures EncFixed(i, signed, k) == Some(b) <==> |b| == k && i == if signed then Two(b) else Big(b)
  {
    hide SignedBytes, UnsignedBytes, SignedValue, UnsignedValue, Two, Big;
    BigIs(b);
    TwoIs(b);
    var e := EncFixed(i, signed, k);
    var c := IntegerBytes(i, signed);
    if signed {
      SignedRoundTrip(i);
      SignedPad(c, k - Min(|c|, k));
    } else {
      UnsignedRoundTrip(i);
      UnsignedPad(c, k - Min(|c|, k));
    }
    if |b| == k && i == if signed then Two(b) else Big(b) {
      if signed {
        SignedShortest(b);
        SignedInjective(e.value, b);
      } else {
        UnsignedShortest(b);
        UnsignedInjective(e.value, b);
      }
    }
  }

  lemma FormIs(bounds: Option<Bounds>, extensible: bool)
    ensures var start := if bounds.Some? then bounds.value.start else None;
            var end := if bounds.Some? then bounds.value.end else None;
            var width := if !extensible && start.Some? && end.Some? then FixedWidth(start.value, end.value) else None;
            Form(bounds, extensible) == (extensible || start.None? || start.value < 0, width)
  {
  }

  lemma IntegerIs(i: int, bounds: Option<Bounds>, extensible: bool, b: Bytes)
    ensures IntegerWritten(i, bounds, extensible, b) <==> EncInteger(i, bounds, extensible) == Some(b)
  {
    hide Form, FixedWidth, EncFixed, EncOpen, Opened, ShortestTwo, ShortestBig, SignedBytes, UnsignedBytes, Two, Big;
    FormIs(bounds, extensible);
    var (signed, octets) := Form(bounds, extensible);
    if octets.Some? {
      if signed || i >= 0 {
        FixedIs(i, signed, octets.value, b);
      }
    } else {
      if EncInteger(i, bounds, extensible) == Some(b) {
        var c := IntegerBytes(i, signed);
        OpenedIs(c, b);
        TwoShortest(c, i);
        BigShortest(c, i);
      }
      forall c: Bytes | Opened(c, b) && if signed then ShortestTwo(c, i) else ShortestBig(c, i)
        ensures InBounds(i, bounds) || extensible ==> EncInteger(i, bounds, extensible) == Some(b)
      {
        OpenedIs(c, b);
        TwoShortest(c, i);
        BigShortest(c, i);
      }
    }
  }

  lemma OctetsIs(octets: Bytes, size: Size, b: Bytes)
    ensures OctetsWritten(octets, size, b) <==> EncOctetString(octets, size) == Some(b)
  {
    hide EncOpen, Opened;
    OpenedIs(octets, b);
  }

  lemma CountedIs(bits: seq<bool>, c: Bytes)
    ensures CountedIn(bits, c) <==> c == [Missing(|bits|)] + PackBits(bits)
  {
    hide PackBits, PackedIn;
    var p := PackBits(bits);
    assert ([Missing(|bits|)] + p)[1..] == p;
    if c != [] {
      PackedIs(bits, c[1..]);
      assert c == [c[0]] + c[1..];
    }
    PackedIs(bits, p);
    PackedSize(bits, p);
  }

  lemma PackedSize(bits: seq<bool>, b: Bytes)
    ensures PackedIn(bits, b) ==> |b| == (|bits| + 7) / 8
  {
  }

  lemma BitsAre(bits: seq<bool>, size: Size, b: Bytes)
    ensures BitsWritten(bits, size, b) <==> EncBitString(bits, size) == Some(b)
  {
    hide EncOpen, Opened, PackBits, PackedIn, CountedIn;
    PackedIs(bits, b);
    if !size.Fixed? {
      if EncBitString(bits, size) == Some(b) {
        var c := [Missing(|bits|)] + PackBits(bits);
        OpenedIs(c, b);
        CountedIs(bits, c);
      }
      if c: Bytes :| Opened(c, b) && CountedIn(bits, c) {
        OpenedIs(c, b);
        CountedIs(bits, c);
      }
    }
  }

  lemma DiscriminantIs(d: int, b: Bytes)
    ensures DiscriminantWritten(d, b) <==> EncEnumerated(d) == Some(b)
  {
    hide SignedBytes, ShortestTwo;
    if !(0 <= d < 128) {
      var c := SignedBytes(d);
      assert ([128 + Min(|c|, 127)] + c)[1..] == c;
      if b != [] {
        TwoShortest(b[1..], d);
        assert b == [b[0]] + b[1..];
      }
    }
  }

  // ----- Constructed values -----

  /** Octets in two parts, each of them written. */
  lemma Split(a: Option<Bytes>, z: Option<Bytes>, b: Bytes)
    ensures Append(a, z) == Some(b) <==> a.Some? && z.Some? && b == a.value + z.value
  {
  }

  lemma {:induction false} PresenceIs(components: seq<Component>, fields: seq<Option<Value>>)
    requires FieldsEncodable(fields, components) && |fields| == |components|
    ensures PresenceOf(components, fields) == PresenceBits(components, fields)
  {
    if components != [] {
      PresenceIs(components[1..], fields[1..]);
      assert FieldMatches(fields[0], components[0]);
    }
  }

  lemma {:induction false} PresencesAre(fields: seq<Option<Value>>)
    ensures Presences(fields) == AdditionBits(fields)
  {
    if fields != [] {
      PresencesAre(fields[1..]);
      assert AdditionBits(fields) == [fields[0].Some?] + AdditionBits(fields[1..]);
    }
  }

  lemma {:induction false} FieldIs(c: Component, field: Option<Value>, b: Bytes)
    requires ComponentWellFormed(c) && FieldMatches(field, c)
    ensures FieldWritten(c, field, b) <==> EncField(c, field) == Some(b)
    decreases c, 0, 0
  {
    hide Writes, Enc, Matches, WellFormed;
    if IsWritten(c, field) {
      ExactlyWritten(c.ty, field.value, b);
    }
  }

  lemma {:induction false} FieldsPart(components: seq<Component>, fields: seq<Option<Value>>, b: Bytes) returns (a: Bytes, z: Bytes)
    requires FieldsEncodable(fields, components) && components != [] && FieldsWritten(components, fields, b)
    ensures b == a + z && FieldThen(components, fields, a, z)
  {
    a, z :| b == a + z && FieldThen(components, fields, a, z);
  }

  lemma {:induction false} FieldsAre(components: seq<Component>, fields: seq<Option<Value>>, b: Bytes)
    requires FieldsEncodable(fields, components)
    ensures FieldsWritten(components, fields, b) <==> EncFields(components, fields) == Some(b)
    decreases components, 1, 0
  {
    hide FieldWritten, EncField, FieldMatches, ComponentWellFormed;
    if components != [] {
      if EncFields(components, fields) == Some(b) {
        var a, z := EncField(components[0], fields[0]).value, EncFields(components[1..], fields[1..]).value;
        FieldIs(components[0], fields[0], a);
        FieldsAre(components[1..], fields[1..], z);
        assert b == a + z && FieldThen(components, fields, a, z);
      }
      if FieldsWritten(components, fields, b) {
        var a, z := FieldsPart(components, fields, b);
        FieldIs(components[0], fields[0], a);
        FieldsAre(components[1..], fields[1..], z);
      }
    }
  }

  lemma {:induction false} OpenIs(ty: Type, v: Value, b: Bytes)
    requires Encodable(v, ty)
    ensures OpenWritten(ty, v, b) <==> EncOpen(Enc(ty, v)) == Some(b)
    decreases ty, 2, 0
  {
    hide Writes, Enc, Opened, EncLength, Matches, WellFormed;
    if EncOpen(Enc(ty, v)) == Some(b) {
      ExactlyWritten(ty, v, Enc(ty, v).value);
      OpenedIs(Enc(ty, v).value, b);
    }
    if c: Bytes :| Writes(ty, v, c) && Opened(c, b) {
      ExactlyWritten(ty, v, c);
      OpenedIs(c, b);
    }
  }

  lemma {:induction false} AdditionIs(c: Component, field: Option<Value>, b: Bytes)
    requires ComponentWellFormed(c) && FieldMatches(field, c)
    ensures AdditionWritten(c, field, b) <==> EncAddition(c, field) == Some(b)
    decreases c, 0, 0
  {
    hide OpenWritten, EncOpen, Matches, WellFormed;
    if field.Some? {
      OpenIs(c.ty, field.value, b);
    }
  }

  lemma {:induction false} AdditionsPart(components: seq<Component>, fields: seq<Option<Value>>, b: Bytes)
    returns (a: Bytes, z: Bytes)
    requires FieldsEncodable(fields, components) && components != [] && AdditionsWritten(components, fields, b)
    ensures b == a + z && AdditionThen(components, fields, a, z)
  {
    a, z :| b == a + z && AdditionThen(components, fields, a, z);
  }

  lemma {:induction false} AdditionsAre(components: seq<Component>, fields: seq<Option<Value>>, b: Bytes)
    requires FieldsEncodable(fields, components)
    ensures AdditionsWritten(components, fields, b) <==> EncAdditions(components, fields) == Some(b)
    decreases components, 1, 0
  {
    hide AdditionWritten, EncAddition, FieldMatches, ComponentWellFormed;
    if components != [] {
      if EncAdditions(components, fields) == Some(b) {
        var a, z := EncAddition(components[0], fields[0]).value, EncAdditions(components[1..], fields[1..]).value;
        AdditionIs(components[0], fields[0], a);
        AdditionsAre(components[1..], fields[1..], z);
        assert b == a + z && AdditionThen(components, fields, a, z);
      }
      if AdditionsWritten(components, fields, b) {
        var a, z := AdditionsPart(components, fields, b);
        AdditionIs(components[0], fields[0], a);
        AdditionsAre(components[1..], fields[1..], z);
      }
    }
  }

  lemma BitmapIs(fields: seq<Option<Value>>, m: Bytes)
    ensures (exists c: Bytes :: Opened(c, m) && CountedIn(Presences(fields), c)) <==> EncBitmap(AdditionBits(fields)) == Some(m)
  {
    hide Opened, CountedIn, EncOpen, PackBits, Missing, AdditionBits, Presences;
    var bits := AdditionBits(fields);
    PresencesAre(fields);
    var w := [Missing(|bits|)] + PackBits(bits);
    CountedIs(bits, w);
    OpenedIs(w, m);
    if c: Bytes :| Opened(c, m) && CountedIn(bits, c) {
      CountedIs(bits, c);
    }
  }

  lemma {:induction false} ExtensionIs(ty: Type, v: Value, x: Bytes)
    requires ty.SequenceType? && Encodable(v, ty)
    ensures (if SomeAddition(v.additions) then exists m: Bytes, z: Bytes :: x == m + z && ExtensionWritten(ty, v, m, z) else x == [])
            <==> EncExtension(ty, v) == Some(x)
    decreases ty, 0, 0
  {
    hide AdditionsWritten, EncAdditions, Opened, CountedIn, EncBitmap, Presences, AdditionBits;
    assert SomeAddition(v.additions) <==> AnyAddition(v.additions);
    if AnyAddition(v.additions) {
      if EncExtension(ty, v) == Some(x) {
        var m, z := EncBitmap(AdditionBits(v.additions)).value, EncAdditions(ty.additions, v.additions).value;
        BitmapIs(v.additions, m);
        AdditionsAre(ty.additions, v.additions, z);
        assert x == m + z && ExtensionWritten(ty, v, m, z);
      }
      if m: Bytes, z: Bytes :| x == m + z && ExtensionWritten(ty, v, m, z) {
        BitmapIs(v.additions, m);
        AdditionsAre(ty.additions, v.additions, z);
      }
    }
  }

  lemma {:induction false} SequenceIs(ty: Type, v: Value, p: Bytes, r: Bytes, x: Bytes)
    requires ty.SequenceType? && Encodable(v, ty)
    ensures |v.root| == |ty.root|
    ensures SequenceWritten(ty, v, p, r, x) <==>
            p == PackBits(Preamble(ty, v)) && EncFields(ty.root, v.root) == Some(r) && EncExtension(ty, v) == Some(x)
    decreases ty, 0, 1
  {
    hide FieldsWritten, EncFields, ExtensionWritten, EncExtension, PackBits, PackedIn, PresenceOf, PresenceBits, FieldsMatch, ComponentsWellFormed;
    FieldsLength(v.root, ty.root);
    assert SomeAddition(v.additions) <==> AnyAddition(v.additions);
    PresenceIs(ty.root, v.root);
    PackedIs(Preamble(ty, v), p);
    FieldsAre(ty.root, v.root, r);
    ExtensionIs(ty, v, x);
  }

  lemma {:induction false} ItemsPart(element: Type, items: seq<Value>, b: Bytes) returns (a: Bytes, z: Bytes)
    requires WellFormed(element) && (forall i :: 0 <= i < |items| ==> Matches(items[i], element)) && items != []
    requires ItemsWritten(element, items, b)
    ensures b == a + z && ItemThen(element, items, a, z)
  {
    a, z :| b == a + z && ItemThen(element, items, a, z);
  }

  lemma {:induction false} ItemsAre(element: Type, items: seq<Value>, b: Bytes)
    requires WellFormed(element) && forall i :: 0 <= i < |items| ==> Matches(items[i], element)
    ensures ItemsWritten(element, items, b) <==> EncItems(element, items) == Some(b)
    decreases element, 2, |items|
  {
    hide Writes, Enc, Matches, WellFormed;
    if items != [] {
      if EncItems(element, items) == Some(b) {
        var a, z := Enc(element, items[0]).value, EncItems(element, items[1..]).value;
        ExactlyWritten(element, items[0], a);
        ItemsAre(element, items[1..], z);
        assert b == a + z && ItemThen(element, items, a, z);
      }
      if ItemsWritten(element, items, b) {
        var a, z := ItemsPart(element, items, b);
        ExactlyWritten(element, items[0], a);
        ItemsAre(element, items[1..], z);
      }
    }
  }

  lemma QuantityIs(n: nat, b: Bytes)
    ensures (exists q: Bytes :: Opened(q, b) && ShortestBig(q, n) && |q| <= 8) <==> EncQuantity(n) == Some(b)
  {
    hide Opened, ShortestBig, EncOpen, UnsignedBytes;
    var c := UnsignedBytes(n);
    BigShortest(c, n);
    OpenedIs(c, b);
    EightAtMost(n);
    if q: Bytes :| Opened(q, b) && ShortestBig(q, n) && |q| <= 8 {
      BigShortest(q, n);
    }
  }

  lemma {:induction false} SequenceOfIs(ty: Type, v: Value, b: Bytes)
    requires ty.SequenceOfType? && Encodable(v, ty)
    ensures Writes(ty, v, b) <==> Enc(ty, v) == Some(b)
    decreases ty, 0, 0
  {
    hide Opened, ShortestBig, ItemsWritten, EncQuantity, EncItems;
    if Enc(ty, v) == Some(b) {
      var n, z := EncQuantity(|v.items|).value, EncItems(ty.element, v.items).value;
      QuantityIs(|v.items|, n);
      ItemsAre(ty.element, v.items, z);
      var q: Bytes :| Opened(q, n) && ShortestBig(q, |v.items|) && |q| <= 8;
    }
    if q: Bytes, n: Bytes, z: Bytes :|
      b == n + z && Opened(q, n) && ShortestBig(q, |v.items|) && |q| <= 8 && ItemsWritten(ty.element, v.items, z)
    {
      QuantityIs(|v.items|, n);
      ItemsAre(ty.element, v.items, z);
    }
  }

  lemma {:induction false} AlternativeIs(a: Alternative, v: Value, b: Bytes)
    requires Encodable(v, a.ty)
    ensures AlternativeWritten(a, v, b) <==> (if a.extension then EncOpen(Enc(a.ty, v)) else Enc(a.ty, v)) == Some(b)
    decreases a, 0, 0
  {
    hide Writes, Enc, OpenWritten, EncOpen, Matches, WellFormed;
    if a.extension {
      OpenIs(a.ty, v, b);
    } else {
      ExactlyWritten(a.ty, v, b);
    }
  }

  lemma {:induction false} ChoiceIs(ty: Type, v: Value, b: Bytes)
    requires ty.ChoiceType? && Encodable(v, ty)
    ensures Writes(ty, v, b) <==> Enc(ty, v) == Some(b)
    decreases ty, 0, 0
  {
    hide TagWritten, EncTag, AlternativeWritten, EncOpen;
    var a := ty.alternatives[v.chosen];
    if Enc(ty, v) == Some(b) {
      var z := (if a.extension then EncOpen(Enc(a.ty, v.inner)) else Enc(a.ty, v.inner)).value;
      TagIs(a.tag, EncTag(a.tag));
      AlternativeIs(a, v.inner, z);
      assert b == EncTag(a.tag) + z;
    }
    if p: Bytes, z: Bytes :| b == p + z && TagWritten(a.tag, p) && AlternativeWritten(a, v.inner, z) {
      TagIs(a.tag, p);
      AlternativeIs(a, v.inner, z);
    }
  }

  /**
   The encoder writes exactly what the rules allow: for every well-formed type, every value and all octets, they are
   its encoding if and only if the rules say so.
   */
  lemma {:induction false} ExactlyWritten(ty: Type, v: Value, b: Bytes)
    requires Encodable(v, ty)
    ensures Enc(ty, v) == Some(b) <==> Writes(ty, v, b)
    decreases ty, 1, 0
  {
    hide IntegerWritten, EncInteger, OctetsWritten, EncOctetString, BitsWritten, EncBitString, DiscriminantWritten, EncEnumerated,
      SequenceWritten, EncFields, EncExtension, ItemsWritten, EncItems, AlternativeWritten, TagWritten, Opened, ShortestBig;
    match ty
    case IntegerType(bounds, extensible) => IntegerIs(v.i, bounds, extensible, b);
    case OctetStringType(size) => OctetsIs(v.octets, size, b);
    case BitStringType(size) => BitsAre(v.bits, size, b);
    case EnumeratedType(discriminants) => DiscriminantIs(discriminants[v.index], b);
    case SequenceType(_, _, _) =>
      if Enc(ty, v) == Some(b) {
        FieldsLength(v.root, ty.root);
        assert EncSequence(ty, v) == Some(b);
        var p, r, x := PackBits(Preamble(ty, v)), EncFields(ty.root, v.root).value, EncExtension(ty, v).value;
        SequenceIs(ty, v, p, r, x);
        assert b == p + (r + x) && SequenceWritten(ty, v, p, r, x);
      }
      if p: Bytes, r: Bytes, x: Bytes :| b == p + (r + x) && SequenceWritten(ty, v, p, r, x) {
        SequenceIs(ty, v, p, r, x);
      }
    case SequenceOfType(_) => SequenceOfIs(ty, v, b);
    case ChoiceType(_) => ChoiceIs(ty, v, b);
    case _ =>
  }

  // ----- Consequences -----

  /**
   An INTEGER with both bounds below 2^64 takes 1, 2, 4 or 8 octets, the fewest for the larger of the bounds'
   magnitudes; its octets are the value.
   */
  lemma FixedWidths(i: int, start: int, end: int, b: Bytes)
    requires start <= i <= end && EncInteger(i, Some(Bounds(Some(start), Some(end))), false) == Some(b)
    ensures var m := Max(if start < 0 then -start else start, if end < 0 then -end else end);
            m < 0x1_0000_0000_0000_0000 ==>
              && (|b| == 1 <==> m < 0x100)
              && (|b| == 2 <==> 0x100 <= m < 0x1_0000)
              && (|b| == 4 <==> 0x1_0000 <= m < 0x1_0000_0000)
              && (|b| == 8 <==> 0x1_0000_0000 <= m)
              && i == if start < 0 then Two(b) else Big(b)
  {
    hide Form, EncFixed, EncOpen, Two, Big;
    IntegerIs(i, Some(Bounds(Some(start), Some(end))), false, b);
  }

  /** From a magnitude of 2^64 on the shortest form stands behind its length. */
  lemma LongWidths(i: int, start: int, end: int, b: Bytes)
    requires start <= i <= end && EncInteger(i, Some(Bounds(Some(start), Some(end))), false) == Some(b)
    requires Max(if start < 0 then -start else start, if end < 0 then -end else end) >= 0x1_0000_0000_0000_0000
    ensures exists c: Bytes, l: Bytes ::
              b == l + c && IsLength(l, |c|, true) && if start < 0 then ShortestTwo(c, i) else ShortestBig(c, i)
  {
    hide Form, EncFixed, EncOpen, Two, Big, IsLength, ShortestTwo, ShortestBig;
    IntegerIs(i, Some(Bounds(Some(start), Some(end))), false, b);
    var c: Bytes :| Opened(c, b) && if start < 0 then ShortestTwo(c, i) else ShortestBig(c, i);
    var l: Bytes :| IsLength(l, |c|, true) && b == l + c;
  }

  /** A string without a fixed size is written up to 2^61 - 1 octets. */
  lemma LongestString(octets: Bytes, least: nat, most: nat)
    ensures EncOctetString(octets, AnySize).Some? <==> |octets| <= 0x1FFF_FFFF_FFFF_FFFF
    ensures EncOctetString(octets, Ranged(least, most)).Some? <==> least <= |octets| <= most && |octets| <= 0x1FFF_FFFF_FFFF_FFFF
  {
    hide UnsignedBytes;
    if |octets| <= 0x1FFF_FFFF_FFFF_FFFF {
      EightAtMost(|octets|);
    }
  }
}
