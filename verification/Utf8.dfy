/** Text in UTF-8, as the AVN decoder reads it from an octet string. */
module Utf8 {
  import opened Common

  predicate IsScalar(n: int) {
    0 <= n < 0xD800 || 0xE000 <= n < 0x11_0000
  }

  function EncodeScalar(n: int): (b: Bytes)
    requires IsScalar(n)
    ensures 1 <= |b| <= 4
  {
    if n < 0x80 then [n]
    else if n < 0x800 then [0xC0 + n / 0x40, 0x80 + n % 0x40]
    else if n < 0x1_0000 then [0xE0 + n / 0x1000, 0x80 + n / 0x40 % 0x40, 0x80 + n % 0x40]
    else [0xF0 + n / 0x4_0000, 0x80 + n / 0x1000 % 0x40, 0x80 + n / 0x40 % 0x40, 0x80 + n % 0x40]
  }

  function Encode(s: string): Bytes {
    if s == [] then [] else EncodeScalar(s[0] as int) + Encode(s[1..])
  }

  predicate Continues(b: Bytes, i: nat) {
    i < |b| && 0x80 <= b[i] < 0xC0
  }

  /** The value of an octet above `base`. */
  function Above(octet: Byte, base: int): int {
    octet - base
  }

  /** How many octets a character takes, by its first octet; none, if no character starts with it. */
  function Width(first: Byte): (w: nat)
    ensures w <= 4
  {
    if first < 0x80 then 1
    else if 0xC0 <= first < 0xE0 then 2
    else if 0xE0 <= first < 0xF0 then 3
    else if 0xF0 <= first < 0xF8 then 4
    else 0
  }

  /** The first character; no character is written longer than it has to be. */
  function DecodeScalar(b: Bytes): (r: Option<int>)
    ensures r.Some? ==> b != [] && 1 <= Width(b[0]) <= |b| && IsScalar(r.value)
  {
    if b == [] then None
    else
      var w := Width(b[0]);
      if w == 1 then Some(b[0])
      else if w == 2 && Continues(b, 1) && b[0] >= 0xC2
      then Some(0x40 * Above(b[0], 0xC0) + Above(b[1], 0x80))
      else if w == 3 && Continues(b, 1) && Continues(b, 2)
      then
        var n := 0x1000 * Above(b[0], 0xE0) + 0x40 * Above(b[1], 0x80) + Above(b[2], 0x80);
        if n >= 0x800 && IsScalar(n) then Some(n) else None
      else if w == 4 && Continues(b, 1) && Continues(b, 2) && Continues(b, 3)
      then
        var n := 0x4_0000 * Above(b[0], 0xF0) + 0x1000 * Above(b[1], 0x80) + 0x40 * Above(b[2], 0x80) + Above(b[3], 0x80);
        if n >= 0x1_0000 && IsScalar(n) then Some(n) else None
      else None
  }

  function Decode(b: Bytes): Option<string> {
    if b == [] then Some([])
    else
      var first := DecodeScalar(b);
      if first.None? then None
      else
        var rest := Decode(b[Width(b[0])..]);
        if rest.None? then None else Some([first.value as char] + rest.value)
  }

  lemma ScalarBack(n: int, t: Bytes)
    requires IsScalar(n)
    ensures var b := EncodeScalar(n); DecodeScalar(b + t) == Some(n) && Width(b[0]) == |b|
  {
    var b := EncodeScalar(n);
    Regrouped(n);
    assert forall i :: 0 <= i < |b| ==> (b + t)[i] == b[i];
    if 0x800 <= n < 0x1_0000 {
      assert |b| == 3 && Width(b[0]) == 3;
    } else if n >= 0x1_0000 {
      assert |b| == 4 && Width(b[0]) == 4;
    }
  }

  lemma Regrouped(n: nat)
    ensures n == 0x40 * (n / 0x40) + n % 0x40
    ensures n == 0x1000 * (n / 0x1000) + 0x40 * (n / 0x40 % 0x40) + n % 0x40
    ensures n == 0x4_0000 * (n / 0x4_0000) + 0x1000 * (n / 0x1000 % 0x40) + 0x40 * (n / 0x40 % 0x40) + n % 0x40
  {
    assert n / 0x1000 == n / 0x40 / 0x40;
    assert n / 0x4_0000 == n / 0x1000 / 0x40;
  }

  lemma ScalarCanonical(b: Bytes)
    requires DecodeScalar(b).Some?
    ensures b[..Width(b[0])] == EncodeScalar(DecodeScalar(b).value)
  {
    var n := DecodeScalar(b).value;
    match Width(b[0])
    case 2 => Groups(0, 0, b[0] - 0xC0, b[1] - 0x80);
    case 3 => Groups(0, b[0] - 0xE0, b[1] - 0x80, b[2] - 0x80);
    case 4 => Groups(b[0] - 0xF0, b[1] - 0x80, b[2] - 0x80, b[3] - 0x80);
    case _ =>
  }

  /** The groups of six bits of a number. */
  lemma Groups(d: nat, c: nat, b: nat, a: nat)
    requires a < 0x40 && b < 0x40 && c < 0x40
    ensures var n := 0x4_0000 * d + 0x1000 * c + 0x40 * b + a;
            n % 0x40 == a && n / 0x40 % 0x40 == b && n / 0x1000 % 0x40 == c && n / 0x4_0000 == d
            && n / 0x40 == 0x1000 * d + 0x40 * c + b && n / 0x1000 == 0x40 * d + c
  {
    var n := 0x4_0000 * d + 0x1000 * c + 0x40 * b + a;
    assert n / 0x40 == 0x1000 * d + 0x40 * c + b;
    assert n / 0x1000 == 0x40 * d + c;
  }

  /** Every text comes back. */
  lemma {:induction false} RoundTrip(s: string)
    ensures Decode(Encode(s)) == Some(s)
  {
    hide EncodeScalar, DecodeScalar, Width;
    if s != [] {
      var b := EncodeScalar(s[0] as int);
      ScalarBack(s[0] as int, Encode(s[1..]));
      RoundTrip(s[1..]);
      assert Encode(s)[|b|..] == Encode(s[1..]);
      assert [s[0]] + s[1..] == s;
    }
  }

  /** Whatever is read is the encoding of the text. */
  lemma {:induction false} Canonical(b: Bytes)
    requires Decode(b).Some?
    ensures Encode(Decode(b).value) == b
  {
    hide EncodeScalar, DecodeScalar, Width;
    if b != [] {
      var w := Width(b[0]);
      ScalarCanonical(b);
      Canonical(b[w..]);
      var s := Decode(b).value;
      assert s[1..] == Decode(b[w..]).value;
      assert b[..w] + b[w..] == b;
    }
  }
}
