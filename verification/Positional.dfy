/**
 Numbers and bits by the positions of their octets, the most significant first. What the codecs compute
 step by step is compared with these definitions.
 */
module Positional {
  import opened Common
  import opened Bits
  import opened BigEndian
  import opened Decoding

  /** 256 to the `k`. */
  function Scale(k: nat): nat {
    if k == 0 then 1 else 256 * Scale(k - 1)
  }

  /** Octet `i` of `n` weighs 256 to the `n - 1 - i`. */
  function Big(b: Bytes): nat {
    if b == [] then 0 else b[0] * Scale(|b| - 1) + Big(b[1..])
  }

  /** The same in two's complement. */
  function Two(b: Bytes): int {
    if b != [] && b[0] >= 128 then Big(b) - Scale(|b|) else Big(b)
  }

  function TwoTo(k: nat): (p: nat)
    ensures p > 0
  {
    if k == 0 then 1 else 2 * TwoTo(k - 1)
  }

  /** Bit `k` of octets, bit 0 being the most significant bit of the first. */
  predicate Bit(b: Bytes, k: nat) {
    k / 8 < |b| && (b[k / 8] / TwoTo(7 - k % 8)) % 2 == 1
  }

  lemma {:induction false} BigEnd(front: Bytes, x: Byte)
    ensures Big(front + [x]) == 256 * Big(front) + x
  {
    var b := front + [x];
    if front == [] {
      assert b[1..] == [];
    } else {
      assert b[1..] == front[1..] + [x];
      BigEnd(front[1..], x);
      var k := |front| - 1;
      assert front[0] * (256 * Scale(k)) == 256 * (front[0] * Scale(k));
    }
  }

  lemma {:induction false} BigIs(b: Bytes)
    ensures UnsignedValue(b) == Big(b)
  {
    if b != [] {
      var front := b[..|b| - 1];
      BigIs(front);
      BigEnd(front, b[|b| - 1]);
      assert b == front + [b[|b| - 1]];
    }
  }

  lemma {:induction false} TwoIs(b: Bytes)
    ensures SignedValue(b) == Two(b)
  {
    if |b| == 1 {
      assert b[1..] == [];
    } else if |b| > 1 {
      var front := b[..|b| - 1];
      TwoIs(front);
      BigEnd(front, b[|b| - 1]);
      assert b == front + [b[|b| - 1]];
    }
  }

  lemma TwoToIs(i: nat)
    requires i < 8
    ensures TwoTo(7 - i) == Weight(i)
  {
    assert TwoTo(3) == 8;
    assert TwoTo(5) == 32;
    assert TwoTo(7) == 128;
  }

  lemma BitIs(b: Bytes, k: nat)
    requires k < 8 * |b|
    ensures Bit(b, k) == BitAt(b[k / 8], k % 8)
  {
    hide TwoTo, Weight;
    TwoToIs(k % 8);
  }

  /** The bits, most significant first in each octet, and zeros up to its end. */
  predicate PackedIn(bits: seq<bool>, b: Bytes) {
    && |b| == (|bits| + 7) / 8
    && forall k :: 0 <= k < 8 * |b| ==> Bit(b, k) == (k < |bits| && bits[k])
  }

  lemma PackedIs(bits: seq<bool>, b: Bytes)
    ensures PackedIn(bits, b) <==> b == PackBits(bits)
  {
    hide Bit, BitAt, PackBits;
    var p := PackBits(bits);
    BitsOfPackBits(bits);
    forall k | 0 <= k < 8 * |p|
      ensures Bit(p, k) == (k < |bits| && bits[k])
    {
      BitIs(p, k);
      assert k < |bits| ==> BitsOf(p, |bits|)[k] == bits[k];
    }
    if PackedIn(bits, b) {
      forall k | 0 <= k < 8 * |b|
        ensures BitAt(b[k / 8], k % 8) == (k < |bits| && bits[k])
      {
        BitIs(b, k);
      }
      assert BitsOf(b, |bits|) == bits;
      PackBitsOf(b, |bits|);
    }
  }

  /** Groups of seven bits, the most significant first. */
  function Septal(g: Bytes): nat {
    if g == [] then 0 else 128 * Septal(g[..|g| - 1]) + g[|g| - 1] % 128
  }

  lemma Parts(s: Bytes, k: nat)
    requires k <= |s|
    ensures s == s[..k] + s[k..]
  {
  }

  lemma Joined(a: Bytes, b: Bytes)
    ensures (a + b)[..|a|] == a && (a + b)[|a|..] == b
  {
  }

  /** What 32 bits keep of a number. */
  function Low32(n: nat): U32 {
    n % 0x1_0000_0000
  }

  lemma {:induction false} GroupsExact(g: Bytes, t: Bytes, acc: U32)
    requires g != [] && g[|g| - 1] < 128 && forall i :: 0 <= i < |g| - 1 ==> g[i] >= 128
    ensures DecBase128(g + t, acc) == Ok(Low32(acc * Seven(|g|) + Septal(g)), t)
    decreases |g|
  {
    hide DecBase128, Septal, Seven, Low32;
    var p, r, x := Seven(|g| - 1), Septal(g[1..]), g[0] % 128;
    var next: U32 := (acc * 128) % TWO_32 + x;
    assert g + t == [g[0]] + (g[1..] + t);
    Base128Step(g[0], g[1..] + t, acc);
    SeptalHead(g);
    SevenIs(|g| - 1);
    Wrapped(acc, x, p, r);
    assert acc * Seven(|g|) + Septal(g) == acc * (128 * p) + x * p + r;
    if |g| == 1 {
      assert g[1..] + t == t;
      SeptalHead(g[1..]);
      Kept(next);
      assert next * p + r == next;
    } else {
      GroupsExact(g[1..], t, next);
    }
  }

  /** Groups at the front. */
  lemma GroupsFront(g: Bytes, t: Bytes)
    requires g != [] && g[|g| - 1] < 128 && forall i :: 0 <= i < |g| - 1 ==> g[i] >= 128
    ensures DecBase128(g + t, 0) == Ok(Septal(g) % 0x1_0000_0000, t)
  {
    hide DecBase128, Septal, Seven;
    GroupsExact(g, t, 0);
  }

  lemma Kept(n: U32)
    ensures Low32(n) == n
  {
  }

  /** 128 to the `k`. */
  function Seven(k: nat): nat {
    if k == 0 then 1 else 128 * Seven(k - 1)
  }

  lemma SevenIs(k: nat)
    ensures Seven(k + 1) == 128 * Seven(k) && (k == 0 ==> Seven(k) == 1)
  {
  }

  lemma {:induction false} SeptalHead(g: Bytes)
    ensures Septal(g) == if g == [] then 0 else g[0] % 128 * Seven(|g| - 1) + Septal(g[1..])
  {
    hide Seven;
    if |g| == 1 {
      SevenIs(0);
      assert g[..0] == [] && g[1..] == [];
    } else if |g| > 1 {
      var front := g[..|g| - 1];
      SeptalHead(front);
      SevenIs(|g| - 2);
      assert g[1..][..|g| - 2] == front[1..] && g[1..][|g| - 2] == g[|g| - 1];
      Higher(g[0] % 128, Seven(|g| - 2), Septal(front[1..]));
    }
  }

  lemma Higher(x: nat, p: nat, q: nat)
    ensures 128 * (x * p + q) == x * (128 * p) + 128 * q
  {
  }

  lemma Wrapped(acc: nat, x: nat, p: nat, r: nat)
    ensures Low32(((acc * 128) % TWO_32 + x) * p + r) == Low32(acc * (128 * p) + x * p + r)
  {
    var a, q := (acc * 128) % TWO_32, acc * 128 / TWO_32;
    assert acc * 128 == TWO_32 * q + a;
    assert acc * (128 * p) == (TWO_32 * q + a) * p == TWO_32 * (q * p) + a * p;
    assert (a + x) * p == a * p + x * p;
    Multiple((a + x) * p + r, q * p);
  }

  lemma Multiple(n: nat, q: nat)
    ensures (TWO_32 * q + n) % TWO_32 == n % TWO_32
  {
    var d := (TWO_32 * q + n) / TWO_32 - q - n / TWO_32;
    assert TWO_32 * d == n % TWO_32 - (TWO_32 * q + n) % TWO_32;
  }

  /** The octets of a base-128 number. */
  lemma {:induction false} GroupsRead(s: Bytes, acc: U32) returns (g: Bytes)
    requires DecBase128(s, acc).Ok?
    ensures g != [] && g[|g| - 1] < 128 && (forall i :: 0 <= i < |g| - 1 ==> g[i] >= 128) && s == g + DecBase128(s, acc).rest
    decreases s
  {
    if s[0] < 128 {
      g := [s[0]];
    } else {
      var more := GroupsRead(s[1..], (acc * 128) % TWO_32 + s[0] % 128);
      g := [s[0]] + more;
    }
  }
}
