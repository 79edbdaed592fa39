/**
 Minimal and padded big-endian integers, unsigned and in two's complement: the contract of
 `to_unsigned_bytes_be`, `to_signed_bytes_be` and the `try_from_*_bytes` functions.
 */
module BigEndian {
  import opened Common

  /** The minimal unsigned form, with one octet for zero. */
  function UnsignedBytes(n: nat): (b: Bytes)
    ensures b != []
  {
    if n < 256 then [n] else UnsignedBytes(n / 256) + [n % 256]
  }

  function UnsignedValue(b: Bytes): nat {
    if b == [] then 0 else 256 * UnsignedValue(b[..|b| - 1]) + b[|b| - 1]
  }

  /** The minimal two's complement form. */
  function SignedBytes(i: int): (b: Bytes)
    ensures b != []
    decreases if i < 0 then -i else i
  {
    if -128 <= i < 128 then [i % 256] else SignedBytes(i / 256) + [i % 256]
  }

  function SignedValue(b: Bytes): int {
    if b == [] then 0
    else if |b| == 1 then (if b[0] < 128 then b[0] else b[0] - 256)
    else 256 * SignedValue(b[..|b| - 1]) + b[|b| - 1]
  }

  function Repeat(x: Byte, n: nat): (b: Bytes)
    ensures |b| == n
  {
    seq(n, i => x)
  }

  lemma {:induction false} UnsignedRoundTrip(n: nat)
    ensures UnsignedValue(UnsignedBytes(n)) == n
  {
    if n >= 256 {
      UnsignedRoundTrip(n / 256);
      var b := UnsignedBytes(n);
      assert b[..|b| - 1] == UnsignedBytes(n / 256);
    } else {
      assert UnsignedBytes(n)[..0] == [];
    }
  }

  lemma {:induction false} SignedRoundTrip(i: int)
    ensures SignedValue(SignedBytes(i)) == i
    decreases if i < 0 then -i else i
  {
    if !(-128 <= i < 128) {
      SignedRoundTrip(i / 256);
      var b := SignedBytes(i);
      assert b[..|b| - 1] == SignedBytes(i / 256);
    }
  }

  /** The minimal form has no leading zero octet, except for zero itself. */
  lemma {:induction false} UnsignedMinimal(n: nat)
    ensures n > 0 ==> UnsignedBytes(n)[0] != 0
    ensures n == 0 ==> UnsignedBytes(n) == [0]
  {
    if n >= 256 {
      UnsignedMinimal(n / 256);
    }
  }

  /** Octets without a leading zero are the minimal form of their value. */
  lemma {:induction false} UnsignedCanonical(b: Bytes)
    requires b != [] && (|b| == 1 || b[0] != 0)
    ensures UnsignedBytes(UnsignedValue(b)) == b
    ensures |b| > 1 ==> UnsignedValue(b) >= 256
  {
    var front := b[..|b| - 1];
    assert b == front + [b[|b| - 1]];
    if |b| == 1 {
      assert front == [];
    } else {
      UnsignedCanonical(front);
      Positive(front);
      var n := UnsignedValue(b);
      assert n / 256 == UnsignedValue(front) && n % 256 == b[|b| - 1];
    }
  }

  lemma {:induction false} Positive(b: Bytes)
    requires b != [] && b[0] != 0
    ensures UnsignedValue(b) > 0
  {
    if |b| > 1 {
      Positive(b[..|b| - 1]);
    }
  }

  /** The largest `k`-octet value plus one. */
  function Power256(k: nat): (p: nat)
    ensures p >= 1
  {
    if k == 0 then 1 else 256 * Power256(k - 1)
  }

  lemma {:induction false} UnsignedBound(b: Bytes)
    ensures UnsignedValue(b) < Power256(|b|)
  {
    if b != [] {
      UnsignedBound(b[..|b| - 1]);
    }
  }

  /** The minimal form of `n` takes at most `k` octets exactly when `n` is below 256 to the `k`. */
  lemma {:induction false} UnsignedLength(n: nat, k: nat)
    requires k > 0
    ensures |UnsignedBytes(n)| <= k <==> n < Power256(k)
    decreases n
  {
    if n >= 256 {
      if k == 1 {
        assert Power256(1) == 256 * Power256(0);
      } else {
        UnsignedLength(n / 256, k - 1);
        var p := Power256(k - 1);
        assert n / 256 < p <==> n < 256 * p;
      }
    } else {
      assert Power256(k) == 256 * Power256(k - 1);
    }
  }

  lemma EightOctets()
    ensures Power256(8) == TWO_64
  {
    assert Power256(4) == 256 * (256 * (256 * 256)) by {
      assert Power256(2) == 65536;
    }
    assert Power256(6) == 65536 * Power256(4);
    assert Power256(8) == 65536 * Power256(6);
  }

  /** `usize` lengths take at most eight octets. */
  lemma UsizeLength(n: nat)
    ensures |UnsignedBytes(n)| <= 8 <==> n < TWO_64
  {
    EightOctets();
    UnsignedLength(n, 8);
  }

  lemma {:induction false} UnsignedPad(b: Bytes, k: nat)
    ensures UnsignedValue(Repeat(0, k) + b) == UnsignedValue(b)
    decreases |b|, k
  {
    var s := Repeat(0, k) + b;
    if b != [] {
      UnsignedPad(b[..|b| - 1], k);
      assert s[..|s| - 1] == Repeat(0, k) + b[..|b| - 1];
    } else if k > 0 {
      UnsignedPad(b, k - 1);
      assert s[..|s| - 1] == Repeat(0, k - 1) + b;
    }
  }

  /** The octet that pads a two's complement number to the left. */
  function SignOctet(negative: bool): Byte {
    if negative then 255 else 0
  }

  lemma {:induction false} SignedExtend(b: Bytes)
    requires b != []
    ensures SignedValue([SignOctet(SignedValue(b) < 0)] + b) == SignedValue(b)
  {
    var s := [SignOctet(SignedValue(b) < 0)] + b;
    if |b| > 1 {
      var front := b[..|b| - 1];
      SignedExtend(front);
      assert SignedValue(b) < 0 <==> SignedValue(front) < 0;
      assert s[..|s| - 1] == [SignOctet(SignedValue(front) < 0)] + front;
    } else {
      assert s[..1] == [s[0]];
    }
  }

  lemma {:induction false} SignedPad(b: Bytes, k: nat)
    requires b != []
    ensures SignedValue(Repeat(SignOctet(SignedValue(b) < 0), k) + b) == SignedValue(b)
    decreases k
  {
    var x := SignOctet(SignedValue(b) < 0);
    if k == 0 {
      assert Repeat(x, 0) + b == b;
    } else {
      SignedPad(b, k - 1);
      var shorter := Repeat(x, k - 1) + b;
      SignedExtend(shorter);
      assert Repeat(x, k) + b == [x] + shorter;
    }
  }

  /** Values of the same width are equal only if their octets are. */
  lemma {:induction false} UnsignedInjective(a: Bytes, b: Bytes)
    requires |a| == |b| && UnsignedValue(a) == UnsignedValue(b)
    ensures a == b
  {
    if a != [] {
      UnsignedInjective(a[..|a| - 1], b[..|b| - 1]);
      assert a == a[..|a| - 1] + [a[|a| - 1]];
      assert b == b[..|b| - 1] + [b[|b| - 1]];
    }
  }

  lemma {:induction false} SignedInjective(a: Bytes, b: Bytes)
    requires |a| == |b| && SignedValue(a) == SignedValue(b)
    ensures a == b
  {
    if |a| > 1 {
      SignedInjective(a[..|a| - 1], b[..|b| - 1]);
      assert a == a[..|a| - 1] + [a[|a| - 1]];
      assert b == b[..|b| - 1] + [b[|b| - 1]];
    }
  }

  /** The minimal forms are no longer than any other octets with the same value. */
  lemma {:induction false} UnsignedShortest(b: Bytes)
    requires b != []
    ensures |UnsignedBytes(UnsignedValue(b))| <= |b|
  {
    UnsignedBound(b);
    UnsignedLength(UnsignedValue(b), |b|);
  }

  lemma {:induction false} SignedShortest(b: Bytes)
    requires b != []
    ensures |SignedBytes(SignedValue(b))| <= |b|
  {
    if |b| > 1 {
      var front := b[..|b| - 1];
      SignedShortest(front);
      var i := SignedValue(b);
      if !(-128 <= i < 128) {
        assert i / 256 == SignedValue(front);
      }
    }
  }

  lemma Quarter(i: int, half: nat)
    requires 0 <= i + 256 * half && i < 256 * half
    ensures 0 <= i / 256 + half && i / 256 < half
  {
  }

  /** A two's complement number of `k` octets is within half of 256 to the `k` of zero. */
  lemma {:induction false} SignedLength(i: int, k: nat)
    requires k > 0 && 0 <= 2 * i + Power256(k) && 2 * i < Power256(k)
    ensures |SignedBytes(i)| <= k
    decreases if i < 0 then -i else i
  {
    assert k == 1 ==> Power256(k) == 256 * Power256(0);
    if !(-128 <= i < 128) {
      assert k > 1;
      var half := 128 * Power256(k - 2);
      assert Power256(k - 1) == 2 * half && Power256(k) == 512 * half;
      assert 0 <= i + 256 * half && i < 256 * half;
      Quarter(i, half);
      SignedLength(i / 256, k - 1);
    }
  }
}
