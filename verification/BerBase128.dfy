/** Base-128 numbers (X.690 clauses 8.1.2.4 and 8.19.2): long tag numbers and object identifier arcs. */
module BerBase128 {
  import opened Common
  import opened Decoding

  /** The octets of `n` with the top bit set: all groups of a number but the last. */
  function Continued(n: nat): (b: Bytes)
    ensures b != []
  {
    (if n < 128 then [] else Continued(n / 128)) + [128 + n % 128]
  }

  /** The minimal base-128 form. */
  function Base128(n: nat): (b: Bytes)
    ensures b != []
  {
    (if n < 128 then [] else Continued(n / 128)) + [n % 128]
  }

  /** `n` shifted right by `k` groups of seven bits. */
  function Shifted(n: nat, k: nat): nat {
    if k == 0 then n else Shifted(n, k - 1) / 128
  }

  lemma FiveGroups(n: U32)
    ensures Shifted(n, 5) == 0
  {
    assert Shifted(n, 1) < 0x200_0000;
    assert Shifted(n, 2) < 0x4_0000;
    assert Shifted(n, 3) < 0x800;
    assert Shifted(n, 4) < 0x10;
  }

  /** Five groups of seven bits from the most significant one, without the leading groups of zeros. */
  method EncodeAsBase128(number: U32, buffer: Bytes) returns (b: Bytes)
    ensures b == buffer + Base128(number)
  {
    if number < 128 {
      return buffer + [number as Byte];
    }
    b := EncodeGroups(number, buffer);
  }

  method EncodeGroups(number: U32, buffer: Bytes) returns (b: Bytes)
    requires number >= 128
    ensures b == buffer + Base128(number)
  {
    hide Continued, Base128;
    b := buffer;
    var groups := 5;
    var cont := false;
    FiveGroups(number);
    while groups > 0
      invariant 0 <= groups <= 5
      invariant cont == (Shifted(number, groups) > 0)
      invariant groups > 0 ==> b == buffer + if cont then Continued(Shifted(number, groups)) else []
      invariant groups == 0 ==> b == buffer + Base128(number)
    {
      groups := groups - 1;
      ghost var before := Shifted(number, groups + 1);
      var n := Shifted(number, groups) % 128;
      GroupOf(before, n);
      if n > 0 || cont {
        b := b + [if groups > 0 then 128 + n else n];
        cont := true;
      }
    }
  }

  lemma GroupOf(before: nat, n: nat)
    requires n < 128
    ensures (128 * before + n) / 128 == before && (128 * before + n) % 128 == n
    ensures before > 0 ==> Continued(128 * before + n) == Continued(before) + [128 + n]
    ensures before > 0 ==> Base128(128 * before + n) == Continued(before) + [n]
    ensures before == 0 ==> Continued(n) == [128 + n]
  {
  }

  /** Reading octets with the top bit set shifts them into the accumulator. */
  lemma {:induction false} ContinuedBack(n: nat, t: Bytes)
    requires 128 * n < TWO_32
    ensures DecBase128(Continued(n) + t, 0) == DecBase128(t, n)
  {
    hide DecBase128;
    var last: Byte := 128 + n % 128;
    assert last % 128 == n % 128;
    if n < 128 {
      Shift(0, last, t);
      assert Continued(n) + t == [last] + t;
    } else {
      ContinuedBack(n / 128, [last] + t);
      assert Continued(n) + t == Continued(n / 128) + ([last] + t);
      Shift(n / 128, last, t);
    }
  }

  lemma Shift(acc: nat, octet: Byte, t: Bytes)
    requires 128 * acc + octet % 128 < TWO_32
    ensures DecBase128([octet] + t, acc) ==
            if octet < 128 then Ok(128 * acc + octet % 128, t) else DecBase128(t, 128 * acc + octet % 128)
  {
    assert ([octet] + t)[1..] == t;
    assert (acc * 128) % TWO_32 == acc * 128;
  }

  /** A 32-bit number comes back from its base-128 form, whatever follows. */
  lemma Base128Back(n: U32, t: Bytes)
    ensures DecBase128(Base128(n) + t, 0) == Ok(n, t)
  {
    hide DecBase128, Continued;
    var last: Byte := n % 128;
    if n < 128 {
      assert Base128(n) + t == [last] + t;
      Shift(0, last, t);
    } else {
      ContinuedBack(n / 128, [last] + t);
      assert Base128(n) + t == Continued(n / 128) + ([last] + t);
      Shift(n / 128, last, t);
    }
  }

  /** The form is minimal: no leading group of zeros; and it ends at its only octet below 128. */
  lemma Base128Minimal(n: nat)
    ensures Base128(n)[0] != 128
    ensures forall i :: 0 <= i < |Base128(n)| ==> (Base128(n)[i] < 128 <==> i == |Base128(n)| - 1)
  {
    if n >= 128 {
      ContinuedMinimal(n / 128);
    }
  }

  lemma {:induction false} ContinuedMinimal(n: nat)
    requires n > 0
    ensures Continued(n)[0] != 128
    ensures forall i :: 0 <= i < |Continued(n)| ==> Continued(n)[i] >= 128
  {
    if n >= 128 {
      ContinuedMinimal(n / 128);
    }
  }

  // ----- The reference reading of a number, without a bound on its size -----

  function Number(s: Bytes, acc: nat): Decoded<nat>
    decreases s
  {
    if s == [] then Err
    else if s[0] < 128 then Ok(128 * acc + s[0], s[1..])
    else Number(s[1..], 128 * acc + (s[0] - 128))
  }

  /** Numbers within 32 bits are read alike. */
  lemma {:induction false} NumberAgrees(s: Bytes, acc: nat)
    requires Number(s, acc).Ok? && Number(s, acc).value < TWO_32
    ensures acc < TWO_32 && DecBase128(s, acc) == Number(s, acc)
    decreases s
  {
    var next: nat := 128 * acc + s[0] % 128;
    if s[0] >= 128 {
      NumberAgrees(s[1..], next);
    }
    assert (acc * 128) % TWO_32 == acc * 128;
  }

  /** What was read is the minimal form of its value, unless it starts with a group of zeros. */
  lemma {:induction false} NumberCanonical(s: Bytes, acc: nat)
    requires Number(s, acc).Ok? && acc > 0
    ensures var r := Number(s, acc);
            Continued(acc) + s == Base128(r.value) + r.rest
    ensures |Number(s, acc).rest| < |s|
    decreases s
  {
    var n := 128 * acc + s[0] % 128;
    GroupOf(acc, s[0] % 128);
    if s[0] < 128 {
      assert Continued(acc) + s == Continued(acc) + [s[0]] + s[1..];
    } else {
      NumberCanonical(s[1..], n);
      assert Continued(acc) + s == Continued(acc) + [s[0]] + s[1..];
    }
  }

  lemma Base128Canonical(s: Bytes)
    requires Number(s, 0).Ok? && s[0] != 128
    ensures var r := Number(s, 0); s == Base128(r.value) + r.rest
    ensures |Number(s, 0).rest| < |s|
  {
    hide Continued;
    assert s == [s[0]] + s[1..];
    if s[0] >= 128 {
      GroupOf(0, s[0] - 128);
      assert Continued(s[0] - 128) == [s[0]];
      NumberCanonical(s[1..], s[0] - 128);
    }
  }

  lemma {:induction false} NumberBack(n: nat, t: Bytes)
    ensures Number(Base128(n) + t, 0) == Ok(n, t)
  {
    var last: Byte := n % 128;
    if n < 128 {
      assert Base128(n) + t == [last] + t;
    } else {
      assert Base128(n) + t == Continued(n / 128) + ([last] + t);
      NumberContinued(n / 128, [last] + t);
    }
    assert ([last] + t)[1..] == t;
  }

  lemma {:induction false} NumberContinued(n: nat, t: Bytes)
    ensures Number(Continued(n) + t, 0) == Number(t, n)
  {
    var last: Byte := 128 + n % 128;
    if n < 128 {
      assert Continued(n) + t == [last] + t;
    } else {
      assert Continued(n) + t == Continued(n / 128) + ([last] + t);
      NumberContinued(n / 128, [last] + t);
    }
    assert ([last] + t)[1..] == t;
  }

  // ----- The source's reader -----

  /** The octets with the top bit set, then one more, then the number they hold. */
  method ParseBase128Number(input: Bytes) returns (r: Decoded<U32>)
    ensures r == DecBase128(input, 0)
  {
    hide DecBase128;
    var k := 0;
    while k < |input| && input[k] >= 128
      invariant 0 <= k <= |input|
      invariant forall i :: 0 <= i < k ==> input[i] >= 128
    {
      k := k + 1;
    }
    if k == |input| {
      Unfinished(input, 0);
      return Err;
    }
    var number: U32 := 0;
    assert input[0..] == input;
    for i := 0 to k
      invariant DecBase128(input, 0) == DecBase128(input[i..], number)
    {
      assert input[i..] == [input[i]] + input[i + 1..];
      Base128Step(input[i], input[i + 1..], number);
      number := (number * 128) % TWO_32 + input[i] % 128;
    }
    assert input[k..] == [input[k]] + input[k + 1..];
    Base128Step(input[k], input[k + 1..], number);
    number := (number * 128) % TWO_32 + input[k];
    r := Ok(number, input[k + 1..]);
  }

  lemma {:induction false} Unfinished(s: Bytes, acc: U32)
    requires forall i :: 0 <= i < |s| ==> s[i] >= 128
    ensures DecBase128(s, acc) == Err
    decreases s
  {
    if s != [] {
      Unfinished(s[1..], (acc * 128) % TWO_32 + s[0] % 128);
    }
  }
}
