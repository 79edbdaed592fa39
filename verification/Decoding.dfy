/** Results of decoders that read octets from the front of their input. */
module Decoding {
  import opened Common

  datatype Decoded<+T> = Ok(value: T, rest: Bytes) | Err

  function DecByte(s: Bytes): Decoded<Byte> {
    if s == [] then Err else Ok(s[0], s[1..])
  }

  function Take(s: Bytes, n: nat): Decoded<Bytes> {
    if n <= |s| then Ok(s[..n], s[n..]) else Err
  }

  /** A base-128 number up to its first octet below 128; the shift drops what leaves 32 bits. */
  function DecBase128(s: Bytes, acc: U32): (r: Decoded<U32>)
    ensures r.Ok? ==> |r.rest| < |s|
    decreases s
  {
    if s == [] then Err
    else
      var n: U32 := (acc * 128) % TWO_32 + s[0] % 128;
      if s[0] < 128 then Ok(n, s[1..]) else DecBase128(s[1..], n)
  }

  lemma {:induction false} Base128Step(next: Byte, s: Bytes, acc: U32)
    ensures var n: U32 := (acc * 128) % TWO_32 + next % 128;
            DecBase128([next] + s, acc) == if next < 128 then Ok(n, s) else DecBase128(s, n)
  {
    assert ([next] + s)[1..] == s;
  }

  lemma Base128End(acc: U32)
    ensures DecBase128([], acc) == Err
  {
  }

  /** `r` is what is left of `s` after some octets were consumed. */
  ghost predicate IsSuffix(r: Bytes, s: Bytes) {
    |r| <= |s| && s[|s| - |r|..] == r
  }

  /** `s` with the octets `r` at its end replaced by `t`. */
  function Onto(s: Bytes, r: Bytes, t: Bytes): Bytes {
    if |r| <= |s| then s[..|s| - |r|] + t else t
  }

  lemma Whole(s: Bytes, t: Bytes)
    ensures IsSuffix(s, s) && Onto(s, s, t) == t
  {
    assert s[0..] == s;
    assert s[..0] + t == t;
  }

  lemma SuffixTrans(a: Bytes, b: Bytes, c: Bytes)
    requires IsSuffix(a, b) && IsSuffix(b, c)
    ensures IsSuffix(a, c)
  {
  }

  /** Replacing a suffix of a suffix. */
  lemma OntoTrans(s: Bytes, r: Bytes, q: Bytes, t: Bytes)
    requires IsSuffix(r, s) && IsSuffix(q, r)
    ensures IsSuffix(q, s) && Onto(s, r, Onto(r, q, t)) == Onto(s, q, t)
    ensures q != [] ==> r != []
  {
    var a, b := s[..|s| - |r|], r[..|r| - |q|];
    assert s == a + r && r == b + q;
    assert s[..|s| - |q|] == a + b;
    assert a + (b + t) == a + b + t;
  }

  lemma OntoParts(b: Bytes, r: Bytes, t: Bytes)
    ensures IsSuffix(r, b + r) && Onto(b + r, r, t) == b + t
  {
    assert (b + r)[|b|..] == r && (b + r)[..|b|] == b;
  }

  /** The same result with `t` at the end of what is left. */
  function Extended<T>(r: Decoded<T>, t: Bytes): Decoded<T> {
    if r.Err? then Err else Ok(r.value, r.rest + t)
  }

  lemma TakeBack(b: Bytes, t: Bytes)
    ensures Take(b + t, |b|) == Ok(b, t)
  {
    assert (b + t)[..|b|] == b && (b + t)[|b|..] == t;
  }

  /** A method's result and the input it leaves are those of the decoding function. */
  predicate Refines<T(==)>(d: Decoded<T>, r: Option<T>, input: Bytes) {
    if d.Err? then r.None? else r == Some(d.value) && input == d.rest
  }
}
