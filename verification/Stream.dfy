/**
 The decoding iterator over a growing input: a buffer that borrows its first input, owns a copy once
 octets were appended, and drops what was consumed only when that is more than half of it.
 */
module Stream {
  import opened Common
  import opened Decoding
  import OerTypes
  import OerDecode
  import OerLocality

  // ----- Decoding a whole stream -----

  /** A success is not changed by octets after the input, and leaves a suffix of it. */
  ghost predicate Local<V(!new)>(decode: Bytes -> Decoded<V>) {
    forall s: Bytes, t: Bytes :: LocalAt(decode, s, t)
  }

  ghost predicate LocalAt<V(!new)>(decode: Bytes -> Decoded<V>, s: Bytes, t: Bytes) {
    decode(s).Ok? ==> IsSuffix(decode(s).rest, s) && decode(s + t) == Extended(decode(s), t)
  }

  /** Decoding one value after another from `s` gives `values` and leaves `rest`. */
  ghost predicate Yields<V(!new)>(decode: Bytes -> Decoded<V>, s: Bytes, values: seq<V>, rest: Bytes)
    decreases |values|
  {
    if values == [] then rest == s
    else
      var first := decode(s);
      first.Ok? && first.value == values[0] && Yields(decode, first.rest, values[1..], rest)
  }

  /** Octets that arrive later do not change what was decoded. */
  lemma {:induction false} YieldsExtended<V(!new)>(decode: Bytes -> Decoded<V>, s: Bytes, values: seq<V>, rest: Bytes, t: Bytes)
    requires Local(decode) && Yields(decode, s, values, rest)
    ensures Yields(decode, s + t, values, rest + t)
    decreases |values|
  {
    if values != [] {
      var first := decode(s);
      YieldsExtended(decode, first.rest, values[1..], rest, t);
      assert LocalAt(decode, s, t);
    }
  }

  /** One more value from what is left. */
  lemma {:induction false} YieldsMore<V(!new)>(decode: Bytes -> Decoded<V>, s: Bytes, values: seq<V>, rest: Bytes)
    requires Yields(decode, s, values, rest) && decode(rest).Ok?
    ensures Yields(decode, s, values + [decode(rest).value], decode(rest).rest)
    decreases |values|
  {
    var longer := values + [decode(rest).value];
    if values == [] {
      assert longer[1..] == [];
    } else {
      YieldsMore(decode, decode(s).rest, values[1..], rest);
      assert longer[1..] == values[1..] + [decode(rest).value];
    }
  }

  /** What was consumed and what is left make up the stream. */
  lemma {:induction false} YieldsConserves<V(!new)>(decode: Bytes -> Decoded<V>, s: Bytes, values: seq<V>, rest: Bytes)
    requires Local(decode) && Yields(decode, s, values, rest)
    ensures IsSuffix(rest, s)
    decreases |values|
  {
    if values == [] {
      assert s[0..] == s;
    } else {
      var first := decode(s);
      YieldsConserves(decode, first.rest, values[1..], rest);
      assert LocalAt(decode, s, []);
    }
  }

  /** The shorter of two results from the same stream is a prefix of the longer one. */
  lemma {:induction false} YieldsPrefix<V(!new)>(
      decode: Bytes -> Decoded<V>, s: Bytes, a: seq<V>, restA: Bytes, b: seq<V>, restB: Bytes)
    requires Yields(decode, s, a, restA) && Yields(decode, s, b, restB) && |a| <= |b|
    ensures a <= b && (|a| == |b| ==> restA == restB)
    decreases |a|
  {
    if a != [] {
      YieldsPrefix(decode, decode(s).rest, a[1..], restA, b[1..], restB);
      assert a == [a[0]] + a[1..] && b == [b[0]] + b[1..];
    }
  }

  // ----- The buffer -----

  datatype BufferState = Borrowed(slice: Bytes) | Owned(data: Bytes, pos: nat)

  class IterBuffer {
    var state: BufferState
    /** The octets consumed since the buffer is owned, and those moved to the front by all drains. */
    ghost var consumed: nat
    ghost var moved: nat

    /** At most half of an owned buffer is dead, and drains have moved no more than was consumed. */
    ghost predicate Valid()
      reads this
    {
      && moved <= consumed
      && (state.Owned? ==> 2 * state.pos <= |state.data| && moved + state.pos <= consumed)
    }

    ghost function Unread(): Bytes
      requires Valid()
      reads this
    {
      if state.Borrowed? then state.slice else state.data[state.pos..]
    }

    constructor (input: Bytes)
      ensures Valid() && Unread() == input && state.Borrowed? && consumed == 0 && moved == 0
    {
      state := Borrowed(input);
      consumed, moved := 0, 0;
    }

    method AsSlice() returns (s: Bytes)
      requires Valid()
      ensures s == Unread()
    {
      match state
      case Borrowed(slice) => s := slice;
      case Owned(data, pos) => s := data[pos..];
    }

    method UpdateAfterConsumption(n: nat)
      requires Valid() && n <= |Unread()|
      modifies this
      ensures Valid() && Unread() == old(Unread()[n..])
      ensures state.Borrowed? <==> old(state).Borrowed?
      ensures consumed == old(consumed) + if state.Owned? then n else 0
      ensures state.Owned? && old(state.pos) + n <= |old(state.data)| / 2 ==>
        state == Owned(old(state.data), old(state.pos) + n) && moved == old(moved)
      ensures state.Owned? && old(state.pos) + n > |old(state.data)| / 2 ==>
        state == Owned(Unread(), 0) && moved == old(moved) + |Unread()|
    {
      match state
      case Borrowed(slice) =>
        state := Borrowed(slice[n..]);
      case Owned(data, pos) =>
        consumed := consumed + n;
        var pos' := pos + n;
        if pos' > |data| / 2 {
          moved := moved + |data[pos'..]|;
          state := Owned(data[pos'..], 0);
        } else {
          state := Owned(data, pos');
        }
        assert Unread() == data[pos..][n..];
    }

    method ToOwned()
      requires Valid()
      modifies this`state
      ensures Valid() && state.Owned? && Unread() == old(Unread())
      ensures old(state).Owned? ==> state == old(state)
    {
      match state
      case Borrowed(slice) =>
        state := Owned(slice, 0);
      case Owned(_, _) =>
    }

    method Extend(bytes: Bytes)
      requires Valid()
      modifies this`state
      ensures Valid() && state.Owned? && Unread() == old(Unread()) + bytes
    {
      ToOwned();
      state := state.(data := state.data + bytes);
    }
  }

  // ----- The iterator -----

  class Iter<V(!new)> {
    const decode: Bytes -> Decoded<V>
    const buf: IterBuffer
    /** All octets supplied so far, and all values returned. */
    ghost var supplied: Bytes
    ghost var values: seq<V>

    /** The values returned are the first values of everything supplied, and the rest is unread. */
    ghost predicate Valid()
      reads this, buf
    {
      Local(decode) && buf.Valid() && Yields(decode, supplied, values, buf.Unread())
    }

    constructor (input: Bytes, decode: Bytes -> Decoded<V>)
      requires Local(decode)
      ensures Valid() && fresh(buf) && supplied == input && values == [] && this.decode == decode
      ensures buf.consumed == 0
    {
      this.decode := decode;
      buf := new IterBuffer(input);
      supplied, values := input, [];
    }

    method AppendBytes(bytes: Bytes)
      requires Valid()
      modifies this, buf
      ensures Valid() && supplied == old(supplied) + bytes && values == old(values)
      ensures buf.Unread() == old(buf.Unread()) + bytes
    {
      YieldsExtended(decode, supplied, values, buf.Unread(), bytes);
      buf.Extend(bytes);
      supplied := supplied + bytes;
    }

    /** The next value, if the unread octets hold one; on an error nothing changes. */
    method Next() returns (r: Option<V>)
      requires Valid()
      modifies this, buf
      ensures Valid() && supplied == old(supplied)
      ensures r.Some? <==> decode(old(buf.Unread())).Ok?
      ensures r.Some? ==> values == old(values) + [r.value] && decode(old(buf.Unread())) == Ok(r.value, buf.Unread())
      ensures r.None? ==> values == old(values) && buf.state == old(buf.state) && buf.consumed == old(buf.consumed)
      ensures buf.state.Owned? ==> buf.consumed == old(buf.consumed) + |old(buf.Unread())| - |buf.Unread()|
    {
      var input := buf.AsSlice();
      var result := decode(input);
      if result.Err? {
        return None;
      }
      assert IsSuffix(result.rest, input) by {
        assert LocalAt(decode, input, []);
      }
      YieldsMore(decode, supplied, values, input);
      var consumed := |input| - |result.rest|;
      buf.UpdateAfterConsumption(consumed);
      values := values + [result.value];
      r := Some(result.value);
    }
  }

  // ----- Whole runs -----

  datatype Operation = AppendBytes(bytes: Bytes) | Next

  /** All octets that a run supplies. */
  function Supplied(operations: seq<Operation>): Bytes {
    if operations == [] then []
    else SuppliedBy(operations[0]) + Supplied(operations[1..])
  }

  function SuppliedBy(operation: Operation): Bytes {
    if operation.AppendBytes? then operation.bytes else []
  }

  lemma NothingSupplied(input: Bytes, operations: seq<Operation>)
    ensures input + Supplied(operations[..0]) == input
  {
  }

  lemma {:induction false} SuppliedMore(operations: seq<Operation>, i: nat)
    requires i < |operations|
    ensures Supplied(operations[..i + 1]) ==
            Supplied(operations[..i]) + SuppliedBy(operations[i])
    decreases i
  {
    if i == 0 {
      assert operations[..1][1..] == [];
    } else {
      SuppliedMore(operations[1..], i - 1);
      assert operations[..i + 1][1..] == operations[1..][..i];
      assert operations[..i][1..] == operations[1..][..i - 1];
    }
  }

  lemma SuppliedStep(input: Bytes, operations: seq<Operation>, i: nat)
    requires i < |operations|
    ensures input + Supplied(operations[..i + 1]) == input + Supplied(operations[..i]) + SuppliedBy(operations[i])
  {
    hide Supplied, SuppliedBy;
    SuppliedMore(operations, i);
  }

  method Apply<V(!new)>(iter: Iter<V>, operation: Operation) returns (more: seq<V>)
    requires iter.Valid()
    modifies iter, iter.buf
    ensures iter.Valid() && iter.supplied == old(iter.supplied) + SuppliedBy(operation)
    ensures iter.values == old(iter.values) + more
  {
    hide Local, Yields;
    more := [];
    match operation
    case AppendBytes(bytes) =>
      iter.AppendBytes(bytes);
    case Next =>
      var r := iter.Next();
      if r.Some? {
        more := [r.value];
      }
  }

  /**
   Streaming is independent of chunking: after any interleaving of operations, the values returned
   are the first values of the whole stream and the unread octets are what these leave of it.
   */
  method Run<V(!new)>(input: Bytes, decode: Bytes -> Decoded<V>, operations: seq<Operation>)
    returns (values: seq<V>, unread: Bytes)
    requires Local(decode)
    ensures Yields(decode, input + Supplied(operations), values, unread)
    ensures IsSuffix(unread, input + Supplied(operations))
  {
    hide Local, Yields, IsSuffix, Supplied, SuppliedBy;
    NothingSupplied(input, operations);
    var iter := new Iter(input, decode);
    values := [];
    for i := 0 to |operations|
      invariant iter.Valid() && fresh(iter) && fresh(iter.buf)
      invariant iter.supplied == input + Supplied(operations[..i]) && iter.values == values && iter.decode == decode
    {
      SuppliedStep(input, operations, i);
      var more := Apply(iter, operations[i]);
      values := values + more;
    }
    assert operations[..|operations|] == operations;
    unread := iter.buf.AsSlice();
    YieldsConserves(decode, input + Supplied(operations), values, unread);
  }

  /** Two runs over the same stream, however it is cut, agree on every value both have returned. */
  lemma ChunkingIrrelevant<V(!new)>(
      decode: Bytes -> Decoded<V>, input1: Bytes, operations1: seq<Operation>, values1: seq<V>, unread1: Bytes,
      input2: Bytes, operations2: seq<Operation>, values2: seq<V>, unread2: Bytes)
    requires input1 + Supplied(operations1) == input2 + Supplied(operations2)
    requires Yields(decode, input1 + Supplied(operations1), values1, unread1)
    requires Yields(decode, input2 + Supplied(operations2), values2, unread2)
    ensures values1 <= values2 || values2 <= values1
    ensures |values1| == |values2| ==> unread1 == unread2
  {
    var stream := input1 + Supplied(operations1);
    if |values1| <= |values2| {
      YieldsPrefix(decode, stream, values1, unread1, values2, unread2);
    } else {
      YieldsPrefix(decode, stream, values2, unread2, values1, unread1);
    }
  }

  // ----- OER as the decoder -----

  function OerStream(ty: OerTypes.Type, coer: bool, depth: nat): Bytes -> Decoded<OerTypes.Value> {
    s => OerDecode.Dec(ty, s, coer, depth)
  }

  /** OER values of a type that is decoded in place can be streamed. */
  lemma {:induction false} OerIsLocal(ty: OerTypes.Type, coer: bool, depth: nat)
    requires OerLocality.InPlace(ty)
    ensures Local(OerStream(ty, coer, depth))
  {
    hide OerDecode.Dec, OerLocality.InPlace, IsSuffix;
    var decode := OerStream(ty, coer, depth);
    forall s: Bytes, t: Bytes
      ensures LocalAt(decode, s, t)
    {
      if decode(s).Ok? {
        OerLocality.Local(ty, s, coer, depth, t);
      }
    }
  }

  method StreamOer(ty: OerTypes.Type, coer: bool, depth: nat, input: Bytes, operations: seq<Operation>)
    returns (values: seq<OerTypes.Value>, unread: Bytes)
    requires OerLocality.InPlace(ty)
    ensures Yields(OerStream(ty, coer, depth), input + Supplied(operations), values, unread)
  {
    OerIsLocal(ty, coer, depth);
    values, unread := Run(input, OerStream(ty, coer, depth), operations);
  }
}
