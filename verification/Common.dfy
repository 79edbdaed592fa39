/** Types shared by every codec of the model. */
module Common {

  datatype Option<+T> = None | Some(value: T)

  /** An octet, as the Rust `u8`. */
  type Byte = b: int | 0 <= b < 256

  type Bytes = seq<Byte>

  /** The number of values of a 32-bit word, the width of tag numbers and object identifier arcs. */
  const TWO_32: int := 0x1_0000_0000

  /** The number of values of `usize` on a 64-bit platform. */
  const TWO_64: int := 0x1_0000_0000_0000_0000

  /** The bound of `i128`. */
  const TWO_127: int := 0x8000_0000_0000_0000_0000_0000_0000_0000

  type U32 = n: int | 0 <= n < 0x1_0000_0000

  /** Tag classes in their canonical order: universal, application, context, private. */
  type Class = c: int | 0 <= c < 4

  datatype Tag = Tag(cls: Class, value: U32)

  const EOC := Tag(0, 0)

  predicate TagLess(a: Tag, b: Tag) {
    a.cls < b.cls || (a.cls == b.cls && a.value < b.value)
  }

  function Flatten(s: seq<Bytes>): Bytes {
    if s == [] then [] else s[0] + Flatten(s[1..])
  }

  function Min(a: nat, b: nat): nat {
    if a < b then a else b
  }

  function Max(a: nat, b: nat): nat {
    if a < b then b else a
  }

  ghost predicate Distinct<T>(s: seq<T>) {
    forall i, j :: 0 <= i < j < |s| ==> s[i] != s[j]
  }
}
