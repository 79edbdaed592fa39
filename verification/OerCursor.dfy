/**
 The positions and widths the OER encoder computes before it writes a SEQUENCE, so that it can
 reserve the preamble and the extension bitmap and patch them when the presence bits are known.
 */
module OerCursor {
  import opened Common
  import opened Bits
  import opened BigEndian
  import opened OerTypes
  import opened OerEncode

  datatype Cursor = Cursor(
    numberOptionalDefault: nat,
    preambleWidth: nat,
    preambleCursor: nat,
    missingBits: nat,
    bitfieldWidth: nat,
    bitmapWidth: nat,
    bitmapTotalWidth: nat,
    bitmapCursor: nat)

  function ILog2(n: nat): nat {
    if n < 2 then 0 else 1 + ILog2(n / 2)
  }

  /** The octets reserved for the length determinant of a bitmap; the width is cut to 32 bits. */
  function ReservedLength(width: nat): nat {
    if width <= 127 then 1 else 1 + (ILog2(width % TWO_32) + 7) / 8
  }

  function NewCursor(optional: nat, extensible: bool, additions: nat): Cursor {
    var e := if extensible then 1 else 0;
    var preambleMissing := (8 - (e + optional) % 8) % 8;
    var missing := if additions > 0 then (8 - additions % 8) % 8 else 0;
    var bitfieldWidth := (additions + missing) / 8;
    var bitmapWidth := 1 + bitfieldWidth;
    Cursor(optional, (optional + e + preambleMissing) / 8, 0, missing, bitfieldWidth, bitmapWidth,
           bitmapWidth + ReservedLength(bitmapWidth), 0)
  }

  const NoCursor := Cursor(0, 0, 0, 0, 0, 0, 0, 0)

  /** The widths agree with the layout of clause 16 of X.696. */
  lemma CursorWidths(optional: nat, extensible: bool, additions: nat)
    ensures var c := NewCursor(optional, extensible, additions);
            && c.preambleWidth == Octets(optional + if extensible then 1 else 0)
            && c.missingBits == Missing(additions)
            && c.bitfieldWidth == Octets(additions)
            && c.bitmapWidth == BitmapWidth(additions)
  {
  }

  lemma {:induction false} ILog2Octet(n: nat)
    requires n >= 256
    ensures ILog2(n) == 8 + ILog2(n / 256)
  {
    assert n / 2 / 2 == n / 4;
    assert n / 4 / 2 / 2 == n / 16;
    assert n / 16 / 2 / 2 == n / 64;
    assert n / 64 / 2 / 2 == n / 256;
    assert ILog2(n) == 2 + ILog2(n / 4);
    assert ILog2(n / 4) == 2 + ILog2(n / 16);
    assert ILog2(n / 16) == 2 + ILog2(n / 64);
    assert ILog2(n / 64) == 2 + ILog2(n / 256);
  }

  lemma SmallLog(n: nat)
    requires 0 < n < 256
    ensures ILog2(n) < 8 && (ILog2(n) == 0 <==> n < 2)
  {
    assert Power2(7) == 128 by {
      assert Power2(4) == 16;
    }
    Below(n, 7);
  }

  function Power2(k: nat): (p: nat)
    ensures p >= 1
  {
    if k == 0 then 1 else 2 * Power2(k - 1)
  }

  lemma {:induction false} Below(n: nat, k: nat)
    requires n < 2 * Power2(k)
    ensures ILog2(n) <= k
  {
    if n >= 2 && k > 0 {
      Below(n / 2, k - 1);
    }
  }

  lemma {:induction false} LogLength(n: nat)
    requires n > 0
    ensures |UnsignedBytes(n)| == ILog2(n) / 8 + 1
  {
    if n < 256 {
      SmallLog(n);
    } else {
      ILog2Octet(n);
      LogLength(n / 256);
    }
  }

  /** A bitmap width whose length determinant is reserved one octet too short. */
  predicate Short(width: nat) {
    0x100 <= width < 0x200 || 0x1_0000 <= width < 0x2_0000 || 0x100_0000 <= width < 0x200_0000
  }

  lemma {:induction false} WholeLog(width: nat)
    requires 0 < width < TWO_32
    ensures width > 127 ==> (ILog2(width) % 8 == 0 <==> Short(width))
  {
    hide ILog2;
    if width < 0x100 {
      if width > 127 {
        HighLog(width);
      }
    } else {
      ILog2Octet(width);
      var a := width / 256;
      if a < 256 {
        SmallLog(a);
      } else {
        ILog2Octet(a);
        var b := a / 256;
        if b < 256 {
          SmallLog(b);
        } else {
          ILog2Octet(b);
          SmallLog(b / 256);
        }
      }
    }
  }

  lemma HighLog(n: nat)
    requires 128 <= n < 256
    ensures ILog2(n) == 7
  {
    assert n / 128 == n / 64 / 2 && n / 64 == n / 32 / 2 && n / 32 == n / 16 / 2 && n / 16 == n / 8 / 2;
    assert n / 8 == n / 4 / 2 && n / 4 == n / 2 / 2;
    assert n / 128 == 1 && ILog2(1) == 0 && ILog2(n / 64) == 1 && ILog2(n / 32) == 2 && ILog2(n / 16) == 3;
    assert ILog2(n / 8) == 4 && ILog2(n / 4) == 5 && ILog2(n / 2) == 6;
  }

  /**
   The reserved bitmap is as wide as the written one exactly if its width is not `Short`; otherwise
   it is one octet too narrow.
   */
  lemma ReservedWidth(additions: nat)
    requires BitmapWidth(additions) < TWO_32
    ensures var w := BitmapWidth(additions);
            EncLength(w).Some? && ReservedLength(w) == |EncLength(w).value| - if Short(w) then 1 else 0
  {
    hide ILog2, UnsignedBytes;
    var w := BitmapWidth(additions);
    UsizeLength(w);
    LogLength(w);
    WholeLog(w);
  }

  /** Up to 2032 additions the two widths agree; 2033 is the first count for which they do not. */
  lemma ReservedWidthSmall(additions: nat)
    ensures additions <= 2032 ==> !Short(BitmapWidth(additions)) && BitmapWidth(additions) < TWO_32
    ensures additions == 2033 ==> Short(BitmapWidth(additions))
  {
  }

  // ----- Use of the worker buffer -----

  /**
   The encoder can write `v`: an extension needs the worker buffer, which is free only outside of
   extension additions, and its bitmap has to fit in the reserved octets.
   */
  ghost predicate Ready(ty: Type, v: Value, free: bool)
    requires Encodable(v, ty)
    decreases ty, 1, 0
  {
    match ty
    case SequenceType(root, _, additions) =>
      && (AnyAddition(v.additions) ==> free && BitmapWidth(|additions|) < TWO_32 && !Short(BitmapWidth(|additions|)))
      && FieldsReady(root, v.root, free)
      && AdditionsReady(additions, v.additions)
    case SequenceOfType(element) => forall i :: 0 <= i < |v.items| ==> Ready(element, v.items[i], free)
    case ChoiceType(alternatives) =>
      (alternatives[v.chosen].extension ==> free) && Ready(alternatives[v.chosen].ty, v.inner, free)
    case _ => true
  }

  ghost predicate FieldsReady(components: seq<Component>, fields: seq<Option<Value>>, free: bool)
    requires FieldsEncodable(fields, components)
    decreases components, 0, 0
  {
    components != [] ==>
      FieldReady(components[0], fields[0], free) && FieldsReady(components[1..], fields[1..], free)
  }

  ghost predicate FieldReady(c: Component, field: Option<Value>, free: bool)
    requires ComponentWellFormed(c) && FieldMatches(field, c)
    decreases c, 0, 0
  {
    !Omitted(c, field) ==> Ready(c.ty, field.value, free)
  }

  /** An addition is written whenever it has a value, also when that is its DEFAULT. */
  ghost predicate AdditionsReady(components: seq<Component>, fields: seq<Option<Value>>)
    requires FieldsEncodable(fields, components)
    decreases components, 0, 0
  {
    components != [] ==> AdditionReady(components[0], fields[0]) && AdditionsReady(components[1..], fields[1..])
  }

  ghost predicate AdditionReady(c: Component, field: Option<Value>)
    requires ComponentWellFormed(c) && FieldMatches(field, c)
    decreases c, 0, 0
  {
    field.Some? ==> Ready(c.ty, field.value, false)
  }
}
