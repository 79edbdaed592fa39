/** Decimal and hexadecimal numerals, as Rust prints and parses them. */
module Numerals {
  import opened Common

  predicate IsDigit(c: char) {
    '0' <= c <= '9'
  }

  predicate AllDigits(s: string) {
    forall i :: 0 <= i < |s| ==> IsDigit(s[i])
  }

  function DigitChar(d: nat): (c: char)
    requires d < 10
    ensures IsDigit(c)
  {
    ('0' as int + d) as char
  }

  function DigitValue(c: char): (d: nat)
    requires IsDigit(c)
    ensures d < 10
  {
    c as int - '0' as int
  }

  function NatText(n: nat): (s: string)
    ensures s != "" && AllDigits(s)
  {
    if n < 10 then [DigitChar(n)] else NatText(n / 10) + [DigitChar(n % 10)]
  }

  function NatValue(s: string): nat
    requires AllDigits(s)
  {
    if s == "" then 0 else 10 * NatValue(s[..|s| - 1]) + DigitValue(s[|s| - 1])
  }

  function IntText(i: int): string {
    if i < 0 then "-" + NatText(-i) else NatText(i)
  }

  /** An optional minus sign and at least one digit. */
  predicate IsIntText(s: string) {
    var digits := Unsigned(s);
    digits != "" && AllDigits(digits)
  }

  /** The numeral without its minus sign. */
  function Unsigned(s: string): string {
    if s != "" && s[0] == '-' then s[1..] else s
  }

  function ParseInt(s: string): Option<int> {
    if !IsIntText(s) then None
    else if s[0] == '-' then Some(0 - NatValue(s[1..]) as int)
    else Some(NatValue(s))
  }

  /** `str::parse::<u32>`: digits only, below 2^32. */
  function ParseU32(s: string): Option<U32> {
    if s == "" || !AllDigits(s) || NatValue(s) >= TWO_32 then None else Some(NatValue(s))
  }

  lemma {:induction false} NatValueText(n: nat)
    ensures NatValue(NatText(n)) == n
  {
    if n >= 10 {
      NatValueText(n / 10);
      var s := NatText(n);
      assert s[..|s| - 1] == NatText(n / 10);
    }
  }

  lemma ParseIntText(i: int)
    ensures IsIntText(IntText(i))
    ensures ParseInt(IntText(i)) == Some(i)
  {
    hide NatText, NatValue;
    if i < 0 {
      NatValueText(-i);
      assert IntText(i)[1..] == NatText(-i);
    } else {
      NatValueText(i);
      assert IsDigit(NatText(i)[0]);
    }
  }

  function HexChar(n: nat): char
    requires n < 16
  {
    if n < 10 then DigitChar(n) else ('A' as int + (n - 10)) as char
  }

  function Nibble(c: char): (n: Option<nat>)
    ensures n.Some? ==> n.value < 16
  {
    if IsDigit(c) then Some(DigitValue(c))
    else if 'a' <= c <= 'f' then Some(c as int - 'a' as int + 10)
    else if 'A' <= c <= 'F' then Some(c as int - 'A' as int + 10)
    else None
  }

  function HexText(bytes: Bytes): string {
    if bytes == [] then "" else [HexChar(bytes[0] / 16), HexChar(bytes[0] % 16)] + HexText(bytes[1..])
  }

  function HexBytes(s: string): Option<Bytes> {
    if s == "" then Some([])
    else if |s| == 1 then None
    else
      var hi := Nibble(s[0]);
      var lo := Nibble(s[1]);
      var rest := HexBytes(s[2..]);
      if hi.None? || lo.None? || rest.None? then None
      else Some([16 * hi.value + lo.value] + rest.value)
  }

  lemma NibbleHexChar(n: nat)
    requires n < 16
    ensures Nibble(HexChar(n)) == Some(n)
  {
  }

  lemma {:induction false} HexBytesText(bytes: Bytes)
    ensures HexBytes(HexText(bytes)) == Some(bytes)
  {
    if bytes != [] {
      NibbleHexChar(bytes[0] / 16);
      NibbleHexChar(bytes[0] % 16);
      HexBytesText(bytes[1..]);
      var text := HexText(bytes);
      assert text[2..] == HexText(bytes[1..]) && |text| >= 2;
      assert bytes == [bytes[0]] + bytes[1..];
    }
  }
}
