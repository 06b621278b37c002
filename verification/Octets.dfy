/** Octets and the numerals that HTTP/1.1 messages carry. */
module Octets {
  import opened Sequences

  newtype byte = x: int | 0 <= x < 256
  type Bytes = seq<byte>

  const CRLF: Bytes := [13, 10]
  const CRLF_CRLF: Bytes := [13, 10, 13, 10]
  const SPACE: byte := 32
  const COLON: byte := 58
  const SEMICOLON: byte := 59

  /** The octets of an ASCII literal. */
  function Ascii(s: string): (b: Bytes)
    ensures |b| == |s|
  {
    seq(|s|, i requires 0 <= i < |s| => (s[i] as int % 256) as byte)
  }

  // ---------------------------------------------------------------- case and white space

  function LowerOctet(c: byte): byte {
    if 65 <= c <= 90 then c + 32 else c
  }

  function Lower(s: Bytes): (r: Bytes)
    ensures |r| == |s|
  {
    seq(|s|, i requires 0 <= i < |s| => LowerOctet(s[i]))
  }

  /** ASCII white space as `str.strip` sees it: HT, LF, VT, FF, CR, FS, GS, RS, US and SP. */
  predicate IsSpace(c: byte) {
    9 <= c <= 13 || 28 <= c <= 32
  }

  function LStrip(s: Bytes): Bytes {
    if s != [] && IsSpace(s[0]) then LStrip(s[1..]) else s
  }

  function RStrip(s: Bytes): Bytes {
    if s != [] && IsSpace(s[|s| - 1]) then RStrip(s[..|s| - 1]) else s
  }

  function Strip(s: Bytes): Bytes {
    RStrip(LStrip(s))
  }

  // ---------------------------------------------------------------- numerals

  /** The value of a hexadecimal digit, or 16 for any other octet. */
  function DigitValue(c: byte): (v: nat)
    ensures v <= 16
  {
    if 48 <= c <= 57 then c as int - 48
    else if 97 <= c <= 102 then c as int - 87
    else if 65 <= c <= 70 then c as int - 55
    else 16
  }

  function HexDigit(d: nat): (c: byte)
    requires d < 16
    ensures DigitValue(c) == d && !IsSpace(c)
    ensures c as int !in {43, 45, 59, 95, 88, 120, 13, 10}
  {
    if d < 10 then (48 + d) as byte else (87 + d) as byte
  }

  /** `b"%x" % n`. */
  function Hex(n: nat): (s: Bytes)
    ensures |s| >= 1
  {
    if n < 16 then [HexDigit(n)] else Hex(n / 16) + [HexDigit(n % 16)]
  }

  predicate Digits(s: Bytes, base: nat) {
    forall i :: 0 <= i < |s| ==> DigitValue(s[i]) < base
  }

  function Numeral(s: Bytes, base: nat): nat
    requires Digits(s, base)
  {
    if s == [] then 0
    else Numeral(s[..|s| - 1], base) * base + DigitValue(s[|s| - 1])
  }

  /** `int(s, base)` on ASCII text: white space around the digits, and `0x` in base 16, are allowed. */
  function ParseInt(s: Bytes, base: nat): Option<nat> {
    var t := Strip(s);
    var t := if base == 16 && |t| >= 2 && t[0] == 48 && (t[1] == 120 || t[1] == 88) then t[2..] else t;
    if t != [] && Digits(t, base) then Some(Numeral(t, base)) else None
  }

  /** `_safe_int`: signs and digit separators are refused before `int` sees the text. */
  function SafeInt(s: Bytes, base: nat): Option<nat> {
    if 45 in s || 43 in s || 95 in s then None else ParseInt(s, base)
  }

  /** Every octet of a hexadecimal numeral is a hexadecimal digit. */
  lemma HexOctets(n: nat)
    ensures forall i :: 0 <= i < |Hex(n)| ==> Hex(n)[i] == HexDigit(DigitValue(Hex(n)[i]) % 16)
    ensures Digits(Hex(n), 16)
  {
  }

  lemma {:induction false} HexNumeral(n: nat)
    ensures Digits(Hex(n), 16) && Numeral(Hex(n), 16) == n
  {
    HexOctets(n);
    if n < 16 {
      assert Hex(n)[..0] == [];
    } else {
      HexNumeral(n / 16);
      assert Hex(n)[..|Hex(n)| - 1] == Hex(n / 16);
    }
  }

  /** What the chunk writer prints, the chunk reader reads: `_safe_int(b"%x" % n, 16) == n`. */
  lemma SafeIntOfHex(n: nat)
    ensures SafeInt(Hex(n), 16) == Some(n)
  {
    var s := Hex(n);
    HexOctets(n);
    HexNumeral(n);
    assert !IsSpace(s[0]) && !IsSpace(s[|s| - 1]);
    assert Strip(s) == s;
  }
}
