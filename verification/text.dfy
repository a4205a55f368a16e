/**
 The digit strings the colour conversions read and write: `parseInt(s, 16)` on a
 string of hexadecimal digits, `Number.prototype.toString(16)` on a non-negative
 integer, `String.prototype.toUpperCase` on ASCII text, and the decimal text a
 template literal writes for an integer.
 */
module Text {

  predicate IsHexDigit(c: char) {
    '0' <= c <= '9' || 'a' <= c <= 'f' || 'A' <= c <= 'F'
  }

  predicate IsUpperHexDigit(c: char) {
    '0' <= c <= '9' || 'A' <= c <= 'F'
  }

  predicate AllHexDigits(s: string) {
    forall i :: 0 <= i < |s| ==> IsHexDigit(s[i])
  }

  /** The value of one hexadecimal digit, in either case. */
  function HexDigitValue(c: char): (v: nat)
    requires IsHexDigit(c)
    ensures v < 16
  {
    if '0' <= c <= '9' then c as int - '0' as int
    else if 'a' <= c <= 'f' then c as int - 'a' as int + 10
    else c as int - 'A' as int + 10
  }

  /** The digit `toString(16)` writes for v: a decimal digit or a lower-case letter. */
  function LowerHexDigit(v: nat): (c: char)
    requires v < 16
    ensures IsHexDigit(c) && HexDigitValue(c) == v
    ensures '0' <= c <= '9' || 'a' <= c <= 'f'
  {
    if v < 10 then ('0' as int + v) as char else ('a' as int + v - 10) as char
  }

  /** The upper-case digit for v, which is what `#RRGGBB` output carries. */
  function UpperHexDigit(v: nat): (c: char)
    requires v < 16
    ensures IsUpperHexDigit(c) && HexDigitValue(c) == v
  {
    if v < 10 then ('0' as int + v) as char else ('A' as int + v - 10) as char
  }

  /** `toUpperCase` on one character; only ASCII letters are modelled. */
  function UpperChar(c: char): char {
    if 'a' <= c <= 'z' then (c as int - 32) as char else c
  }

  function ToUpper(s: string): (r: string)
    ensures |r| == |s|
    ensures forall i :: 0 <= i < |s| ==> r[i] == UpperChar(s[i])
  {
    seq(|s|, i requires 0 <= i < |s| => UpperChar(s[i]))
  }

  /** Upper-casing a lower-case digit gives the upper-case digit of the same value. */
  lemma UpperOfLowerDigit(v: nat)
    requires v < 16
    ensures UpperChar(LowerHexDigit(v)) == UpperHexDigit(v)
  {
  }

  /** Upper-casing a hexadecimal digit keeps its value and makes it upper case. */
  lemma UpperKeepsDigitValue(c: char)
    requires IsHexDigit(c)
    ensures IsHexDigit(UpperChar(c)) && IsUpperHexDigit(UpperChar(c))
    ensures HexDigitValue(UpperChar(c)) == HexDigitValue(c)
    ensures UpperChar(c) == UpperHexDigit(HexDigitValue(c))
  {
  }

  function Pow16(k: nat): (p: nat)
    ensures p >= 1
  {
    if k == 0 then 1 else 16 * Pow16(k - 1)
  }

  /** `parseInt(s, 16)` for a non-empty string made only of hexadecimal digits. */
  function ParseHex(s: string): (v: nat)
    requires |s| > 0 && AllHexDigits(s)
    ensures v < Pow16(|s|)
  {
    if |s| == 1 then HexDigitValue(s[0])
    else
      var init := s[..|s| - 1];
      var high := ParseHex(init);
      assert high <= Pow16(|init|) - 1;
      high * 16 + HexDigitValue(s[|s| - 1])
  }

  /** A two-digit string parses to sixteen times its first digit plus its second. */
  lemma ParseHexPair(s: string)
    requires |s| == 2 && AllHexDigits(s)
    ensures ParseHex(s) == 16 * HexDigitValue(s[0]) + HexDigitValue(s[1])
  {
    assert ParseHex(s[..1]) == HexDigitValue(s[0]);
  }

  /** `n.toString(16)`: lower-case digits, most significant first, no leading zero. */
  function ToBase16(n: nat): (r: string)
    ensures |r| >= 1
    ensures forall i :: 0 <= i < |r| ==> '0' <= r[i] <= '9' || 'a' <= r[i] <= 'f'
    decreases n
  {
    if n < 16 then [LowerHexDigit(n)]
    else ToBase16(n / 16) + [LowerHexDigit(n % 16)]
  }

  /** The last k hexadecimal digits of v, lower case, zero-padded on the left. */
  function PadHex(v: nat, k: nat): (r: string)
    ensures |r| == k
  {
    if k == 0 then [] else PadHex(v / 16, k - 1) + [LowerHexDigit(v % 16)]
  }

  /** Two padded digits of a byte are its high and its low nibble. */
  lemma PadHexByte(b: nat)
    requires b < 256
    ensures PadHex(b, 2) == [LowerHexDigit(b / 16), LowerHexDigit(b % 16)]
  {
    assert b / 16 / 16 == 0;
    assert (b / 16) % 16 == b / 16;
  }

  /** A number with a leading 1 digit at position k prints as "1" followed by the
      k padded digits of the rest: this is why dropping the first digit of
      2^24 + v leaves exactly six digits. */
  lemma {:induction false} ToBase16LeadingOne(k: nat, v: nat)
    requires v < Pow16(k)
    ensures ToBase16(Pow16(k) + v) == ['1'] + PadHex(v, k)
  {
    if k == 0 {
      assert v == 0;
      assert ToBase16(1) == [LowerHexDigit(1)];
    } else {
      var p := Pow16(k - 1);
      var n := Pow16(k) + v;
      assert n == 16 * (p + v / 16) + v % 16;
      assert n / 16 == p + v / 16;
      assert n % 16 == v % 16;
      assert v / 16 < p;
      ToBase16LeadingOne(k - 1, v / 16);
      assert ToBase16(n) == ToBase16(n / 16) + [LowerHexDigit(n % 16)];
    }
  }

  /** The padded digits of n = 256 * q + b are those of q followed by the two of b. */
  lemma PadHexSplit(n: nat, q: nat, b: nat, k: nat)
    requires b < 256 && n == 256 * q + b
    ensures PadHex(n, k + 2) == PadHex(q, k) + PadHex(b, 2)
  {
    assert n == 16 * (16 * q + b / 16) + b % 16;
    assert n / 16 == 16 * q + b / 16;
    assert n % 16 == b % 16;
    var m := 16 * q + b / 16;
    assert m / 16 == q;
    assert m % 16 == b / 16;
    assert PadHex(n, k + 2) == PadHex(m, k + 1) + [LowerHexDigit(b % 16)];
    assert PadHex(m, k + 1) == PadHex(q, k) + [LowerHexDigit(b / 16)];
    PadHexByte(b);
  }

  function DecimalDigit(v: nat): (c: char)
    requires v < 10
    ensures '0' <= c <= '9'
  {
    ('0' as int + v) as char
  }

  /** The decimal text of a natural number, as a template literal writes it. */
  function NatText(n: nat): (r: string)
    ensures |r| >= 1
    ensures forall i :: 0 <= i < |r| ==> '0' <= r[i] <= '9'
    decreases n
  {
    if n < 10 then [DecimalDigit(n)] else NatText(n / 10) + [DecimalDigit(n % 10)]
  }

  /** The decimal text of an integer, with a leading '-' when it is negative. */
  function IntText(i: int): (r: string)
    ensures |r| >= 1
    ensures i >= 0 ==> '0' <= r[0] <= '9'
    ensures i < 0 ==> r[0] == '-'
  {
    if i < 0 then "-" + NatText(-i) else NatText(i)
  }
}
