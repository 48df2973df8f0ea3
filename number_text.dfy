/**
 * Digit rendering shared by the formatters: `std::to_string` of integers
 * (base 10) and fmt's `{:X}` / `{:02X}` (upper-case base 16).
 */
module NumberText {
  predicate IsBase(base: nat) { base == 10 || base == 16 }

  /** The digit character for d < 16: '0'..'9', then upper-case 'A'..'F'. */
  function DigitChar(d: nat): (c: char)
    requires d < 16
  {
    if d < 10 then (48 + d) as char else (55 + d) as char
  }

  /** The value of one digit character, or `base` when it is not a digit of that base. */
  function DigitValue(c: char, base: nat): (d: nat)
    requires IsBase(base)
    ensures d <= base
    ensures d < base ==> DigitChar(d) == c
  {
    if '0' <= c <= '9' then c as int - 48
    else if base == 16 && 'A' <= c <= 'F' then c as int - 55
    else base
  }

  predicate IsDigitString(s: string, base: nat)
    requires IsBase(base)
  {
    forall i :: 0 <= i < |s| ==> DigitValue(s[i], base) < base
  }

  /** Shortest digit string of `n`, most significant digit first. */
  function NatToDigits(n: nat, base: nat): (s: string)
    requires IsBase(base)
    decreases n
  {
    if n < base then [DigitChar(n)] else NatToDigits(n / base, base) + [DigitChar(n % base)]
  }

  /** The value a digit string denotes. */
  function DigitsToNat(s: string, base: nat): nat
    requires IsBase(base)
    requires IsDigitString(s, base)
  {
    if s == [] then 0 else DigitsToNat(s[..|s| - 1], base) * base + DigitValue(s[|s| - 1], base)
  }

  lemma DigitValueOfDigit(d: nat, base: nat)
    requires IsBase(base) && d < base
    ensures DigitValue(DigitChar(d), base) == d
  {
  }

  /** Rendering is canonical and reading it back gives the number. */
  lemma {:induction false} NatToDigitsRoundTrip(n: nat, base: nat)
    requires IsBase(base)
    ensures |NatToDigits(n, base)| >= 1
    ensures IsDigitString(NatToDigits(n, base), base)
    ensures |NatToDigits(n, base)| > 1 ==> NatToDigits(n, base)[0] != '0'
    ensures DigitsToNat(NatToDigits(n, base), base) == n
    decreases n
  {
    var s := NatToDigits(n, base);
    if n < base {
      DigitValueOfDigit(n, base);
      assert s[..|s| - 1] == [];
    } else {
      var p := NatToDigits(n / base, base);
      NatToDigitsRoundTrip(n / base, base);
      DigitValueOfDigit(n % base, base);
      assert s == p + [DigitChar(n % base)];
      assert s[..|s| - 1] == p;
      assert s[0] == p[0];
    }
  }

  /** `std::to_string` of a non-negative value. */
  function NatToString(n: nat): string { NatToDigits(n, 10) }

  /** `std::to_string` of a signed value: a minus sign, then the magnitude. */
  function IntToString(i: int): string
  {
    if i < 0 then "-" + NatToString(-i) else NatToString(i)
  }

  /** fmt `{:X}`: upper-case hexadecimal without padding. */
  function HexString(n: nat): string { NatToDigits(n, 16) }

  /** fmt `{:02X}` of a byte: two upper-case hexadecimal digits. */
  function HexByte(b: nat): (s: string)
    requires b < 256
  {
    [DigitChar(b / 16), DigitChar(b % 16)]
  }

  /** Reads back what `IntToString` writes. */
  function ParseInt(s: string): (r: int)
    requires |s| >= 1
    requires s[0] == '-' ==> IsDigitString(s[1..], 10)
    requires s[0] != '-' ==> IsDigitString(s, 10)
  {
    if s[0] == '-' then 0 - (DigitsToNat(s[1..], 10) as int) else DigitsToNat(s, 10)
  }

  lemma IntToStringRoundTrip(i: int)
    ensures |IntToString(i)| >= 1
    ensures IntToString(i)[0] == '-' <==> i < 0
    ensures IntToString(i)[0] == '-' ==> IsDigitString(IntToString(i)[1..], 10)
    ensures IntToString(i)[0] != '-' ==> IsDigitString(IntToString(i), 10)
    ensures ParseInt(IntToString(i)) == i
  {
    var m: nat := if i < 0 then -i else i;
    NatToDigitsRoundTrip(m, 10);
    var d := NatToDigits(m, 10);
    assert d[0] != '-' by { assert DigitValue(d[0], 10) < 10; }
    if i < 0 {
      assert IntToString(i)[1..] == d;
    }
  }

  /** Two hex digits encode the byte: high nibble first. */
  lemma HexByteRoundTrip(b: nat)
    requires b < 256
    ensures |HexByte(b)| == 2 && IsDigitString(HexByte(b), 16)
    ensures DigitsToNat(HexByte(b), 16) == b
  {
    var s := HexByte(b);
    DigitValueOfDigit(b / 16, 16);
    DigitValueOfDigit(b % 16, 16);
    assert s[..1][..0] == [];
    assert s[..1] == [DigitChar(b / 16)];
    assert DigitsToNat(s[..1], 16) == b / 16;
    assert DigitsToNat(s, 16) == DigitsToNat(s[..1], 16) * 16 + b % 16;
  }
}
