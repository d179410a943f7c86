/** Decimal and hexadecimal numerals as the address text forms use them:
    decimal octets of dotted-decimal IPv4 text and hexadecimal 16-bit
    groups of IPv6 text. */
module Numerals {
  import opened Common

  predicate IsDigit(c: char) { '0' <= c <= '9' }

  predicate AllDigits(s: seq<char>) { forall i :: 0 <= i < |s| ==> IsDigit(s[i]) }

  function DigitValue(c: char): nat
    requires IsDigit(c)
  {
    c as int - '0' as int
  }

  function DigitChar(d: nat): (c: char)
    requires d < 10
    ensures IsDigit(c) && DigitValue(c) == d
  {
    ('0' as int + d) as char
  }

  /** The value of a string of decimal digits, most significant first. */
  function DecValue(s: seq<char>): nat
    requires AllDigits(s)
    decreases |s|
  {
    if |s| == 0 then 0 else 10 * DecValue(s[..|s| - 1]) + DigitValue(s[|s| - 1])
  }

  /** The decimal numeral of `n` without leading zeros, as `printf("%u")`
      writes it. */
  function Dec(n: nat): (s: seq<char>)
    ensures |s| >= 1 && AllDigits(s) && DecValue(s) == n
    ensures s[0] == '0' <==> n == 0
    ensures n < 10 ==> |s| == 1
    ensures n < 100 ==> |s| <= 2
    ensures n < 1000 ==> |s| <= 3
    decreases n
  {
    if n < 10 then [DigitChar(n)]
    else
      var s := Dec(n / 10) + [DigitChar(n % 10)];
      assert s[..|s| - 1] == Dec(n / 10);
      s
  }

  /** A digit string that does not start with '0' has a positive value. */
  lemma {:induction false} DecValuePositive(s: seq<char>)
    requires |s| >= 1 && AllDigits(s) && s[0] != '0'
    ensures DecValue(s) >= 1
    decreases |s|
  {
    if |s| > 1 {
      DecValuePositive(s[..|s| - 1]);
    }
  }

  /** A digit string without a leading zero is the numeral of its value:
      decimal numerals of that shape are canonical. */
  lemma {:induction false} DecCanonical(s: seq<char>)
    requires |s| >= 1 && AllDigits(s) && (|s| == 1 || s[0] != '0')
    ensures Dec(DecValue(s)) == s
    decreases |s|
  {
    if |s| > 1 {
      var p := s[..|s| - 1];
      DecValuePositive(p);
      DecCanonical(p);
      var v := DecValue(s);
      assert v == 10 * DecValue(p) + DigitValue(s[|s| - 1]);
      assert v / 10 == DecValue(p) && v % 10 == DigitValue(s[|s| - 1]);
      assert DigitChar(v % 10) == s[|s| - 1];
      assert s == p + [s[|s| - 1]];
    }
  }

  /** One field of dotted-decimal text: 1 to 3 digits, no leading zero
      unless the field is "0", value at most 255 (the rules of the
      BIND-derived inet_pton). */
  function ParseOctet(f: seq<char>): (r: Option<byte>)
    ensures r.Some? ==> Dec(r.value) == f
  {
    if 1 <= |f| && AllDigits(f) && (|f| == 1 || f[0] != '0') && DecValue(f) <= 255 then
      DecCanonical(f);
      Some(DecValue(f))
    else None
  }

  /** Every byte's numeral is accepted as that byte. */
  lemma ParseOctetDec(n: byte)
    ensures ParseOctet(Dec(n)) == Some(n)
  {
    DecCanonical(Dec(n));
  }

  predicate IsHexDigit(c: char)
  {
    IsDigit(c) || 'a' <= c <= 'f' || 'A' <= c <= 'F'
  }

  predicate AllHexDigits(s: seq<char>) { forall i :: 0 <= i < |s| ==> IsHexDigit(s[i]) }

  /** Hexadecimal digit value, accepting either case. */
  function HexDigitValue(c: char): (d: nat)
    requires IsHexDigit(c)
    ensures d < 16
  {
    if IsDigit(c) then DigitValue(c)
    else if 'a' <= c <= 'f' then c as int - 'a' as int + 10
    else c as int - 'A' as int + 10
  }

  /** The lower-case hexadecimal digit for `d`, as `printf("%x")` writes it. */
  function HexDigitChar(d: nat): (c: char)
    requires d < 16
    ensures IsHexDigit(c) && HexDigitValue(c) == d
    ensures !('A' <= c <= 'Z')
  {
    if d < 10 then DigitChar(d) else ('a' as int + d - 10) as char
  }

  function Pow16(k: nat): (p: nat)
    ensures p >= 1
  {
    if k == 0 then 1 else 16 * Pow16(k - 1)
  }

  /** The value of a string of hexadecimal digits, most significant first. */
  function HexValue(s: seq<char>): (v: nat)
    requires AllHexDigits(s)
    ensures v < Pow16(|s|)
    decreases |s|
  {
    if |s| == 0 then 0 else 16 * HexValue(s[..|s| - 1]) + HexDigitValue(s[|s| - 1])
  }

  /** The hexadecimal numeral of `n` in lower case without leading zeros,
      as `printf("%x")` writes it. */
  function Hex(n: nat): (s: seq<char>)
    ensures |s| >= 1 && AllHexDigits(s) && HexValue(s) == n
    ensures forall i :: 0 <= i < |s| ==> !('A' <= s[i] <= 'Z')
    ensures n < 0x10 ==> |s| == 1
    ensures n < 0x100 ==> |s| <= 2
    ensures n < 0x1000 ==> |s| <= 3
    ensures n < 0x1_0000 ==> |s| <= 4
    decreases n
  {
    if n < 16 then [HexDigitChar(n)]
    else
      var s := Hex(n / 16) + [HexDigitChar(n % 16)];
      assert s[..|s| - 1] == Hex(n / 16);
      s
  }

  /** One 16-bit group of IPv6 text: 1 to 4 hexadecimal digits. */
  function ParseGroup(f: seq<char>): (r: Option<word>)
    ensures r.Some? ==> 1 <= |f| <= 4 && AllHexDigits(f) && HexValue(f) == r.value
  {
    if 1 <= |f| <= 4 && AllHexDigits(f) then
      assert Pow16(|f|) <= Pow16(4) by {
        assert |f| == 1 || |f| == 2 || |f| == 3 || |f| == 4;
      }
      Some(HexValue(f))
    else None
  }

  /** Every group's numeral is accepted as that group. */
  lemma ParseGroupHex(w: word)
    ensures ParseGroup(Hex(w)) == Some(w)
  {
  }

  /** Numerals consist of digits only, so they hold neither separator nor NUL. */
  lemma NumeralChars(s: seq<char>)
    requires AllHexDigits(s)
    ensures '.' !in s && ':' !in s && '\0' !in s
  {
  }

  /** A four-digit group written digit by digit. */
  lemma HexFourDigits(n: nat)
    requires 0x1000 <= n < 0x1_0000
    ensures Hex(n) == [HexDigitChar(n / 0x1000), HexDigitChar(n / 0x100 % 16), HexDigitChar(n / 16 % 16), HexDigitChar(n % 16)]
  {
    var n1 := n / 16;
    var n2 := n1 / 16;
    var n3 := n2 / 16;
    assert n2 == n / 0x100 && n3 == n / 0x1000;
    assert Hex(n3) == [HexDigitChar(n3)];
    assert Hex(n2) == Hex(n3) + [HexDigitChar(n2 % 16)];
    assert Hex(n1) == Hex(n2) + [HexDigitChar(n1 % 16)];
    assert Hex(n) == Hex(n1) + [HexDigitChar(n % 16)];
  }

  /** A hexadecimal numeral starts with '0' only for 0: the group is
      written without leading zeros (section 4.1 of RFC 5952). */
  lemma {:induction false} HexLeadingDigit(n: nat)
    ensures Hex(n)[0] == '0' <==> n == 0
    decreases n
  {
    if n >= 16 {
      HexLeadingDigit(n / 16);
      assert Hex(n)[0] == Hex(n / 16)[0];
    }
  }

  /** The digits the documented examples use. */
  lemma HexDigitNames()
    ensures HexDigitChar(0) == '0' && HexDigitChar(1) == '1' && HexDigitChar(3) == '3' && HexDigitChar(7) == '7'
    ensures HexDigitChar(8) == '8' && HexDigitChar(9) == '9' && HexDigitChar(14) == 'e' && HexDigitChar(15) == 'f'
  {
  }

  /** The group of an IPv4-mapped address. */
  lemma HexFfff(n: nat)
    requires n == 0xffff
    ensures Hex(n) == "ffff"
  {
    HexFourDigits(n);
    HexDigitNames();
  }

}
