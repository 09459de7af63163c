/**
 * Upper-case hexadecimal text as produced by Long.toHexString / Integer.toHexString
 * followed by toUpperCase(), and the '0' padding of the hexPlain helpers.
 */
module Hex {

  const Digits: string := "0123456789ABCDEF"

  predicate IsHexDigit(c: char) {
    '0' <= c <= '9' || 'A' <= c <= 'F'
  }

  function DigitValue(c: char): (d: nat)
    requires IsHexDigit(c)
    ensures d < 16 && Digits[d] == c
  {
    if '0' <= c <= '9' then (c as int) - ('0' as int) else (c as int) - ('A' as int) + 10
  }

  /** The digits of n, most significant first, with no leading zero ("0" for zero). */
  function ToHex(n: nat): (r: string)
    ensures 1 <= |r|
    ensures forall i :: 0 <= i < |r| ==> IsHexDigit(r[i])
  {
    if n < 16 then [Digits[n]] else ToHex(n / 16) + [Digits[n % 16]]
  }

  /** The value of a string of hex digits, read most significant first. */
  function ParseHex(s: string): (v: nat)
    requires forall i :: 0 <= i < |s| ==> IsHexDigit(s[i])
  {
    if s == [] then 0 else 16 * ParseHex(s[..|s| - 1]) + DigitValue(s[|s| - 1])
  }

  function Pow16(k: nat): (r: nat)
    ensures r >= 1
  {
    if k == 0 then 1 else 16 * Pow16(k - 1)
  }

  /** k '0' characters. */
  function ZeroPad(k: nat): (r: string)
    ensures |r| == k && forall i :: 0 <= i < k ==> r[i] == '0'
  {
    seq(k, _ => '0')
  }

  /** Integer.toHexString: a negative int prints as its 32-bit two's-complement pattern. */
  function IntHex(number: int): (r: string)
    ensures forall i :: 0 <= i < |r| ==> IsHexDigit(r[i])
    ensures ParseHex(r) == number % 0x1_0000_0000
  {
    ParseToHex(number % 0x1_0000_0000);
    ToHex(number % 0x1_0000_0000)
  }

  /** s left-padded with '0' to at least length characters: what hexPlain returns. */
  function PadLeft(s: string, length: int): (r: string)
    ensures |r| == if length > |s| then length else |s|
    ensures r[|r| - |s|..] == s
    ensures forall i :: 0 <= i < |r| - |s| ==> r[i] == '0'
  {
    ZeroPad(if length > |s| then length - |s| else 0) + s
  }

  /** ToHex is read back by ParseHex. */
  lemma {:induction false} ParseToHex(n: nat)
    ensures ParseHex(ToHex(n)) == n
  {
    var r := ToHex(n);
    DigitValueOf(n % 16);
    if n >= 16 {
      ParseToHex(n / 16);
      assert r[..|r| - 1] == ToHex(n / 16);
    }
  }

  /** Each digit reads back as its own value. */
  lemma DigitValueOf(d: nat)
    requires d < 16
    ensures DigitValue(Digits[d]) == d
  {
  }

  /** ToHex never starts with a redundant zero. */
  lemma ToHexNoLeadingZero(n: nat)
    ensures ToHex(n)[0] == '0' <==> n == 0
  {
    if n >= 16 {
      ToHexNoLeadingZero(n / 16);
    }
  }

  /** A number below 16^k takes at most k digits. */
  lemma {:induction false} ToHexLength(n: nat, k: nat)
    requires 1 <= k && n < Pow16(k)
    ensures |ToHex(n)| <= k
  {
    if n >= 16 {
      assert k >= 2;
      ToHexLength(n / 16, k - 1);
    }
  }

  /** Leading zeros do not change the value. */
  lemma {:induction false} ParseHexZeros(k: nat, s: string)
    requires forall i :: 0 <= i < |s| ==> IsHexDigit(s[i])
    ensures forall i :: 0 <= i < k + |s| ==> IsHexDigit((ZeroPad(k) + s)[i])
    ensures ParseHex(ZeroPad(k) + s) == ParseHex(s)
  {
    if k > 0 {
      ParseHexZeros(k - 1, s);
      assert ZeroPad(k) + s == ['0'] + (ZeroPad(k - 1) + s);
      ParseHexZeroPrefix(ZeroPad(k - 1) + s);
    } else {
      assert ZeroPad(k) + s == s;
    }
  }

  lemma {:induction false} ParseHexZeroPrefix(s: string)
    requires forall i :: 0 <= i < |s| ==> IsHexDigit(s[i])
    ensures ParseHex(['0'] + s) == ParseHex(s)
  {
    if s == [] {
      assert ParseHex(['0']) == 16 * ParseHex([]) + DigitValue('0');
    } else {
      var t := ['0'] + s;
      assert t[..|t| - 1] == ['0'] + s[..|s| - 1];
      ParseHexZeroPrefix(s[..|s| - 1]);
    }
  }
}
