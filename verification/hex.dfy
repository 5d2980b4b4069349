/** Lowercase hexadecimal rendering of bytes (`{:02x?}`) and of unsigned
    integers without leading zeros (`{:x?}`), with the parsers that invert them. */
module Hex {
  import opened Common

  /** The lowercase hex digit for a value in 0..15: '0'..'9', then 'a'..'f'. */
  function Digit(n: int): (c: char)
    requires 0 <= n < 16
    ensures '0' <= c <= '9' || 'a' <= c <= 'f'
  {
    if n < 10 then ('0' as int + n) as char else ('a' as int + n - 10) as char
  }

  predicate IsDigit(c: char) {
    '0' <= c <= '9' || 'a' <= c <= 'f'
  }

  /** The value of a lowercase hex digit. */
  function DigitValue(c: char): (n: int)
    requires IsDigit(c)
    ensures 0 <= n < 16
  {
    if '0' <= c <= '9' then c as int - '0' as int else c as int - 'a' as int + 10
  }

  /** Digit and DigitValue are mutually inverse on 0..15 and on the sixteen digits. */
  lemma DigitRoundTrip(n: int)
    requires 0 <= n < 16
    ensures IsDigit(Digit(n)) && DigitValue(Digit(n)) == n
  {
  }

  lemma DigitValueRoundTrip(c: char)
    requires IsDigit(c)
    ensures Digit(DigitValue(c)) == c
  {
  }

  /** A byte as exactly two zero-padded lowercase hex digits, high nibble first. */
  function ByteHex(b: u8): (s: string)
    ensures |s| == 2 && IsDigit(s[0]) && IsDigit(s[1])
  {
    [Digit(b / 16), Digit(b % 16)]
  }

  /** The byte denoted by a pair of hex digits. */
  function PairValue(hi: char, lo: char): (b: u8)
    requires IsDigit(hi) && IsDigit(lo)
  {
    DigitValue(hi) * 16 + DigitValue(lo)
  }

  /** Every byte is rendered by the unique two-digit pair that denotes it. */
  lemma ByteHexRoundTrip(b: u8)
    ensures PairValue(ByteHex(b)[0], ByteHex(b)[1]) == b
  {
    DigitRoundTrip(b / 16);
    DigitRoundTrip(b % 16);
  }

  /** An unsigned integer in lowercase hex with no leading zeros ("0" for zero). */
  function Nat(n: nat): (s: string)
    ensures 1 <= |s|
    ensures forall i :: 0 <= i < |s| ==> IsDigit(s[i])
    ensures s[0] == '0' <==> n == 0
    ensures n == 0 ==> s == "0"
  {
    if n < 16 then [Digit(n)]
    else Nat(n / 16) + [Digit(n % 16)]
  }

  predicate AllDigits(s: string) {
    forall i :: 0 <= i < |s| ==> IsDigit(s[i])
  }

  /** The value of a non-empty run of hex digits, most significant first. */
  function ParseNat(s: string): Option<nat>
  {
    if |s| == 0 || !IsDigit(s[|s| - 1]) then None
    else if |s| == 1 then Some(DigitValue(s[0]))
    else
      match ParseNat(s[..|s| - 1])
      case None => None
      case Some(v) => Some(v * 16 + DigitValue(s[|s| - 1]))
  }

  /** One more digit at the end multiplies the value by 16 and adds the digit. */
  lemma ParseNatSnoc(s: string, c: char, v: nat)
    requires ParseNat(s) == Some(v) && IsDigit(c)
    ensures ParseNat(s + [c]) == Some(v * 16 + DigitValue(c))
  {
    var t := s + [c];
    assert t[..|t| - 1] == s && t[|t| - 1] == c;
  }

  /** Parsing the rendering of n gives back n. */
  lemma {:induction false} NatRoundTrip(n: nat)
    ensures ParseNat(Nat(n)) == Some(n)
  {
    var q, r := n / 16, n % 16;
    DigitRoundTrip(r);
    if n >= 16 {
      NatRoundTrip(q);
      assert Nat(n) == Nat(q) + [Digit(r)];
      ParseNatSnoc(Nat(q), Digit(r), q);
    }
  }

  /** The rendering is canonical: a digit string without a leading zero (or "0"
      itself) that parses to n is exactly Nat(n). */
  lemma {:induction false} NatCanonical(s: string, n: nat)
    requires ParseNat(s) == Some(n)
    requires s[0] != '0' || s == "0"
    ensures Nat(n) == s
  {
    var last := s[|s| - 1];
    DigitValueRoundTrip(last);
    if |s| == 1 {
      assert n == DigitValue(last);
    } else {
      var init := s[..|s| - 1];
      var v :| ParseNat(init) == Some(v) && n == v * 16 + DigitValue(last);
      assert init[0] == s[0];
      NatCanonical(init, v);
      assert n / 16 == v && n % 16 == DigitValue(last);
      assert s == init + [last];
    }
  }
}
