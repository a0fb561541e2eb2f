/**
  Character-level helpers: searching a string from the right, and the decimal
  rendering of integers that `strconv.Itoa` performs, together with the parser
  that inverts it.
 */
module Strings {

  /** Index of the last occurrence of `c` in `s`, or -1 when `c` does not occur. */
  function LastIndex(s: string, c: char): (r: int)
    ensures -1 <= r < |s|
    ensures r >= 0 ==> s[r] == c
    ensures forall i :: r < i < |s| ==> s[i] != c
    decreases |s|
  {
    if s == [] then -1
    else if s[|s| - 1] == c then |s| - 1
    else LastIndex(s[..|s| - 1], c)
  }

  predicate IsDigit(c: char) {
    '0' <= c <= '9'
  }

  predicate AllDigits(s: string) {
    forall i :: 0 <= i < |s| ==> IsDigit(s[i])
  }

  /** A natural number written in decimal without zero-padding. */
  predicate CanonicalNat(s: string) {
    |s| > 0 && AllDigits(s) && (s[0] == '0' ==> |s| == 1)
  }

  /** An integer as strconv.Itoa writes it: no zero-padding, no '+' and no "-0". */
  predicate CanonicalInt(s: string) {
    IntString(s) && (if s[0] == '-' then CanonicalNat(s[1..]) && s[1] != '0' else CanonicalNat(s))
  }

  /** An optionally signed decimal numeral. */
  predicate IntString(s: string) {
    |s| > 0 && (if s[0] == '-' then |s| > 1 && AllDigits(s[1..]) else AllDigits(s))
  }

  function DigitChar(d: nat): (c: char)
    requires d < 10
    ensures IsDigit(c) && (c == '0' <==> d == 0)
  {
    (48 + d) as char
  }

  function DigitValue(c: char): (d: nat)
    requires IsDigit(c)
    ensures d < 10
  {
    c as int - 48
  }

  /** Decimal digits of `n`, most significant first, with no leading zero. */
  function NatToString(n: nat): (s: string)
    ensures CanonicalNat(s)
    ensures n == 0 <==> s == "0"
    decreases n
  {
    if n < 10 then [DigitChar(n)] else NatToString(n / 10) + [DigitChar(n % 10)]
  }

  /** Value of a string of decimal digits (the empty string reads as 0). */
  function StringToNat(s: string): nat
    requires AllDigits(s)
    decreases |s|
  {
    if s == [] then 0 else StringToNat(s[..|s| - 1]) * 10 + DigitValue(s[|s| - 1])
  }

  /** strconv.Itoa: the decimal form of `n`, with a leading '-' exactly when `n` is negative. */
  function Itoa(n: int): (s: string)
    ensures IntString(s) && CanonicalInt(s)
    ensures s[0] == '-' <==> n < 0
    ensures n >= 0 ==> CanonicalNat(s)
    ensures n < 0 ==> CanonicalNat(s[1..]) && s[1] != '0'
  {
    if n < 0 then "-" + NatToString(-n) else NatToString(n)
  }

  /** Value of an optionally signed decimal numeral; the inverse of Itoa. */
  function Atoi(s: string): int
    requires IntString(s)
  {
    if s[0] == '-' then -(StringToNat(s[1..]) as int) else StringToNat(s)
  }

  lemma {:induction false} NatToStringRoundTrip(n: nat)
    ensures StringToNat(NatToString(n)) == n
    decreases n
  {
    if n >= 10 {
      NatToStringRoundTrip(n / 10);
      var s := NatToString(n);
      assert s[..|s| - 1] == NatToString(n / 10);
      assert DigitValue(s[|s| - 1]) == n % 10;
    }
  }

  /** Reading back what Itoa wrote gives the original integer. */
  lemma ItoaRoundTrip(n: int)
    ensures Atoi(Itoa(n)) == n
  {
    if n < 0 {
      NatToStringRoundTrip(-n);
      assert Itoa(n)[1..] == NatToString(-n);
    } else {
      NatToStringRoundTrip(n);
    }
  }

  /** Every canonical numeral is what NatToString writes for its value. */
  lemma {:induction false} StringToNatRoundTrip(s: string)
    requires CanonicalNat(s)
    ensures NatToString(StringToNat(s)) == s
    decreases |s|
  {
    var c := s[|s| - 1];
    assert DigitChar(DigitValue(c)) == c;
    if |s| > 1 {
      var p := s[..|s| - 1];
      assert p[0] == s[0];
      StringToNatRoundTrip(p);
      var v := StringToNat(p);
      assert p != "0";
      assert v != 0;
      var n := StringToNat(s);
      assert n == v * 10 + DigitValue(c);
      assert n / 10 == v && n % 10 == DigitValue(c);
      assert NatToString(n) == p + [c];
      assert p + [c] == s;
    } else {
      assert s == [c];
    }
  }

  /** Itoa inverts Atoi on canonical numerals, so Itoa writes exactly the canonical ones. */
  lemma AtoiRoundTrip(s: string)
    requires CanonicalInt(s)
    ensures Itoa(Atoi(s)) == s
  {
    if s[0] == '-' {
      var t := s[1..];
      StringToNatRoundTrip(t);
      assert t != "0";
      assert StringToNat(t) != 0;
      assert "-" + t == s;
    } else {
      StringToNatRoundTrip(s);
    }
  }

  /** Distinct integers are rendered as distinct strings. */
  lemma ItoaInjective(m: int, n: int)
    ensures Itoa(m) == Itoa(n) ==> m == n
  {
    ItoaRoundTrip(m);
    ItoaRoundTrip(n);
  }
}
