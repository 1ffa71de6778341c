/** Decimal digits, as the parsers of HTTP lengths and process ids read them. */
module Decimal {

  predicate IsDigit(c: char) { '0' <= c <= '9' }

  predicate AllDigits(s: string) { forall i :: 0 <= i < |s| ==> IsDigit(s[i]) }

  /** The digits, each at its value. */
  const DIGITS: string := "0123456789"

  lemma DigitAt(d: nat)
    requires d < 10
    ensures DIGITS[d] as int == '0' as int + d
  {
  }

  /** `c - '0'` */
  function DigitValue(c: char): (d: nat)
    requires IsDigit(c)
    ensures d < 10 && DIGITS[d] == c
  {
    DigitAt(c as int - '0' as int);
    c as int - '0' as int
  }

  /** The digits are the ten characters, and no others. */
  lemma IsDigitIff(c: char)
    ensures IsDigit(c) <==> c in DIGITS
  {
    if IsDigit(c) {
      assert DIGITS[DigitValue(c)] == c;
    } else if c in DIGITS {
      var d :| 0 <= d < 10 && DIGITS[d] == c;
      DigitAt(d);
    }
  }

  function Pow10(k: nat): (p: nat)
    ensures p > 0
  {
    if k == 0 then 1 else 10 * Pow10(k - 1)
  }

  /** The number written by a run of digits, leading zeros allowed. */
  function Val(s: string): (v: nat)
    requires AllDigits(s)
    ensures v < Pow10(|s|)
  {
    if s == "" then 0
    else
      assert |s[..|s| - 1]| == |s| - 1;
      Val(s[..|s| - 1]) * 10 + DigitValue(s[|s| - 1])
  }

  /** The decimal form of `n`, as a sender writes it. */
  function Dec(n: nat): (s: string)
    ensures s != "" && AllDigits(s) && Val(s) == n
  {
    DigitAt(n % 10);
    if n < 10 then
      var s := [DIGITS[n]];
      assert s[..0] == "";
      s
    else
      var s := Dec(n / 10) + [DIGITS[n % 10]];
      assert s[..|s| - 1] == Dec(n / 10);
      s
  }

  function Noughts(k: nat): string { seq(k, _ => '0') }

  lemma DivMod(v: nat, d: nat)
    requires d < 10
    ensures (v * 10 + d) / 10 == v && (v * 10 + d) % 10 == d
  {
  }

  lemma DecUnfold(n: nat)
    ensures Dec(n) == (if n < 10 then "" else Dec(n / 10)) + [DIGITS[n % 10]]
  {
    hide Val;
  }

  lemma DecNext(v: nat, d: nat)
    requires d < 10
    ensures Dec(v * 10 + d) == (if v == 0 then "" else Dec(v)) + [DIGITS[d]]
  {
    hide Val, Dec;
    DivMod(v, d);
    DecUnfold(v * 10 + d);
  }

  lemma ValNext(s: string)
    requires s != "" && AllDigits(s)
    ensures IsDigit(s[|s| - 1]) && AllDigits(s[..|s| - 1])
    ensures Val(s) == Val(s[..|s| - 1]) * 10 + DigitValue(s[|s| - 1])
  {
    hide DigitValue, Pow10, Dec;
  }

  lemma LastDigit(s: string)
    requires s != "" && IsDigit(s[|s| - 1])
    ensures s == s[..|s| - 1] + [DIGITS[DigitValue(s[|s| - 1])]]
  {
    hide DigitValue;
  }

  /** The decimal of `v`, with nothing for 0. */
  function Positive(v: nat): string { if v == 0 then "" else Dec(v) }

  /** Every run of digits is noughts and then the decimal of the number that `Val` gives it. */
  lemma {:induction false} ValIsDecimal(s: string) returns (k: nat)
    requires AllDigits(s)
    ensures k <= |s| && s == Noughts(k) + Positive(Val(s))
  {
    hide Dec, Val, DigitValue, Pow10;
    if s == "" {
      k := 0;
      assert Val("") == 0 by { ValNothing(); }
    } else {
      var n := |s| - 1;
      var v, d := Val(s[..n]), DigitValue(s[n]);
      var m := ValIsDecimal(s[..n]);
      ValNext(s);
      LastDigit(s);
      DecNext(v, d);
      k := if v == 0 && d == 0 then m + 1 else m;
      assert DIGITS[0] == '0';
      assert s == Noughts(m) + (Positive(v) + [DIGITS[d]]);
      assert v == 0 && d == 0 ==> Noughts(m) + ("" + [DIGITS[0]]) == Noughts(k) + "";
    }
  }

  lemma ValNothing()
    ensures Val("") == 0
  {
  }

  /** Noughts in front do not count. */
  lemma {:induction false} ValNoughts(k: nat, s: string)
    requires AllDigits(s)
    ensures AllDigits(Noughts(k) + s) && Val(Noughts(k) + s) == Val(s)
    decreases |s|, k
  {
    hide Val, Dec, DigitValue, Pow10;
    var t := Noughts(k) + s;
    if s != "" {
      var init := s[..|s| - 1];
      assert t[..|t| - 1] == Noughts(k) + init && t[|t| - 1] == s[|s| - 1];
      ValNoughts(k, init);
      ValNext(s);
      ValNext(t);
    } else if k > 0 {
      assert t[..|t| - 1] == Noughts(k - 1) + "" && t[|t| - 1] == '0';
      ValNoughts(k - 1, "");
      ValNext(t);
      LastDigit(t);
      DigitAt(DigitValue('0'));
      ValNothing();
    } else {
      assert t == s;
    }
  }

  lemma {:induction false} DecLength(n: nat, k: nat)
    requires 1 <= k && n < Pow10(k)
    ensures |Dec(n)| <= k
  {
    if n >= 10 {
      DecLength(n / 10, k - 1);
    }
  }

  lemma NineDigits()
    ensures Pow10(9) == 1_000_000_000
  {
  }

  /** A number below 10^9 takes at most nine digits. */
  lemma DecShort(n: nat)
    requires n < 1_000_000_000
    ensures |Dec(n)| <= 9
  {
    NineDigits();
    DecLength(n, 9);
  }

  /** Nine digits never exceed 999999999. */
  lemma ValShort(s: string)
    requires AllDigits(s) && |s| <= 9
    ensures Val(s) < 1_000_000_000
  {
    NineDigits();
    Pow10Grows(|s|, 9);
  }

  lemma {:induction false} Pow10Grows(j: nat, k: nat)
    requires j <= k
    ensures Pow10(j) <= Pow10(k)
  {
    if j < k { Pow10Grows(j, k - 1); }
  }
}
