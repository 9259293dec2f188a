/** Decimal numerals as `strconv.Itoa` and `%d` print them for non-negative integers. */
module Decimal {
  predicate IsDigit(c: char) {
    '0' <= c <= '9'
  }

  predicate AllDigits(s: string) {
    forall i :: 0 <= i < |s| ==> IsDigit(s[i])
  }

  /** The texts that are the numeral of some number: no leading zero, except "0" itself. */
  predicate Canonical(s: string) {
    s != "" && AllDigits(s) && (s[0] == '0' ==> |s| == 1)
  }

  function Digit(d: nat): (c: char)
    requires d < 10
    ensures IsDigit(c)
  {
    '0' + d as char
  }

  function Itoa(n: nat): (s: string)
    ensures AllDigits(s) && s != ""
  {
    if n < 10 then [Digit(n)] else Itoa(n / 10) + [Digit(n % 10)]
  }

  /** The number a digit string denotes. */
  function Atoi(s: string): nat
    requires AllDigits(s)
  {
    if s == "" then 0 else 10 * Atoi(s[..|s| - 1]) + (s[|s| - 1] - '0') as nat
  }

  /** Reading a printed number gives it back; so `Itoa` is injective. */
  lemma {:induction false} AtoiItoa(n: nat)
    ensures Atoi(Itoa(n)) == n
  {
    if n < 10 {
    } else {
      AtoiItoa(n / 10);
      var s := Itoa(n);
      assert s[..|s| - 1] == Itoa(n / 10);
    }
  }

  lemma {:induction false} ItoaCanonical(n: nat)
    ensures Canonical(Itoa(n))
    ensures n > 0 ==> Itoa(n)[0] != '0'
  {
    if n < 10 {
    } else {
      ItoaCanonical(n / 10);
    }
  }

  lemma {:induction false} AtoiPositive(s: string)
    requires s != "" && AllDigits(s) && s[0] != '0'
    ensures Atoi(s) > 0
  {
    if |s| == 1 {
    } else {
      AtoiPositive(s[..|s| - 1]);
    }
  }

  /** Every canonical numeral is printed by the number it denotes. */
  lemma {:induction false} ItoaAtoi(s: string)
    requires Canonical(s)
    ensures Itoa(Atoi(s)) == s
  {
    var init, last := s[..|s| - 1], s[|s| - 1];
    if init != "" {
      AtoiPositive(init);
      ItoaAtoi(init);
      var d := (last - '0') as nat;
      assert Atoi(s) / 10 == Atoi(init) && Atoi(s) % 10 == d;
      assert Digit(d) == last;
      assert init + [last] == s;
    } else {
      assert Atoi(init) == 0;
      assert s == [last];
    }
  }

  lemma ItoaInjective(m: nat, n: nat)
    requires Itoa(m) == Itoa(n)
    ensures m == n
  {
    AtoiItoa(m);
    AtoiItoa(n);
  }
}
