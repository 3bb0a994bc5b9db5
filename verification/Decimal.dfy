/** Decimal numerals, as C# interpolation and Rust's `{}` print them. */
module Decimal {

  function Digit(d: nat): char
    requires d < 10
  {
    "0123456789"[d]
  }

  predicate IsDigit(c: char) {
    '0' <= c <= '9'
  }

  function Print(n: nat): (s: string)
    ensures |s| > 0 && forall i :: 0 <= i < |s| ==> IsDigit(s[i])
  {
    if n < 10 then [Digit(n)] else Print(n / 10) + [Digit(n % 10)]
  }

  function Read(s: string): nat {
    if s == [] then 0 else
    var c := s[|s| - 1];
    10 * Read(s[..|s| - 1]) + if IsDigit(c) then c as int - '0' as int else 0
  }

  /** Printing can be read back, so it is injective. */
  lemma {:induction false} PrintRead(n: nat)
    ensures Read(Print(n)) == n
  {
    if n >= 10 {
      PrintRead(n / 10);
      assert Print(n)[..|Print(n)| - 1] == Print(n / 10);
    } else {
      assert Print(n)[..0] == [];
    }
  }

  lemma PrintInjective(m: nat, n: nat)
    requires Print(m) == Print(n)
    ensures m == n
  {
    PrintRead(m);
    PrintRead(n);
  }

  /** What a printed number looks like: digits, and no zero in front of others. */
  predicate IsNumeral(s: string) {
    s != [] && (forall i :: 0 <= i < |s| ==> IsDigit(s[i])) && (|s| > 1 ==> s[0] != '0')
  }

  lemma {:induction false} PrintIsNumeral(n: nat)
    ensures IsNumeral(Print(n)) && (n > 0 ==> Print(n)[0] != '0')
  {
    if n >= 10 { PrintIsNumeral(n / 10); }
  }

  lemma DigitValue(c: char)
    requires IsDigit(c)
    ensures Digit(c as int - '0' as int) == c
  {}

  lemma PrintLast(front: nat, d: nat)
    requires front > 0 && d < 10
    ensures Print(10 * front + d) == Print(front) + [Digit(d)]
  {}

  lemma {:induction false} NumeralPrints(s: string)
    requires IsNumeral(s)
    ensures Print(Read(s)) == s && (Read(s) > 0 <==> s[0] != '0')
  {
    var front, c := s[..|s| - 1], s[|s| - 1];
    assert s == front + [c] && IsDigit(c);
    DigitValue(c);
    if front != [] {
      NumeralPrints(front);
      PrintLast(Read(front), c as int - '0' as int);
    }
  }

  /** The numerals are exactly the printed numbers. */
  lemma NumeralIff(s: string)
    ensures IsNumeral(s) <==> exists n: nat :: Print(n) == s
  {
    if IsNumeral(s) {
      NumeralPrints(s);
    }
    if n: nat :| Print(n) == s {
      PrintIsNumeral(n);
    }
  }
}
