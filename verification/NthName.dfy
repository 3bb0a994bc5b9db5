/** `nth_name`: names for benchmark rows, claimed to be an injection on 64-bit numbers. */
module NthName {
  import Decimal

  /** `FIRST_NAMES`. */
  function FirstName(i: nat): string
    requires i < 32
  {
    match i
    case 0 => "Anthony"
    case 1 => "Tony"
    case 2 => "Antonio"
    case 3 => "Barbara"
    case 4 => "Charles"
    case 5 => "Daniel"
    case 6 => "Danyl"
    case 7 => "Darkholder Fleshbane"
    case 8 => "Dan"
    case 9 => "David"
    case 10 => "Droog"
    case 11 => "Elizabeth"
    case 12 => "Liz"
    case 13 => "James"
    case 14 => "Jim"
    case 15 => "Jimmy"
    case 16 => "Jennifer"
    case 17 => "Jen"
    case 18 => "John"
    case 19 => "Linda"
    case 20 => "Lindy"
    case 21 => "Margaret"
    case 22 => "Marge"
    case 23 => "Mary"
    case 24 => "Michael"
    case 25 => "Nutmeg"
    case 26 => "Richard"
    case 27 => "Dick"
    case 28 => "Robert"
    case 29 => "Thomas"
    case 30 => "Tom"
    case _ => "Zanzibar"
  }

  /** `LAST_NAMES`. */
  function LastName(i: nat): string
    requires i < 32
  {
    match i
    case 0 => "Anderson"
    case 1 => "Brown"
    case 2 => "Carter"
    case 3 => "Cook"
    case 4 => "Davis"
    case 5 => "Frogson"
    case 6 => "Garcia"
    case 7 => "Green"
    case 8 => "Hall"
    case 9 => "Harris"
    case 10 => "Hill"
    case 11 => "Hunch"
    case 12 => "Jackson"
    case 13 => "Johnson"
    case 14 => "Jones"
    case 15 => "Lewis"
    case 16 => "Martin"
    case 17 => "Miller"
    case 18 => "Moore"
    case 19 => "Morgan"
    case 20 => "Robinson"
    case 21 => "Sanchez"
    case 22 => "Smith"
    case 23 => "Taylor"
    case 24 => "The Destroyer"
    case 25 => "Thomas"
    case 26 => "Thompson"
    case 27 => "Walker"
    case 28 => "White"
    case 29 => "Williams"
    case 30 => "Wilson"
    case _ => "Wood"
  }

  /** Enough of a name to tell those of one table apart. */
  function Signature(s: string): (nat, char, char, char, char)
    requires |s| >= 3
  {
    (|s|, s[0], s[1], s[2], s[|s| - 1])
  }

  function FirstIndex(s: string): nat
    requires |s| >= 3
  {
    match Signature(s)
    case (7, 'A', 'n', 't', 'y') => 0
    case (4, 'T', 'o', 'n', 'y') => 1
    case (7, 'A', 'n', 't', 'o') => 2
    case (7, 'B', 'a', 'r', 'a') => 3
    case (7, 'C', 'h', 'a', 's') => 4
    case (6, 'D', 'a', 'n', 'l') => 5
    case (5, 'D', 'a', 'n', 'l') => 6
    case (20, 'D', 'a', 'r', 'e') => 7
    case (3, 'D', 'a', 'n', 'n') => 8
    case (5, 'D', 'a', 'v', 'd') => 9
    case (5, 'D', 'r', 'o', 'g') => 10
    case (9, 'E', 'l', 'i', 'h') => 11
    case (3, 'L', 'i', 'z', 'z') => 12
    case (5, 'J', 'a', 'm', 's') => 13
    case (3, 'J', 'i', 'm', 'm') => 14
    case (5, 'J', 'i', 'm', 'y') => 15
    case (8, 'J', 'e', 'n', 'r') => 16
    case (3, 'J', 'e', 'n', 'n') => 17
    case (4, 'J', 'o', 'h', 'n') => 18
    case (5, 'L', 'i', 'n', 'a') => 19
    case (5, 'L', 'i', 'n', 'y') => 20
    case (8, 'M', 'a', 'r', 't') => 21
    case (5, 'M', 'a', 'r', 'e') => 22
    case (4, 'M', 'a', 'r', 'y') => 23
    case (7, 'M', 'i', 'c', 'l') => 24
    case (6, 'N', 'u', 't', 'g') => 25
    case (7, 'R', 'i', 'c', 'd') => 26
    case (4, 'D', 'i', 'c', 'k') => 27
    case (6, 'R', 'o', 'b', 't') => 28
    case (6, 'T', 'h', 'o', 's') => 29
    case (3, 'T', 'o', 'm', 'm') => 30
    case _ => 31
  }

  function LastIndex(s: string): nat
    requires |s| >= 3
  {
    match Signature(s)
    case (8, 'A', 'n', 'd', 'n') => 0
    case (5, 'B', 'r', 'o', 'n') => 1
    case (6, 'C', 'a', 'r', 'r') => 2
    case (4, 'C', 'o', 'o', 'k') => 3
    case (5, 'D', 'a', 'v', 's') => 4
    case (7, 'F', 'r', 'o', 'n') => 5
    case (6, 'G', 'a', 'r', 'a') => 6
    case (5, 'G', 'r', 'e', 'n') => 7
    case (4, 'H', 'a', 'l', 'l') => 8
    case (6, 'H', 'a', 'r', 's') => 9
    case (4, 'H', 'i', 'l', 'l') => 10
    case (5, 'H', 'u', 'n', 'h') => 11
    case (7, 'J', 'a', 'c', 'n') => 12
    case (7, 'J', 'o', 'h', 'n') => 13
    case (5, 'J', 'o', 'n', 's') => 14
    case (5, 'L', 'e', 'w', 's') => 15
    case (6, 'M', 'a', 'r', 'n') => 16
    case (6, 'M', 'i', 'l', 'r') => 17
    case (5, 'M', 'o', 'o', 'e') => 18
    case (6, 'M', 'o', 'r', 'n') => 19
    case (8, 'R', 'o', 'b', 'n') => 20
    case (7, 'S', 'a', 'n', 'z') => 21
    case (5, 'S', 'm', 'i', 'h') => 22
    case (6, 'T', 'a', 'y', 'r') => 23
    case (13, 'T', 'h', 'e', 'r') => 24
    case (6, 'T', 'h', 'o', 's') => 25
    case (8, 'T', 'h', 'o', 'n') => 26
    case (6, 'W', 'a', 'l', 'r') => 27
    case (5, 'W', 'h', 'i', 'e') => 28
    case (8, 'W', 'i', 'l', 's') => 29
    case (6, 'W', 'i', 'l', 'n') => 30
    case _ => 31
  }

  /** The tables hold 32 different names each, and the punctuation of the printed form occurs in
      none of them. */
  lemma FirstKnown(i: nat)
    requires i < 32
    ensures |FirstName(i)| >= 3 && FirstIndex(FirstName(i)) == i
  {}

  lemma FirstPlain(i: nat)
    requires i < 32
    ensures '[' !in FirstName(i)
  {
    if i < 16 { FirstPlainLow(i); } else { FirstPlainHigh(i); }
  }

  lemma FirstPlainLow(i: nat)
    requires i < 16
    ensures '[' !in FirstName(i)
  {}

  lemma FirstPlainHigh(i: nat)
    requires 16 <= i < 32
    ensures '[' !in FirstName(i)
  {}

  lemma LastKnown(i: nat)
    requires i < 32
    ensures |LastName(i)| >= 3 && LastIndex(LastName(i)) == i
  {}

  lemma LastPlain(i: nat)
    requires i < 32
    ensures ',' !in LastName(i)
  {
    if i < 16 { LastPlainLow(i); } else { LastPlainHigh(i); }
  }

  lemma LastPlainLow(i: nat)
    requires i < 16
    ensures ',' !in LastName(i)
  {}

  lemma LastPlainHigh(i: nat)
    requires 16 <= i < 32
    ensures ',' !in LastName(i)
  {}

  /** The three digits of `n`: two of radix 32, and the rest. */
  function First(n: nat): nat { n % 32 }
  function Last(n: nat): nat { (n / 32) % 32 }
  function Remaining(n: nat): nat { n / (32 * 32) }

  /** The source's own assertion. */
  lemma Recombines(n: nat)
    ensures n == First(n) + Last(n) * 32 + Remaining(n) * 32 * 32
  {}

  function NthName(n: nat): string {
    LastName(Last(n)) + ", " + FirstName(First(n)) + " [" + Decimal.Print(Remaining(n)) + "]"
  }

  lemma NthNameExample()
    ensures NthName(1057) == "Brown, Tony [1]"
  {
    assert First(1057) == 1 && Last(1057) == 1 && Remaining(1057) == 1;
    assert Decimal.Print(1) == "1";
  }

  /** A string is cut in one way at the first occurrence of a character. */
  lemma CutUnique(a: string, b: string, c: char, x: string, y: string)
    requires c !in a && c !in b && a + [c] + x == b + [c] + y
    ensures a == b && x == y
  {
    var s, t := a + [c] + x, b + [c] + y;
    assert s[|a|] == c && t[|b|] == c;
    assert forall i :: 0 <= i < |a| ==> s[i] == a[i];
    assert forall i :: 0 <= i < |b| ==> t[i] == b[i];
    assert |a| == |b|;
    assert a == s[..|a|] && b == t[..|b|];
    assert x == s[|a| + 1..] && y == t[|b| + 1..];
  }

  /** What follows the comma. */
  function AfterComma(n: nat): string {
    " " + FirstName(First(n)) + " [" + Decimal.Print(Remaining(n)) + "]"
  }

  lemma NameParts(n: nat)
    ensures NthName(n) == LastName(Last(n)) + [','] + AfterComma(n)
    ensures AfterComma(n) == (" " + FirstName(First(n)) + " ") + ['['] + (Decimal.Print(Remaining(n)) + "]")
    ensures ',' !in LastName(Last(n)) && '[' !in " " + FirstName(First(n)) + " "
  {
    LastPlain(Last(n));
    FirstPlain(First(n));
  }

  /** Different numbers get different names. */
  lemma NthNameInjective(m: nat, n: nat)
    requires NthName(m) == NthName(n)
    ensures m == n
  {
    NameParts(m);
    NameParts(n);
    CutUnique(LastName(Last(m)), LastName(Last(n)), ',', AfterComma(m), AfterComma(n));
    CutUnique(" " + FirstName(First(m)) + " ", " " + FirstName(First(n)) + " ", '[',
              Decimal.Print(Remaining(m)) + "]", Decimal.Print(Remaining(n)) + "]");
    DigitsEqual(m, n);
  }

  lemma FirstInjective(i: nat, j: nat)
    requires i < 32 && j < 32 && FirstName(i) == FirstName(j)
    ensures i == j
  {
    FirstKnown(i);
    FirstKnown(j);
  }

  lemma LastInjective(i: nat, j: nat)
    requires i < 32 && j < 32 && LastName(i) == LastName(j)
    ensures i == j
  {
    LastKnown(i);
    LastKnown(j);
  }

  lemma RemainingEqual(m: nat, n: nat)
    requires Decimal.Print(m) + "]" == Decimal.Print(n) + "]"
    ensures m == n
  {
    assert "" + Decimal.Print(m) + "]" == Decimal.Print(m) + "]";
    assert "" + Decimal.Print(n) + "]" == Decimal.Print(n) + "]";
    Trim(Decimal.Print(m), Decimal.Print(n), "", "]");
    Decimal.PrintInjective(m, n);
  }

  lemma DigitsEqual(m: nat, n: nat)
    requires LastName(Last(m)) == LastName(Last(n))
    requires " " + FirstName(First(m)) + " " == " " + FirstName(First(n)) + " "
    requires Decimal.Print(Remaining(m)) + "]" == Decimal.Print(Remaining(n)) + "]"
    ensures m == n
  {
    LastInjective(Last(m), Last(n));
    Trim(FirstName(First(m)), FirstName(First(n)), " ", " ");
    FirstInjective(First(m), First(n));
    RemainingEqual(Remaining(m), Remaining(n));
    Recombines(m);
    Recombines(n);
  }

  lemma Trim(a: string, b: string, pre: string, post: string)
    requires pre + a + post == pre + b + post
    ensures a == b
  {
    assert |a| == |b|;
    assert a == (pre + a + post)[|pre|..|pre| + |a|] && b == (pre + b + post)[|pre|..|pre| + |b|];
  }
}
