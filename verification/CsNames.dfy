/** The spelling of the identifiers in emitted code. */
module CsNames {
  import Decimal
  import opened CsLanguage

  function Render(x: Name): string {
    match x
    case Iter(l) => "___i" + Decimal.Print(l)
    case TmpA(l) => "___tmpA" + Decimal.Print(l)
    case TmpB(l) => "___tmpB" + Decimal.Print(l)
    case Tmp(l) => "___tmp" + Decimal.Print(l)
    case HashAcc(l) => "___hc" + Decimal.Print(l)
    case Out(l) => "___out" + Decimal.Print(l)
    case EqOf(m) => "___eq" + m
    case HashOf(m) => "___hash" + m
    case ThisDot(m) => "this." + m
    case ThatDot(m) => "that." + m
    case Bare(m) => m
  }

  predicate Numbered(x: Name) {
    x.Iter? || x.TmpA? || x.TmpB? || x.Tmp? || x.HashAcc? || x.Out?
  }

  function Prefix(x: Name): string {
    match x
    case Iter(_) => "___i"
    case TmpA(_) => "___tmpA"
    case TmpB(_) => "___tmpB"
    case Tmp(_) => "___tmp"
    case HashAcc(_) => "___hc"
    case Out(_) => "___out"
    case EqOf(_) => "___eq"
    case HashOf(_) => "___hash"
    case ThisDot(_) => "this."
    case ThatDot(_) => "that."
    case Bare(_) => ""
  }

  function Suffix(x: Name): string {
    if Numbered(x) then Decimal.Print(x.level) else x.member
  }

  /** The prefix of a name that is not a plain member, told from its spelling alone. */
  function PrefixIn(s: string): string
    requires |s| >= 5
  {
    if s[4] == '.' then (if s[2] == 'i' then "this." else "that.")
    else if s[3] == 'i' then "___i"
    else if s[3] == 'o' then "___out"
    else if s[3] == 'e' then "___eq"
    else if s[3] == 'h' then (if s[4] == 'c' then "___hc" else "___hash")
    else if |s| > 6 && s[6] == 'A' then "___tmpA"
    else if |s| > 6 && s[6] == 'B' then "___tmpB"
    else "___tmp"
  }

  lemma PrefixKnown(x: Name)
    requires !x.Bare?
    ensures Render(x) == Prefix(x) + Suffix(x) && |Render(x)| >= 5 && PrefixIn(Render(x)) == Prefix(x)
  {
    var s := Render(x);
    match x
    case ThisDot(_) => assert s[4] == '.' && s[2] == 'i';
    case ThatDot(_) => assert s[4] == '.' && s[2] == 'a';
    case Tmp(l) =>
      assert Decimal.IsDigit(Suffix(x)[0]);
      assert s[3] == 't' && s[4] == 'm' && s[6] == Suffix(x)[0];
    case TmpA(_) => assert s[3] == 't' && s[4] == 'm' && s[6] == 'A';
    case TmpB(_) => assert s[3] == 't' && s[4] == 'm' && s[6] == 'B';
    case HashAcc(_) => assert s[3] == 'h' && s[4] == 'c';
    case HashOf(_) => assert s[3] == 'h' && s[4] == 'a';
    case EqOf(_) => assert s[3] == 'e' && s[4] == 'q';
    case Out(_) => assert s[3] == 'o' && s[4] == 'u';
    case Iter(_) => assert s[3] == 'i' && s[4] == Suffix(x)[0];
  }

  /** The names the generator makes up are spelled apart, whatever the members are called. */
  lemma GeneratedInjective(x: Name, y: Name)
    requires !x.Bare? && !y.Bare? && Render(x) == Render(y)
    ensures x == y
  {
    PrefixKnown(x);
    PrefixKnown(y);
    assert Suffix(x) == Render(x)[|Prefix(x)|..] == Suffix(y);
    if Numbered(x) {
      Decimal.PrintInjective(x.level, y.level);
    }
  }

  predicate NumberedAfter(prefix: string, m: string) {
    prefix <= m && Decimal.IsNumeral(m[|prefix|..])
  }

  /** A member name that the generator may make up itself. */
  predicate Reserved(m: string) {
    || "___eq" <= m || "___hash" <= m
    || NumberedAfter("___i", m) || NumberedAfter("___tmpA", m) || NumberedAfter("___tmpB", m)
    || NumberedAfter("___tmp", m) || NumberedAfter("___hc", m) || NumberedAfter("___out", m)
  }

  lemma GeneratedIsReserved(x: Name)
    requires !x.Bare? && '.' !in Render(x)
    ensures Reserved(Render(x))
  {
    PrefixKnown(x);
    var s, p := Render(x), Prefix(x);
    assert p <= s && s[|p|..] == Suffix(x) && s[4] in s;
    if Numbered(x) { Decimal.PrintIsNumeral(x.level); }
  }

  function AtLevel(x: Name, level: nat): Name
    requires Numbered(x)
  {
    x.(level := level)
  }

  lemma NumberedIsGenerated(x: Name, m: string)
    requires Numbered(x) && NumberedAfter(Prefix(x), m)
    ensures Render(AtLevel(x, Decimal.Read(m[|Prefix(x)|..]))) == m
  {
    Decimal.NumeralPrints(m[|Prefix(x)|..]);
    assert m == Prefix(x) + m[|Prefix(x)|..];
  }

  lemma ReservedIsGenerated(m: string) returns (x: Name)
    requires Reserved(m)
    ensures !x.Bare? && Render(x) == m
  {
    if "___eq" <= m {
      x := EqOf(m[5..]);
    } else if "___hash" <= m {
      x := HashOf(m[7..]);
    } else {
      var y :=
        if NumberedAfter("___i", m) then Iter(0)
        else if NumberedAfter("___tmpA", m) then TmpA(0)
        else if NumberedAfter("___tmpB", m) then TmpB(0)
        else if NumberedAfter("___tmp", m) then Tmp(0)
        else if NumberedAfter("___hc", m) then HashAcc(0)
        else Out(0);
      NumberedIsGenerated(y, m);
      x := AtLevel(y, Decimal.Read(m[|Prefix(y)|..]));
    }
  }

  /** Exactly the reserved names clash with a name the generator makes up in some role and level. */
  lemma ReservedIff(m: string)
    requires '.' !in m
    ensures Reserved(m) <==> exists x: Name :: !x.Bare? && Render(x) == m
  {
    if Reserved(m) {
      var x := ReservedIsGenerated(m);
    }
    if x: Name :| !x.Bare? && Render(x) == m {
      GeneratedIsReserved(x);
    }
  }

  ghost predicate Usable(x: Name) {
    x.Bare? ==> '.' !in x.member && !Reserved(x.member)
  }

  /** No two identifiers of the emitted code are spelled alike, provided no member is reserved. */
  lemma RenderInjective(x: Name, y: Name)
    requires Usable(x) && Usable(y) && Render(x) == Render(y)
    ensures x == y
  {
    if !x.Bare? && !y.Bare? {
      GeneratedInjective(x, y);
    } else if x.Bare? {
      ReservedIff(x.member);
    } else {
      ReservedIff(y.member);
    }
  }

  /** The identifiers in the `Equals` and the `GetHashCode` of types with these members, nested to
      any depth. */
  ghost predicate InEquals(members: set<string>, x: Name) {
    match x
    case ThisDot(m) => m in members
    case ThatDot(m) => m in members
    case EqOf(m) => m in members
    case Out(l) => l > 0
    case _ => x.Iter? || x.TmpA? || x.TmpB?
  }

  ghost predicate InHash(members: set<string>, x: Name) {
    match x
    case Bare(m) => m in members
    case HashOf(m) => m in members
    case Out(l) => l > 0
    case _ => x.Iter? || x.Tmp? || x.HashAcc?
  }

  /** A member that a local of `GetHashCode` is spelled like. */
  predicate Captured(members: set<string>, m: string) {
    || ("___hash" <= m && m[7..] in members)
    || NumberedAfter("___i", m) || NumberedAfter("___tmp", m) || NumberedAfter("___hc", m)
    || (NumberedAfter("___out", m) && m != "___out0")
  }

  lemma CapturingLocal(members: set<string>, m: string) returns (x: Name)
    requires Captured(members, m)
    ensures InHash(members, x) && !x.Bare? && Render(x) == m
  {
    if "___hash" <= m && m[7..] in members {
      x := HashOf(m[7..]);
    } else {
      var y :=
        if NumberedAfter("___i", m) then Iter(0)
        else if NumberedAfter("___tmp", m) then Tmp(0)
        else if NumberedAfter("___hc", m) then HashAcc(0)
        else Out(0);
      NumberedIsGenerated(y, m);
      assert Render(Out(0)) == "___out0";
      x := AtLevel(y, Decimal.Read(m[|Prefix(y)|..]));
    }
  }

  lemma LocalCaptures(members: set<string>, x: Name)
    requires InHash(members, x) && !x.Bare?
    ensures Captured(members, Render(x))
  {
    var s, p := Render(x), Prefix(x);
    assert s == p + Suffix(x) && p <= s && s[|p|..] == Suffix(x);
    if Numbered(x) { Decimal.PrintIsNumeral(x.level); }
    if x.Out? { OutIsNotZero(x.level); }
  }

  lemma OutIsNotZero(l: nat)
    requires l > 0
    ensures Render(Out(l)) != "___out0"
  {
    assert Render(Out(l))[6..] == Decimal.Print(l) && "___out0"[6..] == Decimal.Print(0);
    Decimal.PrintRead(l);
    Decimal.PrintRead(0);
  }

  ghost predicate HashNamesApart(members: set<string>) {
    forall x: Name, y: Name :: InHash(members, x) && InHash(members, y) && Render(x) == Render(y) ==> x == y
  }

  /** They are spelled apart if and only if no member is spelled like a local. */
  lemma HashNamesApartIff(members: set<string>)
    ensures HashNamesApart(members) <==> forall m :: m in members ==> !Captured(members, m)
  {
    if m :| m in members && Captured(members, m) {
      var x := CapturingLocal(members, m);
      assert InHash(members, Bare(m)) && Render(Bare(m)) == Render(x);
    } else {
      forall x: Name, y: Name | InHash(members, x) && InHash(members, y) && Render(x) == Render(y) ensures x == y {
        if !x.Bare? && !y.Bare? {
          GeneratedInjective(x, y);
        } else if !x.Bare? {
          LocalCaptures(members, x);
        } else if !y.Bare? {
          LocalCaptures(members, y);
        }
      }
    }
  }
}
