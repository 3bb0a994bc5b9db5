/** Which identifiers the generated methods contain, and when two of them are spelled alike. */
module CsCapture {
  import Decimal
  import opened CsLanguage
  import opened CsEquality
  import opened CsHash
  import opened CsNames
  import opened CsProduct

  predicate InExpr(e: Expr, x: Name) {
    match e
    case Var(y) => x == y
    case Index(base, idx) => InExpr(base, x) || InExpr(idx, x)
    case Length(of) => InExpr(of, x)
    case Count(of) => InExpr(of, x)
    case Eq(l, r) => InExpr(l, x) || InExpr(r, x)
    case Ne(l, r) => InExpr(l, x) || InExpr(r, x)
    case Not(arg) => InExpr(arg, x)
    case Or(l, r) => InExpr(l, x) || InExpr(r, x)
    case And(l, r) => InExpr(l, x) || InExpr(r, x)
    case Xor(l, r) => InExpr(l, x) || InExpr(r, x)
    case Ternary(cond, yes, no) => InExpr(cond, x) || InExpr(yes, x) || InExpr(no, x)
    case CallEquals(recv, arg) => InExpr(recv, x) || InExpr(arg, x)
    case CallHash(recv) => InExpr(recv, x)
    case ToHashCode(acc) => InExpr(acc, x)
    case _ => false
  }

  /** Identifier `x` occurs in the statement. */
  predicate Occurs(s: Stmt, x: Name) {
    match s
    case Then(first, second) => Occurs(first, x) || Occurs(second, x)
    case Declare(y, init) => x == y || InExpr(init, x)
    case Assign(y, rhs) => x == y || InExpr(rhs, x)
    case HashAdd(y, code) => x == y || InExpr(code, x)
    case If(cond, thn, els) => InExpr(cond, x) || Occurs(thn, x) || Occurs(els, x)
    case For(i, bound, body) => x == i || InExpr(bound, x) || Occurs(body, x)
    case _ => false
  }

  lemma InSize(t: TypeUse, e: Expr, x: Name)
    ensures InExpr(SizeOf(t, e), x) == InExpr(e, x)
  {}

  lemma InNullTest(e: Expr, x: Name)
    ensures InExpr(Eq(e, NullLit), x) == InExpr(Ne(e, NullLit), x) == InExpr(e, x)
  {}

  lemma InElement(e: Expr, i: Name, x: Name)
    ensures InExpr(Index(e, Var(i)), x) <==> InExpr(e, x) || x == i
  {}

  lemma OccursThen(first: Stmt, second: Stmt, x: Name)
    ensures Occurs(Then(first, second), x) <==> Occurs(first, x) || Occurs(second, x)
  {}

  lemma OccursIf(cond: Expr, thn: Stmt, els: Stmt, x: Name)
    ensures Occurs(If(cond, thn, els), x) <==> InExpr(cond, x) || Occurs(thn, x) || Occurs(els, x)
  {}

  lemma OccursFor(i: Name, bound: Expr, body: Stmt, x: Name)
    ensures Occurs(For(i, bound, body), x) <==> x == i || InExpr(bound, x) || Occurs(body, x)
  {}

  lemma OccursDeclare(y: Name, init: Expr, x: Name)
    ensures Occurs(Declare(y, init), x) <==> x == y || InExpr(init, x)
    ensures Occurs(Assign(y, init), x) <==> x == y || InExpr(init, x)
  {}

  lemma InBoth(l: Expr, r: Expr, x: Name)
    ensures InExpr(Eq(l, r), x) == InExpr(Ne(l, r), x) == InExpr(Or(l, r), x) == (InExpr(l, x) || InExpr(r, x))
  {}

  lemma EqualsSequenceNames(t: TypeUse, a: Expr, b: Expr, out: Name, level: nat, x: Name)
    requires t.ArrayUse? || t.ListUse?
    ensures Occurs(EqualsStatement(t, a, b, out, level), x) <==>
            x == out || x == Iter(level) || InExpr(a, x) || InExpr(b, x) || Occurs(EqualsBody(t, a, b, out, level), x)
  {
    var m, n, body := SizeOf(t, a), SizeOf(t, b), EqualsBody(t, a, b, out, level);
    var sizes := If(Ne(m, n), Assign(out, BoolLit(false)), For(Iter(level), m, body));
    SizesNames(m, n, out, Iter(level), body, x);
    NullsNames(a, b, out, sizes, x);
    OccursDeclare(out, BoolLit(true), x);
    OccursThen(Declare(out, BoolLit(true)), If(Or(Eq(a, NullLit), Eq(b, NullLit)), Assign(out, Eq(a, b)), sizes), x);
    InSize(t, a, x);
    InSize(t, b, x);
  }

  lemma SizesNames(m: Expr, n: Expr, out: Name, i: Name, body: Stmt, x: Name)
    ensures Occurs(If(Ne(m, n), Assign(out, BoolLit(false)), For(i, m, body)), x)
            <==> x == out || x == i || InExpr(m, x) || InExpr(n, x) || Occurs(body, x)
  {
    InBoth(m, n, x);
    OccursFor(i, m, body, x);
    OccursDeclare(out, BoolLit(false), x);
    OccursIf(Ne(m, n), Assign(out, BoolLit(false)), For(i, m, body), x);
  }

  lemma NullsNames(a: Expr, b: Expr, out: Name, rest: Stmt, x: Name)
    ensures Occurs(If(Or(Eq(a, NullLit), Eq(b, NullLit)), Assign(out, Eq(a, b)), rest), x)
            <==> x == out || InExpr(a, x) || InExpr(b, x) || Occurs(rest, x)
  {
    InNullTest(a, x);
    InNullTest(b, x);
    InBoth(Eq(a, NullLit), Eq(b, NullLit), x);
    InBoth(a, b, x);
    OccursDeclare(out, Eq(a, b), x);
    OccursIf(Or(Eq(a, NullLit), Eq(b, NullLit)), Assign(out, Eq(a, b)), rest, x);
  }

  lemma EqualsCheckNames(out: Name, inner: Name, x: Name)
    ensures Occurs(If(Not(Var(inner)), Then(Assign(out, BoolLit(false)), Break), Skip), x) <==> x == inner || x == out
  {
    assert InExpr(Not(Var(inner)), x) == InExpr(Var(inner), x) == (x == inner);
    OccursDeclare(out, BoolLit(false), x);
    OccursThen(Assign(out, BoolLit(false)), Break, x);
    OccursIf(Not(Var(inner)), Then(Assign(out, BoolLit(false)), Break), Skip, x);
  }

  lemma EqualsBodyNames(t: TypeUse, a: Expr, b: Expr, out: Name, level: nat, x: Name)
    requires t.ArrayUse? || t.ListUse?
    ensures var i, inner := Var(Iter(level)), Out(level + 1);
      Occurs(EqualsBody(t, a, b, out, level), x) <==>
        || x == inner || x == out
        || if t.ArrayUse? then Occurs(EqualsStatement(t.elem, Index(a, i), Index(b, i), inner, level + 1), x)
           else x == TmpA(level) || x == TmpB(level) || x == Iter(level) || InExpr(a, x) || InExpr(b, x)
                || Occurs(EqualsStatement(t.elem, Var(TmpA(level)), Var(TmpB(level)), inner, level + 1), x)
  {
    var a', b', inner := Index(a, Var(Iter(level))), Index(b, Var(Iter(level))), Out(level + 1);
    var check := If(Not(Var(inner)), Then(Assign(out, BoolLit(false)), Break), Skip);
    EqualsCheckNames(out, inner, x);
    if t.ArrayUse? {
      OccursThen(EqualsStatement(t.elem, a', b', inner, level + 1), check, x);
    } else {
      var compare := EqualsStatement(t.elem, Var(TmpA(level)), Var(TmpB(level)), inner, level + 1);
      InElement(a, Iter(level), x);
      InElement(b, Iter(level), x);
      OccursDeclare(TmpA(level), a', x);
      OccursDeclare(TmpB(level), b', x);
      OccursThen(compare, check, x);
      OccursThen(Declare(TmpB(level), b'), Then(compare, check), x);
      OccursThen(Declare(TmpA(level), a'), Then(Declare(TmpB(level), b'), Then(compare, check)), x);
    }
  }

  lemma LeafEqualsNames(a: Expr, b: Expr, x: Name)
    ensures InExpr(CallEquals(a, b), x) <==> InExpr(a, x) || InExpr(b, x)
    ensures InExpr(Ternary(Eq(a, NullLit), Eq(b, NullLit), CallEquals(a, b)), x) <==> InExpr(a, x) || InExpr(b, x)
  {
    InNullTest(a, x);
    InNullTest(b, x);
  }

  lemma LeafHashNames(e: Expr, x: Name)
    ensures InExpr(CallHash(e), x) == InExpr(Ternary(Eq(e, NullLit), ZeroCode, CallHash(e)), x) == InExpr(e, x)
  {
    InNullTest(e, x);
  }

  /** Comparing two expressions adds no identifiers but the counters, temporaries and inner results. */
  lemma {:induction false} EqualsStatementNames(t: TypeUse, a: Expr, b: Expr, out: Name, level: nat, x: Name)
    requires Occurs(EqualsStatement(t, a, b, out, level), x)
    ensures x == out || InExpr(a, x) || InExpr(b, x) || InEquals({}, x)
    decreases t
  {
    if t.ArrayUse? || t.ListUse? {
      EqualsSequenceNames(t, a, b, out, level, x);
      EqualsBodyNames(t, a, b, out, level, x);
    } else {
      LeafEqualsNames(a, b, x);
    }
    var a', b', inner := Index(a, Var(Iter(level))), Index(b, Var(Iter(level))), Out(level + 1);
    if t.ArrayUse? && Occurs(EqualsStatement(t.elem, a', b', inner, level + 1), x) {
      EqualsStatementNames(t.elem, a', b', inner, level + 1, x);
      InElement(a, Iter(level), x);
      InElement(b, Iter(level), x);
    } else if t.ListUse? && Occurs(EqualsStatement(t.elem, Var(TmpA(level)), Var(TmpB(level)), inner, level + 1), x) {
      EqualsStatementNames(t.elem, Var(TmpA(level)), Var(TmpB(level)), inner, level + 1, x);
    }
  }

  lemma HashSequenceNames(t: TypeUse, e: Expr, out: Name, level: nat, x: Name)
    requires t.ArrayUse? || t.ListUse?
    ensures Occurs(HashStatement(t, e, out, level), x) <==>
            x == out || x == HashAcc(level) || x == Iter(level) || InExpr(e, x) || Occurs(HashBody(t, e, level), x)
  {
    var loop := For(Iter(level), SizeOf(t, e), HashBody(t, e, level));
    OccursFor(Iter(level), SizeOf(t, e), HashBody(t, e, level), x);
    InSize(t, e, x);
    FillNames(HashAcc(level), out, loop, x);
    var fill := Then(Declare(HashAcc(level), NewHashCode), Then(loop, Assign(out, ToHashCode(Var(HashAcc(level))))));
    GuardNames(e, out, fill, x);
  }

  lemma FillNames(acc: Name, out: Name, loop: Stmt, x: Name)
    ensures Occurs(Then(Declare(acc, NewHashCode), Then(loop, Assign(out, ToHashCode(Var(acc))))), x)
            <==> x == acc || x == out || Occurs(loop, x)
  {
    var finish := Assign(out, ToHashCode(Var(acc)));
    assert InExpr(ToHashCode(Var(acc)), x) <==> x == acc;
    OccursDeclare(out, ToHashCode(Var(acc)), x);
    OccursDeclare(acc, NewHashCode, x);
    OccursThen(loop, finish, x);
    OccursThen(Declare(acc, NewHashCode), Then(loop, finish), x);
  }

  lemma GuardNames(e: Expr, out: Name, fill: Stmt, x: Name)
    ensures Occurs(Then(Declare(out, ZeroCode), If(Ne(e, NullLit), fill, Skip)), x)
            <==> x == out || InExpr(e, x) || Occurs(fill, x)
  {
    InNullTest(e, x);
    OccursIf(Ne(e, NullLit), fill, Skip, x);
    OccursDeclare(out, ZeroCode, x);
    OccursThen(Declare(out, ZeroCode), If(Ne(e, NullLit), fill, Skip), x);
  }

  lemma HashBodyNames(t: TypeUse, e: Expr, level: nat, x: Name)
    requires t.ArrayUse? || t.ListUse?
    ensures var inner := Out(level + 1);
      Occurs(HashBody(t, e, level), x) <==>
        || x == HashAcc(level) || x == inner
        || if t.ArrayUse? then Occurs(HashStatement(t.elem, Index(e, Var(Iter(level))), inner, level + 1), x)
           else x == Tmp(level) || x == Iter(level) || InExpr(e, x)
                || Occurs(HashStatement(t.elem, Var(Tmp(level)), inner, level + 1), x)
  {
    var e', add := Index(e, Var(Iter(level))), HashAdd(HashAcc(level), Var(Out(level + 1)));
    assert Occurs(add, x) <==> x == HashAcc(level) || x == Out(level + 1);
    if t.ArrayUse? {
      OccursThen(HashStatement(t.elem, e', Out(level + 1), level + 1), add, x);
    } else {
      var hash := HashStatement(t.elem, Var(Tmp(level)), Out(level + 1), level + 1);
      InElement(e, Iter(level), x);
      OccursDeclare(Tmp(level), e', x);
      OccursThen(hash, add, x);
      OccursThen(Declare(Tmp(level), e'), Then(hash, add), x);
    }
  }

  /** The locals that hashing a member of type `t` at `level` uses: one set for each layer of arrays and
      lists. */
  predicate UsesAt(t: TypeUse, level: nat, x: Name) {
    && (t.ArrayUse? || t.ListUse?)
    && (|| x == HashAcc(level) || x == Iter(level) || x == Out(level + 1) || (t.ListUse? && x == Tmp(level))
        || UsesAt(t.elem, level + 1, x))
  }

  lemma {:induction false} HashStatementUses(t: TypeUse, e: Expr, out: Name, level: nat, x: Name)
    ensures Occurs(HashStatement(t, e, out, level), x) <==> x == out || InExpr(e, x) || UsesAt(t, level, x)
    decreases t
  {
    if t.ArrayUse? {
      HashSequenceNames(t, e, out, level, x);
      HashBodyNames(t, e, level, x);
      HashStatementUses(t.elem, Index(e, Var(Iter(level))), Out(level + 1), level + 1, x);
      InElement(e, Iter(level), x);
    } else if t.ListUse? {
      HashSequenceNames(t, e, out, level, x);
      HashBodyNames(t, e, level, x);
      HashStatementUses(t.elem, Var(Tmp(level)), Out(level + 1), level + 1, x);
    } else {
      LeafHashNames(e, x);
    }
  }

  predicate InMember(m: Member, x: Name) {
    x == Bare(m.name) || x == HashOf(m.name) || UsesAt(m.use, 0, x)
  }

  lemma {:induction false} HashMethodUses(ms: seq<Member>, k: nat, x: Name)
    requires k <= |ms|
    ensures Occurs(HashStatements(ms, k), x) <==> exists i :: 0 <= i < k && InMember(ms[i], x)
  {
    if k > 0 {
      var m := ms[k - 1];
      HashMethodUses(ms, k - 1, x);
      HashStatementUses(m.use, Var(Bare(m.name)), HashOf(m.name), 0, x);
      OccursThen(HashStatements(ms, k - 1), HashStatement(m.use, Var(Bare(m.name)), HashOf(m.name), 0), x);
    }
  }

  lemma MemberNameOccurs(ms: seq<Member>, i: nat, x: Name)
    requires i < |ms| && InMember(ms[i], x)
    ensures Occurs(HashStatements(ms, |ms|), x)
  {
    HashMethodUses(ms, |ms|, x);
  }

  function NamesOf(ms: seq<Member>): (names: seq<string>)
    ensures |names| == |ms| && forall i :: 0 <= i < |ms| ==> names[i] == ms[i].name
  {
    seq(|ms|, i requires 0 <= i < |ms| => ms[i].name)
  }

  function Members(names: seq<string>): set<string> {
    set n | n in names
  }

  /** No two identifiers of the method are spelled alike. */
  ghost predicate Apart(s: Stmt) {
    forall x, y :: Occurs(s, x) && Occurs(s, y) && Render(x) == Render(y) ==> x == y
  }

  lemma {:induction false} EqualsMethodNames(ms: seq<Member>, k: nat, x: Name)
    requires k <= |ms| && Occurs(EqualsStatements(ms, k), x)
    ensures InEquals(Members(NamesOf(ms)), x)
  {
    var m := ms[k - 1];
    var last := EqualsStatement(m.use, Var(ThisDot(m.name)), Var(ThatDot(m.name)), EqOf(m.name), 0);
    assert NamesOf(ms)[k - 1] == m.name;
    if Occurs(last, x) {
      EqualsStatementNames(m.use, Var(ThisDot(m.name)), Var(ThatDot(m.name)), EqOf(m.name), 0, x);
    } else {
      EqualsMethodNames(ms, k - 1, x);
    }
  }

  lemma {:induction false} UsesInHash(t: TypeUse, level: nat, x: Name)
    requires UsesAt(t, level, x)
    ensures InHash({}, x) && !x.Bare?
    decreases t
  {
    if UsesAt(t.elem, level + 1, x) { UsesInHash(t.elem, level + 1, x); }
  }

  lemma HashMethodNames(ms: seq<Member>, x: Name)
    requires Occurs(HashStatements(ms, |ms|), x)
    ensures InHash(Members(NamesOf(ms)), x)
  {
    HashMethodUses(ms, |ms|, x);
    var i :| 0 <= i < |ms| && InMember(ms[i], x);
    assert NamesOf(ms)[i] == ms[i].name;
    if UsesAt(ms[i].use, 0, x) { UsesInHash(ms[i].use, 0, x); }
  }

  /** `Equals` names its members through `this` and `that`: whatever they are called, it has no clash. */
  lemma EqualsMethodApart(ms: seq<Member>)
    ensures Apart(EqualsStatements(ms, |ms|))
  {
    var s := EqualsStatements(ms, |ms|);
    forall x, y | Occurs(s, x) && Occurs(s, y) && Render(x) == Render(y) ensures x == y {
      EqualsMethodNames(ms, |ms|, x);
      EqualsMethodNames(ms, |ms|, y);
      GeneratedInjective(x, y);
    }
  }

  /** Lists nested `n` deep, which use the locals of all levels below `n`. */
  function NestedLists(n: nat): TypeUse {
    if n == 0 then ValueUse else ListUse(NestedLists(n - 1))
  }

  lemma {:induction false} NestedListsUse(n: nat, level: nat, l: nat, x: Name)
    requires level <= l < level + n && x in {Iter(l), Tmp(l), HashAcc(l), Out(l + 1)}
    ensures UsesAt(NestedLists(n), level, x)
    decreases n
  {
    if level < l { NestedListsUse(n - 1, level + 1, l, x); }
  }

  function DeepMembers(names: seq<string>, depth: nat): (ms: seq<Member>)
    ensures NamesOf(ms) == names && forall i :: 0 <= i < |ms| ==> ms[i] == Member(names[i], NestedLists(depth))
  {
    seq(|names|, i requires 0 <= i < |names| => Member(names[i], NestedLists(depth)))
  }

  /** Every identifier counted in `InHash` occurs in `GetHashCode` for members deep enough. */
  lemma HashNameOccurs(names: seq<string>, depth: nat, x: Name)
    requires names != [] && InHash(Members(names), x) && (Numbered(x) ==> x.level < depth)
    ensures Occurs(HashStatements(DeepMembers(names, depth), |names|), x)
  {
    var ms := DeepMembers(names, depth);
    if Numbered(x) {
      NestedListsUse(depth, 0, if x.Out? then x.level - 1 else x.level, x);
      MemberNameOccurs(ms, 0, x);
    } else {
      var i :| 0 <= i < |names| && names[i] == x.member;
      MemberNameOccurs(ms, i, x);
    }
  }

  lemma CapturedClashes(names: seq<string>, n: string) returns (ms: seq<Member>)
    requires n in names && Captured(Members(names), n)
    ensures NamesOf(ms) == names && !Apart(HashStatements(ms, |ms|))
  {
    var x := CapturingLocal(Members(names), n);
    var depth := if Numbered(x) then x.level + 1 else 0;
    HashNameOccurs(names, depth, x);
    HashNameOccurs(names, depth, Bare(n));
    ms := DeepMembers(names, depth);
    ClashIn(HashStatements(ms, |ms|), x, Bare(n));
  }

  lemma ClashIn(s: Stmt, x: Name, y: Name)
    requires Occurs(s, x) && Occurs(s, y) && Render(x) == Render(y) && x != y
    ensures !Apart(s)
  {}

  lemma NoneCaptured(ms: seq<Member>)
    requires HashNamesApart(Members(NamesOf(ms)))
    ensures Apart(HashStatements(ms, |ms|))
  {
    var s := HashStatements(ms, |ms|);
    forall x | Occurs(s, x) ensures InHash(Members(NamesOf(ms)), x) { HashMethodNames(ms, x); }
  }

  /** `GetHashCode` names its members bare. For members called `names` it has no clash, whatever their
      types, if and only if none of the names is spelled like one of its locals. */
  lemma HashMethodApartIff(names: seq<string>)
    ensures (forall ms :: NamesOf(ms) == names ==> Apart(HashStatements(ms, |ms|)))
            <==> forall n :: n in names ==> !Captured(Members(names), n)
  {
    if n :| n in names && Captured(Members(names), n) {
      var ms := CapturedClashes(names, n);
    } else {
      HashNamesApartIff(Members(names));
      forall ms | NamesOf(ms) == names ensures Apart(HashStatements(ms, |ms|)) { NoneCaptured(ms); }
    }
  }

  /** A string that one of those locals is spelled as. */
  predicate CapturedBy(t: TypeUse, level: nat, m: string) {
    && (t.ArrayUse? || t.ListUse?)
    && (|| m == "___hc" + Decimal.Print(level) || m == "___i" + Decimal.Print(level)
        || m == "___out" + Decimal.Print(level + 1) || (t.ListUse? && m == "___tmp" + Decimal.Print(level))
        || CapturedBy(t.elem, level + 1, m))
  }

  lemma {:induction false} UsesRendered(t: TypeUse, level: nat, x: Name)
    requires UsesAt(t, level, x)
    ensures !x.Bare? && CapturedBy(t, level, Render(x))
    decreases t
  {
    if UsesAt(t.elem, level + 1, x) { UsesRendered(t.elem, level + 1, x); }
  }

  lemma {:induction false} CapturedUses(t: TypeUse, level: nat, m: string) returns (x: Name)
    requires CapturedBy(t, level, m)
    ensures UsesAt(t, level, x) && Render(x) == m
    decreases t
  {
    if CapturedBy(t.elem, level + 1, m) {
      x := CapturedUses(t.elem, level + 1, m);
    } else if m == "___hc" + Decimal.Print(level) {
      x := HashAcc(level);
    } else if m == "___i" + Decimal.Print(level) {
      x := Iter(level);
    } else if m == "___out" + Decimal.Print(level + 1) {
      x := Out(level + 1);
    } else {
      x := Tmp(level);
    }
  }

  /** Hashing the member uses a local of that spelling. */
  predicate CapturedByMember(m: Member, name: string) {
    name == "___hash" + m.name || CapturedBy(m.use, 0, name)
  }

  lemma MemberCaptures(m: Member, x: Name)
    requires InMember(m, x) && !x.Bare?
    ensures CapturedByMember(m, Render(x))
  {
    if UsesAt(m.use, 0, x) { UsesRendered(m.use, 0, x); }
  }

  lemma CapturingMember(m: Member, name: string) returns (x: Name)
    requires CapturedByMember(m, name)
    ensures InMember(m, x) && x != Bare(name) && Render(x) == Render(Bare(name))
  {
    if name == "___hash" + m.name {
      x := HashOf(m.name);
    } else {
      x := CapturedUses(m.use, 0, name);
      UsesRendered(m.use, 0, x);
    }
  }

  lemma BareInMember(m: Member, name: string)
    ensures InMember(m, Bare(name)) <==> m.name == name
  {
    if UsesAt(m.use, 0, Bare(name)) { UsesRendered(m.use, 0, Bare(name)); }
  }

  /** No member is spelled like a local that hashing some member uses. */
  predicate CaptureFree(ms: seq<Member>) {
    forall i, j :: 0 <= i < |ms| && 0 <= j < |ms| ==> !CapturedByMember(ms[j], ms[i].name)
  }

  lemma MembersApart(ms: seq<Member>, i: nat, x: Name, j: nat, y: Name)
    requires CaptureFree(ms) && i < |ms| && j < |ms|
    requires InMember(ms[i], x) && InMember(ms[j], y) && Render(x) == Render(y)
    ensures x == y
  {
    if x.Bare? { BareInMember(ms[i], x.member); } else { MemberCaptures(ms[i], x); }
    if y.Bare? { BareInMember(ms[j], y.member); } else { MemberCaptures(ms[j], y); }
    if !x.Bare? && !y.Bare? { GeneratedInjective(x, y); }
  }

  predicate InSomeMember(ms: seq<Member>, x: Name) {
    exists i :: 0 <= i < |ms| && InMember(ms[i], x)
  }

  lemma CaptureFreeApart(ms: seq<Member>, x: Name, y: Name)
    requires CaptureFree(ms) && InSomeMember(ms, x) && InSomeMember(ms, y) && Render(x) == Render(y)
    ensures x == y
  {
    var i :| 0 <= i < |ms| && InMember(ms[i], x);
    var j :| 0 <= j < |ms| && InMember(ms[j], y);
    MembersApart(ms, i, x, j, y);
  }

  lemma MemberClashes(ms: seq<Member>, i: nat, j: nat, x: Name)
    requires i < |ms| && j < |ms| && InMember(ms[j], x)
    requires var y := Bare(ms[i].name); x != y && Render(x) == Render(y)
    ensures !Apart(HashStatements(ms, |ms|))
  {
    var s, y := HashStatements(ms, |ms|), Bare(ms[i].name);
    assert Occurs(s, x) by { MemberNameOccurs(ms, j, x); }
    assert Occurs(s, y) by { MemberNameOccurs(ms, i, y); }
    ClashIn(s, x, y);
  }

  lemma MemberCaptured(ms: seq<Member>, i: nat, j: nat)
    requires i < |ms| && j < |ms| && CapturedByMember(ms[j], ms[i].name)
    ensures !Apart(HashStatements(ms, |ms|))
  {
    var x := CapturingMember(ms[j], ms[i].name);
    MemberClashes(ms, i, j, x);
  }

  /** For given members and types: `GetHashCode` has no clash if and only if no member is called like the
      hash of a member, or like a counter, accumulator, temporary or inner result of a layer that some
      member's type has. */
  lemma HashApartIff(ms: seq<Member>)
    ensures Apart(HashStatements(ms, |ms|)) <==> CaptureFree(ms)
  {
    if i, j :| 0 <= i < |ms| && 0 <= j < |ms| && CapturedByMember(ms[j], ms[i].name) {
      MemberCaptured(ms, i, j);
    } else {
      var s := HashStatements(ms, |ms|);
      forall x | Occurs(s, x) ensures InSomeMember(ms, x) { HashMethodUses(ms, |ms|, x); }
      forall x, y | Occurs(s, x) && Occurs(s, y) && Render(x) == Render(y) ensures x == y {
        CaptureFreeApart(ms, x, y);
      }
    }
  }

  /** Next to a member `foo`, the field `___hashfoo` is hidden by the local that holds the hash of
      `foo`, whatever the types; and a list called `___i0` by its own loop counter. */
  lemma ReservedMemberCaptured(foo: TypeUse, hashfoo: TypeUse)
    ensures !Apart(HashStatements([Member("foo", foo), Member("___hashfoo", hashfoo)], 2))
    ensures !Apart(HashStatements([Member("___i0", ListUse(ValueUse))], 1))
  {
    var ms := [Member("foo", foo), Member("___hashfoo", hashfoo)];
    assert ms[1].name == "___hash" + ms[0].name;
    MemberCaptured(ms, 1, 0);
    assert Decimal.Print(0) == "0" && "___i0" == "___i" + "0";
    MemberCaptured([Member("___i0", ListUse(ValueUse))], 0, 0);
  }
}
