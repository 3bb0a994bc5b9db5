/** The emitted text names its variables by strings. Running it is running the model's program, as long
    as no two of its identifiers are spelled alike. */
module CsSpelled {
  import opened Options
  import opened CsLanguage
  import opened CsEquality
  import opened CsHash
  import opened CsNames
  import opened CsProduct
  import opened CsCapture

  /** An identifier known by its spelling only. */
  function Spell(x: Name): Name {
    Bare(Render(x))
  }

  function SpellExpr(e: Expr): Expr {
    match e
    case Var(x) => Var(Spell(x))
    case Index(base, idx) => Index(SpellExpr(base), SpellExpr(idx))
    case Length(of) => Length(SpellExpr(of))
    case Count(of) => Count(SpellExpr(of))
    case Eq(l, r) => Eq(SpellExpr(l), SpellExpr(r))
    case Ne(l, r) => Ne(SpellExpr(l), SpellExpr(r))
    case Not(arg) => Not(SpellExpr(arg))
    case Or(l, r) => Or(SpellExpr(l), SpellExpr(r))
    case And(l, r) => And(SpellExpr(l), SpellExpr(r))
    case Xor(l, r) => Xor(SpellExpr(l), SpellExpr(r))
    case Ternary(cond, yes, no) => Ternary(SpellExpr(cond), SpellExpr(yes), SpellExpr(no))
    case CallEquals(recv, arg) => CallEquals(SpellExpr(recv), SpellExpr(arg))
    case CallHash(recv) => CallHash(SpellExpr(recv))
    case ToHashCode(acc) => ToHashCode(SpellExpr(acc))
    case _ => e
  }

  function SpellStmt(s: Stmt): Stmt {
    match s
    case Then(first, second) => Then(SpellStmt(first), SpellStmt(second))
    case Declare(x, init) => Declare(Spell(x), SpellExpr(init))
    case Assign(x, rhs) => Assign(Spell(x), SpellExpr(rhs))
    case HashAdd(x, code) => HashAdd(Spell(x), SpellExpr(code))
    case If(cond, thn, els) => If(SpellExpr(cond), SpellStmt(thn), SpellStmt(els))
    case For(i, bound, body) => For(Spell(i), SpellExpr(bound), SpellStmt(body))
    case _ => s
  }

  ghost predicate SpelledApart(names: iset<Name>) {
    forall x, y :: x in names && y in names && Render(x) == Render(y) ==> x == y
  }

  ghost predicate ExprIn(e: Expr, names: iset<Name>) {
    forall x :: InExpr(e, x) ==> x in names
  }

  ghost predicate StmtIn(s: Stmt, names: iset<Name>) {
    forall x :: Occurs(s, x) ==> x in names
  }

  /** The two scopes hold the same of the names that matter. */
  ghost predicate Alike(names: iset<Name>, env: Env, spelled: Env) {
    forall x :: x in names ==>
      (x in env <==> Spell(x) in spelled) && (x in env ==> spelled[Spell(x)] == env[x])
  }

  ghost predicate AlikeOutcome(names: iset<Name>, o: Outcome, spelled: Outcome) {
    match o
    case Next(env) => spelled.Next? && Alike(names, env, spelled.env)
    case Broke(env) => spelled.Broke? && Alike(names, env, spelled.env)
    case Stuck => spelled.Stuck?
  }

  lemma {:induction false} EvalAlike(ops: Leaf, e: Expr, names: iset<Name>, env: Env, spelled: Env)
    requires ExprIn(e, names) && Alike(names, env, spelled)
    ensures Eval(ops, SpellExpr(e), spelled) == Eval(ops, e, env)
    decreases e, 1
  {
    match e
    case Var(x) => assert InExpr(e, x);
    case Index(base, idx) => EvalBoth(ops, e, base, idx, names, env, spelled);
    case Length(of) => EvalPart(ops, e, of, names, env, spelled);
    case Count(of) => EvalPart(ops, e, of, names, env, spelled);
    case Eq(l, r) => EvalBoth(ops, e, l, r, names, env, spelled);
    case Ne(l, r) => EvalBoth(ops, e, l, r, names, env, spelled);
    case Not(arg) => EvalPart(ops, e, arg, names, env, spelled);
    case Or(l, r) => EvalBoth(ops, e, l, r, names, env, spelled);
    case And(l, r) => EvalBoth(ops, e, l, r, names, env, spelled);
    case Xor(l, r) => EvalBoth(ops, e, l, r, names, env, spelled);
    case Ternary(cond, yes, no) =>
      EvalPart(ops, e, cond, names, env, spelled);
      EvalBoth(ops, e, yes, no, names, env, spelled);
    case CallEquals(recv, arg) => EvalBoth(ops, e, recv, arg, names, env, spelled);
    case CallHash(recv) => EvalPart(ops, e, recv, names, env, spelled);
    case ToHashCode(acc) => EvalPart(ops, e, acc, names, env, spelled);
    case _ =>
  }

  lemma {:induction false} EvalPart(ops: Leaf, e: Expr, p: Expr, names: iset<Name>, env: Env, spelled: Env)
    requires ExprIn(e, names) && Alike(names, env, spelled) && p < e && forall x :: InExpr(p, x) ==> InExpr(e, x)
    ensures Eval(ops, SpellExpr(p), spelled) == Eval(ops, p, env)
    decreases e, 0
  {
    EvalAlike(ops, p, names, env, spelled);
  }

  lemma {:induction false} EvalBoth(ops: Leaf, e: Expr, p: Expr, q: Expr, names: iset<Name>, env: Env, spelled: Env)
    requires ExprIn(e, names) && Alike(names, env, spelled) && p < e && q < e
    requires forall x :: InExpr(p, x) || InExpr(q, x) ==> InExpr(e, x)
    ensures Eval(ops, SpellExpr(p), spelled) == Eval(ops, p, env)
    ensures Eval(ops, SpellExpr(q), spelled) == Eval(ops, q, env)
    decreases e, 0
  {
    EvalAlike(ops, p, names, env, spelled);
    EvalAlike(ops, q, names, env, spelled);
  }

  lemma PutAlike(names: iset<Name>, env: Env, spelled: Env, x: Name, c: Cell)
    requires SpelledApart(names) && Alike(names, env, spelled) && x in names
    ensures Alike(names, env[x := c], spelled[Spell(x) := c])
  {}

  lemma LeaveAlike(names: iset<Name>, env: Env, spelled: Env, o: Outcome, o': Outcome)
    requires Alike(names, env, spelled) && AlikeOutcome(names, o, o')
    ensures AlikeOutcome(names, LeaveBlock(env, o), LeaveBlock(spelled, o'))
  {}

  /** Running a statement over spelled names keeps the scopes alike. */
  lemma {:induction false} ExecAlike(ops: Leaf, s: Stmt, names: iset<Name>, env: Env, spelled: Env)
    requires SpelledApart(names) && StmtIn(s, names) && Alike(names, env, spelled)
    ensures AlikeOutcome(names, Exec(ops, s, env), Exec(ops, SpellStmt(s), spelled))
    decreases s, 1, 0
  {
    match s
    case Skip =>
    case Then(first, second) =>
      ThenIn(first, second, names);
      ExecAlike(ops, first, names, env, spelled);
      var o, o' := Exec(ops, first, env), Exec(ops, SpellStmt(first), spelled);
      if o.Next? { ExecAlike(ops, second, names, o.env, o'.env); }
    case Declare(x, init) =>
      WriteAlike(ops, s, x, init, names, env, spelled);
    case Assign(x, rhs) =>
      WriteAlike(ops, s, x, rhs, names, env, spelled);
    case HashAdd(x, code) =>
      WriteAlike(ops, s, x, code, names, env, spelled);
    case If(cond, thn, els) =>
      IfIn(cond, thn, els, names);
      EvalAlike(ops, cond, names, env, spelled);
      ExecAlike(ops, thn, names, env, spelled);
      ExecAlike(ops, els, names, env, spelled);
      LeaveAlike(names, env, spelled, Exec(ops, thn, env), Exec(ops, SpellStmt(thn), spelled));
      LeaveAlike(names, env, spelled, Exec(ops, els, env), Exec(ops, SpellStmt(els), spelled));
    case For(i, bound, body) =>
      ForIn(i, bound, body, names);
      var start, start' := env[i := Int(0)], spelled[Spell(i) := Int(0)];
      PutAlike(names, env, spelled, i, Int(0));
      EvalAlike(ops, bound, names, start, start');
      var n := Eval(ops, bound, start);
      if n.Some? && n.value.Int? {
        LoopAlike(ops, s, 0, n.value.n, names, start, start');
        LeaveAlike(names, env, spelled, Loop(ops, s, 0, n.value.n, start),
                   Loop(ops, SpellStmt(s), 0, n.value.n, start'));
      }
    case Break =>
  }

  lemma ThenIn(first: Stmt, second: Stmt, names: iset<Name>)
    requires StmtIn(Then(first, second), names)
    ensures StmtIn(first, names) && StmtIn(second, names)
  {
    forall x | Occurs(first, x) || Occurs(second, x) ensures x in names { OccursThen(first, second, x); }
  }

  lemma IfIn(cond: Expr, thn: Stmt, els: Stmt, names: iset<Name>)
    requires StmtIn(If(cond, thn, els), names)
    ensures ExprIn(cond, names) && StmtIn(thn, names) && StmtIn(els, names)
  {
    forall x | InExpr(cond, x) || Occurs(thn, x) || Occurs(els, x) ensures x in names { OccursIf(cond, thn, els, x); }
  }

  lemma ForIn(i: Name, bound: Expr, body: Stmt, names: iset<Name>)
    requires StmtIn(For(i, bound, body), names)
    ensures i in names && ExprIn(bound, names) && StmtIn(body, names)
  {
    OccursFor(i, bound, body, i);
    forall x | InExpr(bound, x) || Occurs(body, x) ensures x in names { OccursFor(i, bound, body, x); }
  }

  lemma WriteAlike(ops: Leaf, s: Stmt, x: Name, e: Expr, names: iset<Name>, env: Env, spelled: Env)
    requires SpelledApart(names) && StmtIn(s, names) && Alike(names, env, spelled)
    requires s in {Declare(x, e), Assign(x, e), HashAdd(x, e)}
    ensures AlikeOutcome(names, Exec(ops, s, env), Exec(ops, SpellStmt(s), spelled))
  {
    assert Occurs(s, x);
    forall y | InExpr(e, y) ensures y in names { assert Occurs(s, y); }
    EvalAlike(ops, e, names, env, spelled);
    var o := Exec(ops, s, env);
    if o.Next? { PutAlike(names, env, spelled, x, o.env[x]); }
  }

  lemma {:induction false} LoopAlike(
    ops: Leaf, s: Stmt, k: int, n: int, names: iset<Name>, env: Env, spelled: Env)
    requires s.For? && SpelledApart(names) && StmtIn(s, names) && Alike(names, env, spelled)
    ensures AlikeOutcome(names, Loop(ops, s, k, n, env), Loop(ops, SpellStmt(s), k, n, spelled))
    decreases s, 0, n - k
  {
    ForIn(s.i, s.bound, s.body, names);
    EvalAlike(ops, s.bound, names, env, spelled);
    if s.i in env && env[s.i] == Int(k) && Eval(ops, s.bound, env) == Some(Int(n)) && k < n {
      ExecAlike(ops, s.body, names, env, spelled);
      LeaveAlike(names, env, spelled, Exec(ops, s.body, env), Exec(ops, SpellStmt(s.body), spelled));
      var o := LeaveBlock(env, Exec(ops, s.body, env));
      var o' := LeaveBlock(spelled, Exec(ops, SpellStmt(s.body), spelled));
      if o.Next? && s.i in o.env && o.env[s.i] == Int(k) {
        PutAlike(names, o.env, o'.env, s.i, Int(k + 1));
        LoopAlike(ops, s, k + 1, n, names, o.env[s.i := Int(k + 1)], o'.env[Spell(s.i) := Int(k + 1)]);
      }
    }
  }

  function Spellings(env: Env): set<Name> {
    set x | x in env :: Spell(x)
  }

  ghost function SpelledAs(env: Env, s: Name): (x: Name)
    requires s in Spellings(env)
    ensures x in env && Spell(x) == s
  {
    var x :| x in env && Spell(x) == s; x
  }

  /** The scope in which every name is known by its spelling. */
  ghost function SpellEnv(env: Env): Env {
    map s | s in Spellings(env) :: env[SpelledAs(env, s)]
  }

  lemma SpellEnvAlike(names: iset<Name>, env: Env)
    requires SpelledApart(names) && forall x :: x in env ==> x in names
    ensures Alike(names, env, SpellEnv(env))
  {}

  /** Running the emitted text. */
  ghost function RunSpelled(ops: Leaf, s: Stmt, env: Env, result: Expr): Option<Cell> {
    Returned(ops, Exec(ops, SpellStmt(s), SpellEnv(env)), SpellExpr(result))
  }

  lemma ReturnedAlike(ops: Leaf, o: Outcome, o': Outcome, result: Expr, names: iset<Name>)
    requires AlikeOutcome(names, o, o') && ExprIn(result, names)
    ensures Returned(ops, o', SpellExpr(result)) == Returned(ops, o, result)
  {
    if o.Next? { EvalAlike(ops, result, names, o.env, o'.env); }
  }

  lemma SpelledRunSame(ops: Leaf, s: Stmt, env: Env, result: Expr, names: iset<Name>)
    requires SpelledApart(names) && StmtIn(s, names) && ExprIn(result, names) && forall x :: x in env ==> x in names
    ensures RunSpelled(ops, s, env, result) == Returned(ops, Exec(ops, s, env), result)
  {
    SpellEnvAlike(names, env);
    ExecAlike(ops, s, names, env, SpellEnv(env));
    ReturnedAlike(ops, Exec(ops, s, env), Exec(ops, SpellStmt(s), SpellEnv(env)), result, names);
  }

  ghost function HashNames(ms: seq<Member>): iset<Name> {
    iset n: Name | InSomeMember(ms, n)
  }

  lemma HashNamesSpelledApart(ms: seq<Member>)
    requires CaptureFree(ms)
    ensures SpelledApart(HashNames(ms))
  {
    forall n, m | n in HashNames(ms) && m in HashNames(ms) && Render(n) == Render(m) ensures n == m {
      var i :| 0 <= i < |ms| && InMember(ms[i], n);
      var j :| 0 <= j < |ms| && InMember(ms[j], m);
      MembersApart(ms, i, n, j, m);
    }
  }

  lemma FieldsInHashNames(ms: seq<Member>, x: Instance)
    requires x.Keys == Members(NamesOf(ms))
    ensures forall n :: n in HashFrame(x) ==> n in HashNames(ms)
  {
    forall n | n in HashFrame(x) ensures n in HashNames(ms) {
      var i :| 0 <= i < |ms| && NamesOf(ms)[i] == n.member;
      assert InMember(ms[i], n);
    }
  }

  lemma {:induction false} JoinedEqualsNames(ms: seq<Member>, k: nat, x: Name)
    requires k <= |ms| && InExpr(JoinedEquals(ms, k), x)
    ensures x.EqOf?
  {
    if k > 1 && x != EqOf(ms[k - 1].name) { JoinedEqualsNames(ms, k - 1, x); }
  }

  lemma {:induction false} JoinedHashesNames(ms: seq<Member>, k: nat, x: Name)
    requires k <= |ms| && InExpr(JoinedHashes(ms, k), x)
    ensures InSomeMember(ms, x)
  {
    if k == 1 || x == HashOf(ms[k - 1].name) {
      assert InMember(ms[k - 1], x);
    } else {
      JoinedHashesNames(ms, k - 1, x);
    }
  }

  /** The emitted `Equals`, run over its spelled names, decides what the model's does, whatever the
      members are called. */
  lemma EqualsSpelledSame(ops: Leaf, ms: seq<Member>, x: Instance, y: Instance)
    ensures RunSpelled(ops, EqualsStatements(ms, |ms|), EqualsFrame(x, y), JoinedEquals(ms, |ms|))
            == RunEquals(ops, ms, x, y)
  {
    var names := iset n: Name | !n.Bare?;
    forall n, m | n in names && m in names && Render(n) == Render(m) ensures n == m { GeneratedInjective(n, m); }
    forall n | Occurs(EqualsStatements(ms, |ms|), n) ensures n in names { EqualsMethodNames(ms, |ms|, n); }
    forall n | InExpr(JoinedEquals(ms, |ms|), n) ensures n in names { JoinedEqualsNames(ms, |ms|, n); }
    SpelledRunSame(ops, EqualsStatements(ms, |ms|), EqualsFrame(x, y), JoinedEquals(ms, |ms|), names);
  }

  /** The emitted `GetHashCode` does so if no member is spelled like one of its locals. */
  lemma HashSpelledSame(ops: Leaf, ms: seq<Member>, x: Instance)
    requires CaptureFree(ms) && x.Keys == Members(NamesOf(ms))
    ensures RunSpelled(ops, HashStatements(ms, |ms|), HashFrame(x), JoinedHashes(ms, |ms|)) == RunHash(ops, ms, x)
  {
    var names := HashNames(ms);
    HashNamesSpelledApart(ms);
    forall n | Occurs(HashStatements(ms, |ms|), n) ensures n in names { HashMethodUses(ms, |ms|, n); }
    forall n | InExpr(JoinedHashes(ms, |ms|), n) ensures n in names { JoinedHashesNames(ms, |ms|, n); }
    FieldsInHashNames(ms, x);
    SpelledRunSame(ops, HashStatements(ms, |ms|), HashFrame(x), JoinedHashes(ms, |ms|), names);
  }
}
