/** The `Equals`, `GetHashCode`, `==` and `!=` members that `ToExtensions` assembles for a product
    type that is not a record. */
module CsProduct {
  import opened Options
  import opened CsLanguage
  import opened CsEquality
  import opened CsHash

  datatype Member = Member(name: string, use: TypeUse)

  type Instance = map<string, Value>

  /** What an `object?` parameter can hold: null, an instance of the declared type, or an object of
      another class. */
  datatype Object = NullRef | Inst(fields: Instance) | Foreign(id: int)

  /** C# already demands distinct member names. */
  ghost predicate Distinct(ms: seq<Member>) {
    forall i, j :: 0 <= i < j < |ms| ==> ms[i].name != ms[j].name
  }

  predicate IsInstance(ms: seq<Member>, x: Instance) {
    forall i :: 0 <= i < |ms| ==> ms[i].name in x && HasType(ms[i].use, x[ms[i].name])
  }

  /** Fields as the method bodies name them: `this.F` and `that.F`, or plain `F`. */
  function EqualsFrame(x: Instance, y: Instance): Env {
    (map n: Name | n in (set f | f in x :: ThisDot(f)) :: Val(x[n.member]))
    + (map n: Name | n in (set f | f in y :: ThatDot(f)) :: Val(y[n.member]))
  }

  function HashFrame(x: Instance): Env {
    map n: Name | n in (set f | f in x :: Bare(f)) :: Val(x[n.member])
  }

  /** The statements for the first `k` members, and the joined result. */
  function EqualsStatements(ms: seq<Member>, k: nat): Stmt
    requires k <= |ms|
  {
    if k == 0 then Skip else
    var m := ms[k - 1];
    Then(EqualsStatements(ms, k - 1),
         EqualsStatement(m.use, Var(ThisDot(m.name)), Var(ThatDot(m.name)), EqOf(m.name), 0))
  }

  function JoinedEquals(ms: seq<Member>, k: nat): Expr
    requires k <= |ms|
  {
    if k == 0 then BoolLit(true)
    else if k == 1 then Var(EqOf(ms[0].name))
    else And(JoinedEquals(ms, k - 1), Var(EqOf(ms[k - 1].name)))
  }

  function HashStatements(ms: seq<Member>, k: nat): Stmt
    requires k <= |ms|
  {
    if k == 0 then Skip else
    var m := ms[k - 1];
    Then(HashStatements(ms, k - 1), HashStatement(m.use, Var(Bare(m.name)), HashOf(m.name), 0))
  }

  function JoinedHashes(ms: seq<Member>, k: nat): Expr
    requires k <= |ms|
  {
    if k == 0 then ZeroCode
    else if k == 1 then Var(HashOf(ms[0].name))
    else Xor(JoinedHashes(ms, k - 1), Var(HashOf(ms[k - 1].name)))
  }

  function Returned(ops: Leaf, o: Outcome, result: Expr): Option<Cell> {
    match o
    case Next(env) => Eval(ops, result, env)
    case _ => None
  }

  /** `bool Equals(T that)` past its null test. */
  function RunEquals(ops: Leaf, ms: seq<Member>, x: Instance, y: Instance): Option<Cell> {
    Returned(ops, Exec(ops, EqualsStatements(ms, |ms|), EqualsFrame(x, y)), JoinedEquals(ms, |ms|))
  }

  /** `int GetHashCode()`. */
  function RunHash(ops: Leaf, ms: seq<Member>, x: Instance): Option<Cell> {
    Returned(ops, Exec(ops, HashStatements(ms, |ms|), HashFrame(x)), JoinedHashes(ms, |ms|))
  }

  /** `bool Equals(object? that)`. */
  function RunEqualsObject(ops: Leaf, ms: seq<Member>, x: Instance, that: Object): Option<Cell> {
    if that.Inst? then RunEquals(ops, ms, x, that.fields) else Some(Bool(false))
  }

  /** `operator ==`. A null operand goes to `object.Equals`, which is then true of two nulls only. */
  function RunOpEquals(ops: Leaf, ms: seq<Member>, x: Object, y: Object): Option<Cell>
    requires !x.Foreign? && !y.Foreign?
  {
    if x.NullRef? || y.NullRef? then Some(Bool(x.NullRef? && y.NullRef?))
    else RunEquals(ops, ms, x.fields, y.fields)
  }

  function RunOpNotEquals(ops: Leaf, ms: seq<Member>, x: Object, y: Object): Option<Cell>
    requires !x.Foreign? && !y.Foreign?
  {
    if x.NullRef? || y.NullRef? then Some(Bool(!(x.NullRef? && y.NullRef?)))
    else match RunEquals(ops, ms, x.fields, y.fields)
      case Some(Bool(b)) => Some(Bool(!b))
      case _ => None
  }

  ghost predicate MembersEqual(ops: Leaf, ms: seq<Member>, x: Instance, y: Instance, k: nat)
    requires IsInstance(ms, x) && IsInstance(ms, y) && k <= |ms|
  {
    forall i :: 0 <= i < k ==> LogicalEq(ops, ms[i].use, x[ms[i].name], y[ms[i].name])
  }

  function MemberVerdict(ops: Leaf, m: Member, x: Instance, y: Instance): Cell
    requires m.name in x && HasType(m.use, x[m.name])
    requires m.name in y && HasType(m.use, y[m.name])
  {
    Bool(LogicalEq(ops, m.use, x[m.name], y[m.name]))
  }

  /** The locals once the first `k` members have been compared. */
  ghost function EqualsEnv(ops: Leaf, ms: seq<Member>, x: Instance, y: Instance, k: nat): Env
    requires IsInstance(ms, x) && IsInstance(ms, y) && k <= |ms|
  {
    if k == 0 then EqualsFrame(x, y) else
    EqualsEnv(ops, ms, x, y, k - 1)[EqOf(ms[k - 1].name) := MemberVerdict(ops, ms[k - 1], x, y)]
  }

  /** The locals are the fields and the verdicts so far. */
  lemma {:induction false} EqualsEnvHas(ops: Leaf, ms: seq<Member>, x: Instance, y: Instance, k: nat)
    requires IsInstance(ms, x) && IsInstance(ms, y) && k <= |ms|
    ensures forall n :: n in EqualsEnv(ops, ms, x, y, k) ==> n in EqualsFrame(x, y) || n.EqOf?
    ensures forall n :: n in EqualsFrame(x, y) ==>
              n in EqualsEnv(ops, ms, x, y, k) && EqualsEnv(ops, ms, x, y, k)[n] == EqualsFrame(x, y)[n]
  {
    if k > 0 { EqualsEnvHas(ops, ms, x, y, k - 1); }
  }

  lemma {:induction false} EqualsEnvVerdicts(ops: Leaf, ms: seq<Member>, x: Instance, y: Instance, k: nat, i: nat)
    requires IsInstance(ms, x) && IsInstance(ms, y) && k <= |ms| && Distinct(ms) && i < |ms|
    ensures EqOf(ms[i].name) in EqualsEnv(ops, ms, x, y, k) <==> i < k
    ensures i < k ==> EqualsEnv(ops, ms, x, y, k)[EqOf(ms[i].name)] == MemberVerdict(ops, ms[i], x, y)
  {
    if k > 0 { EqualsEnvVerdicts(ops, ms, x, y, k - 1, i); }
  }

  lemma {:induction false} EqualsStatementsRun(ops: Leaf, ms: seq<Member>, x: Instance, y: Instance, k: nat)
    requires IsInstance(ms, x) && IsInstance(ms, y) && k <= |ms| && Distinct(ms)
    ensures Exec(ops, EqualsStatements(ms, k), EqualsFrame(x, y)) == Next(EqualsEnv(ops, ms, x, y, k))
  {
    if k > 0 {
      EqualsStatementsRun(ops, ms, x, y, k - 1);
      EqualsEnvHas(ops, ms, x, y, k - 1);
      EqualsEnvVerdicts(ops, ms, x, y, k - 1, k - 1);
      var m, env := ms[k - 1], EqualsEnv(ops, ms, x, y, k - 1);
      MemberCompared(ops, m, x, y, env);
      ExecThen(ops, EqualsStatements(ms, k - 1),
               EqualsStatement(m.use, Var(ThisDot(m.name)), Var(ThatDot(m.name)), EqOf(m.name), 0),
               EqualsFrame(x, y), env);
    }
  }

  lemma MemberCompared(ops: Leaf, m: Member, x: Instance, y: Instance, env: Env)
    requires m.name in x && HasType(m.use, x[m.name])
    requires m.name in y && HasType(m.use, y[m.name])
    requires InScope(env, 0) && EqOf(m.name) !in env
    requires forall n :: n in EqualsFrame(x, y) ==> n in env && env[n] == EqualsFrame(x, y)[n]
    ensures Exec(ops, EqualsStatement(m.use, Var(ThisDot(m.name)), Var(ThatDot(m.name)), EqOf(m.name), 0), env)
            == Next(env[EqOf(m.name) := MemberVerdict(ops, m, x, y)])
  {
    assert ThisDot(m.name) in EqualsFrame(x, y) && ThatDot(m.name) in EqualsFrame(x, y);
    EqualsCorrect(ops, m.use, Var(ThisDot(m.name)), Var(ThatDot(m.name)), EqOf(m.name), 0, env, x[m.name], y[m.name]);
  }

  lemma {:induction false} JoinedEqualsEval(ops: Leaf, ms: seq<Member>, x: Instance, y: Instance, k: nat, env: Env)
    requires IsInstance(ms, x) && IsInstance(ms, y) && k <= |ms|
    requires forall i :: 0 <= i < k ==>
               EqOf(ms[i].name) in env && env[EqOf(ms[i].name)] == MemberVerdict(ops, ms[i], x, y)
    ensures Eval(ops, JoinedEquals(ms, k), env) == Some(Bool(MembersEqual(ops, ms, x, y, k)))
  {
    if k > 1 {
      JoinedEqualsEval(ops, ms, x, y, k - 1, env);
      assert Eval(ops, Var(EqOf(ms[k - 1].name)), env) == Some(MemberVerdict(ops, ms[k - 1], x, y));
      assert MembersEqual(ops, ms, x, y, k) <==>
             MembersEqual(ops, ms, x, y, k - 1) && LogicalEq(ops, ms[k - 1].use, x[ms[k - 1].name], y[ms[k - 1].name]);
    }
  }

  /** The generated `Equals` runs without error and compares member by member. */
  lemma EqualsMethodCorrect(ops: Leaf, ms: seq<Member>, x: Instance, y: Instance)
    requires IsInstance(ms, x) && IsInstance(ms, y) && Distinct(ms)
    ensures RunEquals(ops, ms, x, y) == Some(Bool(MembersEqual(ops, ms, x, y, |ms|)))
  {
    EqualsStatementsRun(ops, ms, x, y, |ms|);
    forall i | 0 <= i < |ms|
      ensures EqOf(ms[i].name) in EqualsEnv(ops, ms, x, y, |ms|)
      ensures EqualsEnv(ops, ms, x, y, |ms|)[EqOf(ms[i].name)] == MemberVerdict(ops, ms[i], x, y)
    {
      EqualsEnvVerdicts(ops, ms, x, y, |ms|, i);
    }
    JoinedEqualsEval(ops, ms, x, y, |ms|, EqualsEnv(ops, ms, x, y, |ms|));
  }

  function MemberHash(ops: Leaf, m: Member, x: Instance): int
    requires m.name in x && HasType(m.use, x[m.name])
  {
    LogicalHash(ops, m.use, x[m.name])
  }

  function JoinedHash(ops: Leaf, ms: seq<Member>, x: Instance, k: nat): int
    requires IsInstance(ms, x) && k <= |ms|
  {
    if k == 0 then 0
    else if k == 1 then MemberHash(ops, ms[0], x)
    else ops.xor(JoinedHash(ops, ms, x, k - 1), MemberHash(ops, ms[k - 1], x))
  }

  ghost function HashEnv(ops: Leaf, ms: seq<Member>, x: Instance, k: nat): Env
    requires IsInstance(ms, x) && k <= |ms|
  {
    if k == 0 then HashFrame(x) else
    HashEnv(ops, ms, x, k - 1)[HashOf(ms[k - 1].name) := Code(MemberHash(ops, ms[k - 1], x))]
  }

  lemma {:induction false} HashEnvHas(ops: Leaf, ms: seq<Member>, x: Instance, k: nat)
    requires IsInstance(ms, x) && k <= |ms|
    ensures forall n :: n in HashEnv(ops, ms, x, k) ==> n in HashFrame(x) || n.HashOf?
    ensures forall n :: n in HashFrame(x) ==>
              n in HashEnv(ops, ms, x, k) && HashEnv(ops, ms, x, k)[n] == HashFrame(x)[n]
  {
    if k > 0 { HashEnvHas(ops, ms, x, k - 1); }
  }

  lemma {:induction false} HashEnvCodes(ops: Leaf, ms: seq<Member>, x: Instance, k: nat, i: nat)
    requires IsInstance(ms, x) && k <= |ms| && Distinct(ms) && i < |ms|
    ensures HashOf(ms[i].name) in HashEnv(ops, ms, x, k) <==> i < k
    ensures i < k ==> HashEnv(ops, ms, x, k)[HashOf(ms[i].name)] == Code(MemberHash(ops, ms[i], x))
  {
    if k > 0 { HashEnvCodes(ops, ms, x, k - 1, i); }
  }

  lemma {:induction false} HashStatementsRun(ops: Leaf, ms: seq<Member>, x: Instance, k: nat)
    requires IsInstance(ms, x) && k <= |ms| && Distinct(ms)
    ensures Exec(ops, HashStatements(ms, k), HashFrame(x)) == Next(HashEnv(ops, ms, x, k))
  {
    if k > 0 {
      HashStatementsRun(ops, ms, x, k - 1);
      HashEnvHas(ops, ms, x, k - 1);
      HashEnvCodes(ops, ms, x, k - 1, k - 1);
      var m, env := ms[k - 1], HashEnv(ops, ms, x, k - 1);
      MemberHashed(ops, m, x, env);
      ExecThen(ops, HashStatements(ms, k - 1), HashStatement(m.use, Var(Bare(m.name)), HashOf(m.name), 0),
               HashFrame(x), env);
    }
  }

  lemma MemberHashed(ops: Leaf, m: Member, x: Instance, env: Env)
    requires m.name in x && HasType(m.use, x[m.name])
    requires InScope(env, 0) && HashOf(m.name) !in env
    requires forall n :: n in HashFrame(x) ==> n in env && env[n] == HashFrame(x)[n]
    ensures Exec(ops, HashStatement(m.use, Var(Bare(m.name)), HashOf(m.name), 0), env)
            == Next(env[HashOf(m.name) := Code(MemberHash(ops, m, x))])
  {
    assert Bare(m.name) in HashFrame(x);
    HashCorrect(ops, m.use, Var(Bare(m.name)), HashOf(m.name), 0, env, x[m.name]);
  }

  lemma {:induction false} JoinedHashesEval(ops: Leaf, ms: seq<Member>, x: Instance, k: nat, env: Env)
    requires IsInstance(ms, x) && k <= |ms|
    requires forall i :: 0 <= i < k ==>
               HashOf(ms[i].name) in env && env[HashOf(ms[i].name)] == Code(MemberHash(ops, ms[i], x))
    ensures Eval(ops, JoinedHashes(ms, k), env) == Some(Code(JoinedHash(ops, ms, x, k)))
  {
    if k > 1 {
      JoinedHashesEval(ops, ms, x, k - 1, env);
      assert Eval(ops, Var(HashOf(ms[k - 1].name)), env) == Some(Code(MemberHash(ops, ms[k - 1], x)));
    }
  }

  /** The generated `GetHashCode` runs without error. */
  lemma HashMethodCorrect(ops: Leaf, ms: seq<Member>, x: Instance)
    requires IsInstance(ms, x) && Distinct(ms)
    ensures RunHash(ops, ms, x) == Some(Code(JoinedHash(ops, ms, x, |ms|)))
  {
    HashStatementsRun(ops, ms, x, |ms|);
    forall i | 0 <= i < |ms|
      ensures HashOf(ms[i].name) in HashEnv(ops, ms, x, |ms|)
      ensures HashEnv(ops, ms, x, |ms|)[HashOf(ms[i].name)] == Code(MemberHash(ops, ms[i], x))
    {
      HashEnvCodes(ops, ms, x, |ms|, i);
    }
    JoinedHashesEval(ops, ms, x, |ms|, HashEnv(ops, ms, x, |ms|));
  }

  /** .NET's own contract for the `Equals` and `GetHashCode` of the leaf types. */
  ghost predicate Lawful(ops: Leaf) {
    && (forall i :: ops.eq(Obj(i), Obj(i)))
    && (forall i, j :: ops.eq(Obj(i), Obj(j)) ==> ops.eq(Obj(j), Obj(i)))
    && (forall i, j, k :: ops.eq(Obj(i), Obj(j)) && ops.eq(Obj(j), Obj(k)) ==> ops.eq(Obj(i), Obj(k)))
    && (forall i :: !ops.eq(Obj(i), Null))
    && (forall i, j :: ops.eq(Obj(i), Obj(j)) ==> ops.hash(Obj(i)) == ops.hash(Obj(j)))
  }

  lemma {:induction false} LogicalEqRefl(ops: Leaf, t: TypeUse, a: Value)
    requires Lawful(ops) && HasType(t, a)
    ensures LogicalEq(ops, t, a, a)
    decreases t
  {
    if (t.ArrayUse? || t.ListUse?) && !a.Null? {
      forall k | 0 <= k < |a.elems| ensures LogicalEq(ops, t.elem, a.elems[k], a.elems[k]) {
        LogicalEqRefl(ops, t.elem, a.elems[k]);
      }
    }
  }

  lemma {:induction false} LogicalEqSym(ops: Leaf, t: TypeUse, a: Value, b: Value)
    requires Lawful(ops) && HasType(t, a) && HasType(t, b) && LogicalEq(ops, t, a, b)
    ensures LogicalEq(ops, t, b, a)
    decreases t
  {
    if (t.ArrayUse? || t.ListUse?) && !a.Null? {
      forall k | 0 <= k < |a.elems| ensures LogicalEq(ops, t.elem, b.elems[k], a.elems[k]) {
        LogicalEqSym(ops, t.elem, a.elems[k], b.elems[k]);
      }
    }
  }

  lemma {:induction false} LogicalEqTrans(ops: Leaf, t: TypeUse, a: Value, b: Value, c: Value)
    requires Lawful(ops) && HasType(t, a) && HasType(t, b) && HasType(t, c)
    requires LogicalEq(ops, t, a, b) && LogicalEq(ops, t, b, c)
    ensures LogicalEq(ops, t, a, c)
    decreases t
  {
    if (t.ArrayUse? || t.ListUse?) && !a.Null? {
      forall k | 0 <= k < |a.elems| ensures LogicalEq(ops, t.elem, a.elems[k], c.elems[k]) {
        LogicalEqTrans(ops, t.elem, a.elems[k], b.elems[k], c.elems[k]);
      }
    }
  }

  lemma {:induction false} LogicalEqHash(ops: Leaf, t: TypeUse, a: Value, b: Value)
    requires Lawful(ops) && HasType(t, a) && HasType(t, b) && LogicalEq(ops, t, a, b)
    ensures LogicalHash(ops, t, a) == LogicalHash(ops, t, b)
    decreases t
  {
    if (t.ArrayUse? || t.ListUse?) && !a.Null? {
      forall k | 0 <= k < |a.elems|
        ensures LogicalHash(ops, t.elem, a.elems[k]) == LogicalHash(ops, t.elem, b.elems[k])
      {
        LogicalEqHash(ops, t.elem, a.elems[k], b.elems[k]);
      }
      assert Hashes(ops, t, a) == Hashes(ops, t, b);
    }
  }

  ghost predicate IsOperand(ms: seq<Member>, x: Object) {
    x.NullRef? || (x.Inst? && IsInstance(ms, x.fields))
  }

  /** `==` never throws and is an equivalence on null and the instances of the type. */
  lemma OpEqualsIsEquivalence(ops: Leaf, ms: seq<Member>, x: Object, y: Object, z: Object)
    requires Lawful(ops) && Distinct(ms) && IsOperand(ms, x) && IsOperand(ms, y) && IsOperand(ms, z)
    ensures RunOpEquals(ops, ms, x, x) == Some(Bool(true))
    ensures RunOpEquals(ops, ms, x, y).Some? && RunOpEquals(ops, ms, x, y) == RunOpEquals(ops, ms, y, x)
    ensures RunOpEquals(ops, ms, x, y) == RunOpEquals(ops, ms, y, z) == Some(Bool(true)) ==>
              RunOpEquals(ops, ms, x, z) == Some(Bool(true))
  {
    if x.Inst? { MembersRefl(ops, ms, x.fields); }
    if x.Inst? && y.Inst? { MembersSym(ops, ms, x.fields, y.fields); }
    if x.Inst? && y.Inst? && z.Inst? { MembersTrans(ops, ms, x.fields, y.fields, z.fields); }
  }

  /** Two nulls, or two instances whose members are all logically equal. */
  ghost predicate ObjectsEqual(ops: Leaf, ms: seq<Member>, x: Object, y: Object)
    requires IsOperand(ms, x) && IsOperand(ms, y)
  {
    if x.NullRef? || y.NullRef? then x.NullRef? && y.NullRef? else MembersEqual(ops, ms, x.fields, y.fields, |ms|)
  }

  /** `==`, `!=` and `Equals(object?)` all run without error and decide that relation; an object of
      another class equals no instance. */
  lemma OperatorsAgree(ops: Leaf, ms: seq<Member>, x: Object, y: Object, o: Object)
    requires Distinct(ms) && IsOperand(ms, x) && IsOperand(ms, y) && (o.Foreign? || IsOperand(ms, o))
    ensures RunOpEquals(ops, ms, x, y) == Some(Bool(ObjectsEqual(ops, ms, x, y)))
    ensures RunOpNotEquals(ops, ms, x, y) == Some(Bool(!ObjectsEqual(ops, ms, x, y)))
    ensures x.Inst? ==> RunEqualsObject(ops, ms, x.fields, o) == Some(Bool(!o.Foreign? && ObjectsEqual(ops, ms, x, o)))
  {
    if x.Inst? && y.Inst? { EqualsMethodCorrect(ops, ms, x.fields, y.fields); }
    if x.Inst? && o.Inst? { EqualsMethodCorrect(ops, ms, x.fields, o.fields); }
  }

  /** Equal instances get equal hashes from the generated code. */
  lemma EqualInstancesHashAlike(ops: Leaf, ms: seq<Member>, x: Instance, y: Instance)
    requires Lawful(ops) && Distinct(ms) && IsInstance(ms, x) && IsInstance(ms, y)
    requires RunEquals(ops, ms, x, y) == Some(Bool(true))
    ensures RunHash(ops, ms, x).Some? && RunHash(ops, ms, x) == RunHash(ops, ms, y)
  {
    EqualsMethodCorrect(ops, ms, x, y);
    HashMethodCorrect(ops, ms, x);
    HashMethodCorrect(ops, ms, y);
    JoinedHashAlike(ops, ms, x, y, |ms|);
  }

  lemma {:induction false} JoinedHashAlike(ops: Leaf, ms: seq<Member>, x: Instance, y: Instance, k: nat)
    requires Lawful(ops) && IsInstance(ms, x) && IsInstance(ms, y) && k <= |ms| && MembersEqual(ops, ms, x, y, |ms|)
    ensures JoinedHash(ops, ms, x, k) == JoinedHash(ops, ms, y, k)
  {
    if k > 0 {
      JoinedHashAlike(ops, ms, x, y, k - 1);
      LogicalEqHash(ops, ms[k - 1].use, x[ms[k - 1].name], y[ms[k - 1].name]);
    }
  }

  lemma MembersRefl(ops: Leaf, ms: seq<Member>, x: Instance)
    requires Lawful(ops) && Distinct(ms) && IsInstance(ms, x)
    ensures RunEquals(ops, ms, x, x) == Some(Bool(true))
  {
    EqualsMethodCorrect(ops, ms, x, x);
    forall i | 0 <= i < |ms| ensures LogicalEq(ops, ms[i].use, x[ms[i].name], x[ms[i].name]) {
      LogicalEqRefl(ops, ms[i].use, x[ms[i].name]);
    }
  }

  lemma MembersSym(ops: Leaf, ms: seq<Member>, x: Instance, y: Instance)
    requires Lawful(ops) && Distinct(ms) && IsInstance(ms, x) && IsInstance(ms, y)
    ensures RunEquals(ops, ms, x, y).Some? && RunEquals(ops, ms, x, y) == RunEquals(ops, ms, y, x)
  {
    EqualsMethodCorrect(ops, ms, x, y);
    EqualsMethodCorrect(ops, ms, y, x);
    forall i | 0 <= i < |ms|
      ensures LogicalEq(ops, ms[i].use, x[ms[i].name], y[ms[i].name])
         <==> LogicalEq(ops, ms[i].use, y[ms[i].name], x[ms[i].name])
    {
      if LogicalEq(ops, ms[i].use, x[ms[i].name], y[ms[i].name]) {
        LogicalEqSym(ops, ms[i].use, x[ms[i].name], y[ms[i].name]);
      }
      if LogicalEq(ops, ms[i].use, y[ms[i].name], x[ms[i].name]) {
        LogicalEqSym(ops, ms[i].use, y[ms[i].name], x[ms[i].name]);
      }
    }
  }

  lemma MembersTrans(ops: Leaf, ms: seq<Member>, x: Instance, y: Instance, z: Instance)
    requires Lawful(ops) && Distinct(ms) && IsInstance(ms, x) && IsInstance(ms, y) && IsInstance(ms, z)
    ensures RunEquals(ops, ms, x, y) == RunEquals(ops, ms, y, z) == Some(Bool(true)) ==>
              RunEquals(ops, ms, x, z) == Some(Bool(true))
  {
    EqualsMethodCorrect(ops, ms, x, y);
    EqualsMethodCorrect(ops, ms, y, z);
    EqualsMethodCorrect(ops, ms, x, z);
    if MembersEqual(ops, ms, x, y, |ms|) && MembersEqual(ops, ms, y, z, |ms|) {
      forall i | 0 <= i < |ms| ensures LogicalEq(ops, ms[i].use, x[ms[i].name], z[ms[i].name]) {
        LogicalEqTrans(ops, ms[i].use, x[ms[i].name], y[ms[i].name], z[ms[i].name]);
      }
    }
  }
}
