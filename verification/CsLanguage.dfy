/** The fragment of C# that the BSATN code generator emits: local declarations, assignments,
    `if`, counted `for`, `break`, indexing, null tests and calls to `Equals`, `GetHashCode` and
    `System.HashCode`.

    The interpreter is partial. It is `Stuck` on everything C# rejects or throws on (redeclaring a
    local that is in scope, reading an undeclared one, dereferencing null, indexing out of range,
    `Length` of a list) and also on a loop whose body changes its counter or its bound, so a run
    that is not `Stuck` is a run of the C# program. */
module CsLanguage {
  import opened Options

  /** Identifiers, by the role the generator gives them. `Render` in CsNames is their spelling. */
  datatype Name =
    | Iter(level: nat)
    | TmpA(level: nat)
    | TmpB(level: nat)
    | Tmp(level: nat)
    | HashAcc(level: nat)
    | Out(level: nat)
    | EqOf(member: string)
    | HashOf(member: string)
    | ThisDot(member: string)
    | ThatDot(member: string)
    | Bare(member: string)

  /** Run-time values. `Obj` is an opaque value or object; its `Equals` and `GetHashCode` are the
      parameters in `Leaf`, as are `System.HashCode`'s mixing function and `^` on hash codes. */
  datatype Value =
    | Null
    | Obj(id: int)
    | Arr(elems: seq<Value>)
    | List(elems: seq<Value>)

  datatype Leaf = Leaf(
    eq: (Value, Value) -> bool,
    hash: Value -> int,
    mix: seq<int> -> int,
    xor: (int, int) -> int)

  /** What a local holds. `Acc` is a `System.HashCode`, known by the codes added to it so far. */
  datatype Cell =
    | Bool(b: bool)
    | Int(n: int)
    | Val(v: Value)
    | Code(h: int)
    | Acc(added: seq<int>)

  type Env = map<Name, Cell>

  datatype Expr =
    | Var(x: Name)
    | NullLit
    | BoolLit(b: bool)
    | ZeroCode
    | Index(base: Expr, idx: Expr)
    | Length(of: Expr)
    | Count(of: Expr)
    | Eq(l: Expr, r: Expr)
    | Ne(l: Expr, r: Expr)
    | Not(arg: Expr)
    | Or(l: Expr, r: Expr)
    | And(l: Expr, r: Expr)
    | Xor(l: Expr, r: Expr)
    | Ternary(cond: Expr, yes: Expr, no: Expr)
    | CallEquals(recv: Expr, arg: Expr)
    | CallHash(recv: Expr)
    | NewHashCode
    | ToHashCode(acc: Expr)

  datatype Stmt =
    | Skip
    | Then(first: Stmt, second: Stmt)
    | Declare(x: Name, init: Expr)
    | Assign(x: Name, rhs: Expr)
    | HashAdd(x: Name, code: Expr)
    | If(cond: Expr, thn: Stmt, els: Stmt)
    | For(i: Name, bound: Expr, body: Stmt)
    | Break

  datatype Outcome = Next(env: Env) | Broke(env: Env) | Stuck

  /** `==` on integers, and on references when at least one is null (identity is not modelled). */
  function EqCells(l: Cell, r: Cell): Option<bool> {
    match (l, r)
    case (Int(m), Int(n)) => Some(m == n)
    case (Val(a), Val(b)) => if a.Null? || b.Null? then Some(a.Null? && b.Null?) else None
    case _ => None
  }

  function EqResult(l: Option<Cell>, r: Option<Cell>, negated: bool): Option<Cell> {
    if l.None? || r.None? then None else
    match EqCells(l.value, r.value)
    case Some(t) => Some(Bool(t != negated))
    case None => None
  }

  function IndexResult(base: Option<Cell>, idx: Option<Cell>): Option<Cell> {
    if base.Some? && base.value.Val? && idx.Some? && idx.value.Int? then ElementAt(base.value.v, idx.value.n) else None
  }

  function ElementAt(v: Value, n: int): Option<Cell> {
    if (v.Arr? || v.List?) && 0 <= n < |v.elems| then Some(Val(v.elems[n])) else None
  }

  function LengthResult(c: Option<Cell>): Option<Cell> {
    if c.Some? && c.value.Val? && c.value.v.Arr? then Some(Int(|c.value.v.elems|)) else None
  }

  function CountResult(c: Option<Cell>): Option<Cell> {
    if c.Some? && c.value.Val? && c.value.v.List? then Some(Int(|c.value.v.elems|)) else None
  }

  predicate IsBool(c: Option<Cell>) {
    c.Some? && c.value.Bool?
  }

  function AsBool(c: Option<Cell>): Option<Cell> {
    if IsBool(c) then c else None
  }

  function NotResult(c: Option<Cell>): Option<Cell> {
    if IsBool(c) then Some(Bool(!c.value.b)) else None
  }

  function XorResult(ops: Leaf, l: Option<Cell>, r: Option<Cell>): Option<Cell> {
    if l.Some? && l.value.Code? && r.Some? && r.value.Code? then Some(Code(ops.xor(l.value.h, r.value.h))) else None
  }

  /** A call on null throws. */
  function EqualsResult(ops: Leaf, recv: Option<Cell>, arg: Option<Cell>): Option<Cell> {
    if recv.Some? && recv.value.Val? && !recv.value.v.Null? && arg.Some? && arg.value.Val?
    then Some(Bool(ops.eq(recv.value.v, arg.value.v))) else None
  }

  function HashResult(ops: Leaf, recv: Option<Cell>): Option<Cell> {
    if recv.Some? && recv.value.Val? && !recv.value.v.Null? then Some(Code(ops.hash(recv.value.v))) else None
  }

  function ToHashCodeResult(ops: Leaf, acc: Option<Cell>): Option<Cell> {
    if acc.Some? && acc.value.Acc? then Some(Code(ops.mix(acc.value.added))) else None
  }

  function Eval(ops: Leaf, e: Expr, env: Env): Option<Cell> {
    match e
    case Var(x) => if x in env then Some(env[x]) else None
    case NullLit => Some(Val(Null))
    case BoolLit(b) => Some(Bool(b))
    case ZeroCode => Some(Code(0))
    case Index(base, idx) => IndexResult(Eval(ops, base, env), Eval(ops, idx, env))
    case Length(of) => LengthResult(Eval(ops, of, env))
    case Count(of) => CountResult(Eval(ops, of, env))
    case Eq(l, r) => EqResult(Eval(ops, l, env), Eval(ops, r, env), false)
    case Ne(l, r) => EqResult(Eval(ops, l, env), Eval(ops, r, env), true)
    case Not(arg) => NotResult(Eval(ops, arg, env))
    case Or(l, r) =>
      var c := Eval(ops, l, env);
      if !IsBool(c) then None else if c.value.b then c else AsBool(Eval(ops, r, env))
    case And(l, r) =>
      var c := Eval(ops, l, env);
      if !IsBool(c) then None else if c.value.b then AsBool(Eval(ops, r, env)) else c
    case Xor(l, r) => XorResult(ops, Eval(ops, l, env), Eval(ops, r, env))
    case Ternary(cond, yes, no) =>
      var c := Eval(ops, cond, env);
      if !IsBool(c) then None else if c.value.b then Eval(ops, yes, env) else Eval(ops, no, env)
    case CallEquals(recv, arg) => EqualsResult(ops, Eval(ops, recv, env), Eval(ops, arg, env))
    case CallHash(recv) => HashResult(ops, Eval(ops, recv, env))
    case NewHashCode => Some(Acc([]))
    case ToHashCode(acc) => ToHashCodeResult(ops, Eval(ops, acc, env))
  }

  /** Leaving a block: only the names in scope on entry stay in scope. */
  function Leave(entry: Env, exit: Env): Env {
    map x | x in exit && x in entry :: exit[x]
  }

  function LeaveBlock(entry: Env, o: Outcome): Outcome {
    match o
    case Next(env) => Next(Leave(entry, env))
    case Broke(env) => Broke(Leave(entry, env))
    case Stuck => Stuck
  }

  predicate SameKind(a: Cell, b: Cell) {
    (a.Bool? <==> b.Bool?) && (a.Int? <==> b.Int?) && (a.Val? <==> b.Val?) && (a.Code? <==> b.Code?)
  }

  /** C# rejects a declaration of a name that is in scope. */
  function DeclareIn(env: Env, x: Name, c: Option<Cell>): Outcome {
    if c.None? || x in env then Stuck else Next(env[x := c.value])
  }

  function AssignIn(env: Env, x: Name, c: Option<Cell>): Outcome {
    if c.Some? && x in env && SameKind(env[x], c.value) then Next(env[x := c.value]) else Stuck
  }

  function AddIn(env: Env, x: Name, c: Option<Cell>): Outcome {
    if c.Some? && c.value.Code? && x in env && env[x].Acc?
    then Next(env[x := Acc(env[x].added + [c.value.h])]) else Stuck
  }

  function Exec(ops: Leaf, s: Stmt, env: Env): Outcome
    decreases s, 1, 0
  {
    match s
    case Skip => Next(env)
    case Then(first, second) =>
      var o := Exec(ops, first, env);
      if o.Next? then Exec(ops, second, o.env) else o
    case Declare(x, init) => DeclareIn(env, x, Eval(ops, init, env))
    case Assign(x, rhs) => AssignIn(env, x, Eval(ops, rhs, env))
    case HashAdd(x, code) => AddIn(env, x, Eval(ops, code, env))
    case If(cond, thn, els) =>
      var c := Eval(ops, cond, env);
      if !IsBool(c) then Stuck
      else LeaveBlock(env, if c.value.b then Exec(ops, thn, env) else Exec(ops, els, env))
    case For(i, bound, body) =>
      var n := Eval(ops, bound, env[i := Int(0)]);
      if i in env || n.None? || !n.value.Int? then Stuck
      else LeaveBlock(env, Loop(ops, s, 0, n.value.n, env[i := Int(0)]))
    case Break => Broke(env)
  }

  /** The loop `s` at the test of iteration `k`. The bound is evaluated again at every test. */
  function Loop(ops: Leaf, s: Stmt, k: int, n: int, env: Env): Outcome
    requires s.For?
    decreases s, 0, n - k
  {
    if s.i !in env || env[s.i] != Int(k) || Eval(ops, s.bound, env) != Some(Int(n)) then Stuck
    else if k >= n then Next(env)
    else
      var o := LeaveBlock(env, Exec(ops, s.body, env));
      if o.Broke? then Next(o.env)
      else if o.Next? && s.i in o.env && o.env[s.i] == Int(k)
      then Loop(ops, s, k + 1, n, o.env[s.i := Int(k + 1)])
      else Stuck
  }

  /** Declaring a name that is not in scope changes the value of no expression that has one. */
  lemma EvalExtends(ops: Leaf, e: Expr, env: Env, wide: Env)
    requires Eval(ops, e, env).Some?
    requires forall x :: x in env ==> x in wide && wide[x] == env[x]
    ensures Eval(ops, e, wide) == Eval(ops, e, env)
  {}

  lemma ExecThen(ops: Leaf, first: Stmt, second: Stmt, env: Env, mid: Env)
    requires Exec(ops, first, env) == Next(mid)
    ensures Exec(ops, Then(first, second), env) == Exec(ops, second, mid)
  {}

  /** A branch that declares nothing that outlives it. */
  lemma ExecIf(ops: Leaf, cond: Expr, thn: Stmt, els: Stmt, env: Env, b: bool, done: Env)
    requires Eval(ops, cond, env) == Some(Bool(b))
    requires LeaveBlock(env, Exec(ops, if b then thn else els, env)) == Next(done)
    ensures Exec(ops, If(cond, thn, els), env) == Next(done)
  {}

  lemma LeaveSame(env: Env, done: Env)
    requires done.Keys == env.Keys
    ensures Leave(env, done) == done
  {}

  /** Iteration `k` of `s`, with `env` around the loop: it either changes nothing, or clears `out`
      and breaks. */
  ghost predicate Searches(ops: Leaf, s: Stmt, env: Env, out: Name, eqs: seq<bool>, k: nat)
    requires s.For? && k < |eqs|
  {
    var cur := env[s.i := Int(k)];
    LeaveBlock(cur, Exec(ops, s.body, cur)) == if eqs[k] then Next(cur) else Broke(cur[out := Bool(false)])
  }

  /** A search loop stores the conjunction of its tests. */
  lemma {:induction false} SearchLoop(ops: Leaf, s: Stmt, env: Env, out: Name, eqs: seq<bool>, k: nat) returns (j: int)
    requires s.For? && s.i !in env && out in env && env[out] == Bool(true) && k <= |eqs|
    requires forall m: int :: Eval(ops, s.bound, env[s.i := Int(m)]) == Some(Int(|eqs|))
    requires forall m: nat :: k <= m < |eqs| ==> Searches(ops, s, env, out, eqs, m)
    ensures Loop(ops, s, k, |eqs|, env[s.i := Int(k)]) == Next(env[out := Bool(false !in eqs[k..])][s.i := Int(j)])
    decreases |eqs| - k
  {
    j := k;
    var cur := env[s.i := Int(k)];
    if k == |eqs| {
      assert env[out := Bool(true)] == env;
    } else {
      assert Searches(ops, s, env, out, eqs, k);
      if eqs[k] {
        assert cur[s.i := Int(k + 1)] == env[s.i := Int(k + 1)];
        j := SearchLoop(ops, s, env, out, eqs, k + 1);
        assert eqs[k..] == [true] + eqs[k + 1..];
      } else {
        assert eqs[k..][0] == false;
        assert cur[out := Bool(false)] == env[out := Bool(false)][s.i := Int(k)];
      }
    }
  }

  lemma SearchFor(ops: Leaf, s: Stmt, env: Env, out: Name, eqs: seq<bool>)
    requires s.For? && s.i !in env && out in env && env[out] == Bool(true)
    requires forall m: int :: Eval(ops, s.bound, env[s.i := Int(m)]) == Some(Int(|eqs|))
    requires forall m: nat :: m < |eqs| ==> Searches(ops, s, env, out, eqs, m)
    ensures Exec(ops, s, env) == Next(env[out := Bool(false !in eqs)])
  {
    var j := SearchLoop(ops, s, env, out, eqs, 0);
    assert eqs[0..] == eqs;
    var done := env[out := Bool(false !in eqs)];
    assert Leave(env, done[s.i := Int(j)]) == done;
  }

  /** The locals at the test of iteration `k` of a loop that adds `codes` to `acc` one by one. */
  function FoldEnv(s: Stmt, env: Env, acc: Name, codes: seq<int>, k: nat): Env
    requires s.For? && k <= |codes|
  {
    env[acc := Acc(codes[..k])][s.i := Int(k)]
  }

  ghost predicate Folds(ops: Leaf, s: Stmt, env: Env, acc: Name, codes: seq<int>, k: nat)
    requires s.For? && k < |codes|
  {
    var cur := FoldEnv(s, env, acc, codes, k);
    LeaveBlock(cur, Exec(ops, s.body, cur)) == Next(cur[acc := Acc(codes[..k + 1])])
  }

  lemma {:induction false} FoldLoop(ops: Leaf, s: Stmt, env: Env, acc: Name, codes: seq<int>, k: nat)
    requires s.For? && s.i != acc && k <= |codes|
    requires forall m: nat :: m <= |codes| ==> Eval(ops, s.bound, FoldEnv(s, env, acc, codes, m)) == Some(Int(|codes|))
    requires forall m: nat :: k <= m < |codes| ==> Folds(ops, s, env, acc, codes, m)
    ensures Loop(ops, s, k, |codes|, FoldEnv(s, env, acc, codes, k)) == Next(FoldEnv(s, env, acc, codes, |codes|))
    decreases |codes| - k
  {
    if k < |codes| {
      assert Folds(ops, s, env, acc, codes, k);
      var cur := FoldEnv(s, env, acc, codes, k);
      assert cur[acc := Acc(codes[..k + 1])][s.i := Int(k + 1)] == FoldEnv(s, env, acc, codes, k + 1);
      FoldLoop(ops, s, env, acc, codes, k + 1);
    }
  }

  lemma FoldFor(ops: Leaf, s: Stmt, env: Env, acc: Name, codes: seq<int>)
    requires s.For? && s.i != acc && s.i !in env
    requires forall m: nat :: m <= |codes| ==> Eval(ops, s.bound, FoldEnv(s, env, acc, codes, m)) == Some(Int(|codes|))
    requires forall m: nat :: m < |codes| ==> Folds(ops, s, env, acc, codes, m)
    ensures Exec(ops, s, env[acc := Acc([])]) == Next(env[acc := Acc(codes)])
  {
    FoldLoop(ops, s, env, acc, codes, 0);
    var env1 := env[acc := Acc([])];
    assert codes[..0] == [] && codes[..|codes|] == codes;
    assert env1[s.i := Int(0)] == FoldEnv(s, env, acc, codes, 0);
    assert Leave(env1, FoldEnv(s, env, acc, codes, |codes|)) == env[acc := Acc(codes)];
  }
}
