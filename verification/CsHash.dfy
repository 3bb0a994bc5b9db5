/** `TypeUse.GetHashCodeStatement`: the statements that hash one member, nested to any depth. */
module CsHash {
  import opened Options
  import opened CsLanguage
  import opened CsEquality

  /** Logical hash: null is 0, sequences mix their elements' hashes in order. */
  function LogicalHash(ops: Leaf, t: TypeUse, v: Value): int
    requires HasType(t, v)
    decreases t, 1
  {
    match t
    case ValueUse => ops.hash(v)
    case ReferenceUse => if v.Null? then 0 else ops.hash(v)
    case _ => if v.Null? then 0 else ops.mix(Hashes(ops, t, v))
  }

  function Hashes(ops: Leaf, t: TypeUse, v: Value): seq<int>
    requires (t.ArrayUse? || t.ListUse?) && HasType(t, v) && !v.Null?
    decreases t, 0
  {
    seq(|v.elems|, k requires 0 <= k < |v.elems| => LogicalHash(ops, t.elem, v.elems[k]))
  }

  function HashStatement(t: TypeUse, e: Expr, out: Name, level: nat): Stmt
    decreases t, 1
  {
    match t
    case ValueUse => Declare(out, CallHash(e))
    case ReferenceUse => Declare(out, Ternary(Eq(e, NullLit), ZeroCode, CallHash(e)))
    case _ =>
      Then(Declare(out, ZeroCode),
           If(Ne(e, NullLit),
              Then(Declare(HashAcc(level), NewHashCode),
                   Then(For(Iter(level), SizeOf(t, e), HashBody(t, e, level)),
                        Assign(out, ToHashCode(Var(HashAcc(level)))))),
              Skip))
  }

  function HashBody(t: TypeUse, e: Expr, level: nat): Stmt
    requires t.ArrayUse? || t.ListUse?
    decreases t, 0
  {
    var e' := Index(e, Var(Iter(level)));
    var add := HashAdd(HashAcc(level), Var(Out(level + 1)));
    if t.ArrayUse? then Then(HashStatement(t.elem, e', Out(level + 1), level + 1), add)
    else Then(Declare(Tmp(level), e'), Then(HashStatement(t.elem, Var(Tmp(level)), Out(level + 1), level + 1), add))
  }

  ghost predicate InHashBody(env: Env, level: nat, k: nat) {
    && (forall x :: x in env ==> x == Iter(level) || x == HashAcc(level) || Below(x, level))
    && Iter(level) in env && env[Iter(level)] == Int(k)
    && HashAcc(level) in env && env[HashAcc(level)].Acc?
  }

  /** The emitted statements never get stuck, set `out` to the logical hash, and leave every other
      local exactly as it was. */
  lemma {:induction false} HashCorrect(ops: Leaf, t: TypeUse, e: Expr, out: Name, level: nat, env: Env, v: Value)
    requires Holds(ops, t, e, v, env)
    requires InScope(env, level) && Below(out, level) && out !in env
    ensures Exec(ops, HashStatement(t, e, out, level), env) == Next(env[out := Code(LogicalHash(ops, t, v))])
    decreases t, 1, 0
  {
    if t.ArrayUse? || t.ListUse? {
      HashSequence(ops, t, e, out, level, env, v);
    } else {
      LeafHash(ops, t, e, out, level, env, v);
    }
  }

  lemma LeafHash(ops: Leaf, t: TypeUse, e: Expr, out: Name, level: nat, env: Env, v: Value)
    requires (t.ValueUse? || t.ReferenceUse?) && Holds(ops, t, e, v, env) && out !in env
    ensures Exec(ops, HashStatement(t, e, out, level), env) == Next(env[out := Code(LogicalHash(ops, t, v))])
  {
    if !v.Null? { assert Eval(ops, CallHash(e), env) == Some(Code(ops.hash(v))); }
    if t.ReferenceUse? {
      NullTest(ops, t, e, v, env);
      assert Eval(ops, Ternary(Eq(e, NullLit), ZeroCode, CallHash(e)), env) == Some(Code(LogicalHash(ops, t, v)));
    }
  }

  lemma {:induction false} HashSequence(ops: Leaf, t: TypeUse, e: Expr, out: Name, level: nat, env: Env, v: Value)
    requires (t.ArrayUse? || t.ListUse?) && Holds(ops, t, e, v, env)
    requires InScope(env, level) && Below(out, level) && out !in env
    ensures Exec(ops, HashStatement(t, e, out, level), env) == Next(env[out := Code(LogicalHash(ops, t, v))])
    decreases t, 0, 2
  {
    var env1 := env[out := Code(0)];
    var loop := For(Iter(level), SizeOf(t, e), HashBody(t, e, level));
    HoldsExtends(ops, t, e, v, env, env1);
    NullTest(ops, t, e, v, env1);
    if !v.Null? {
      HashFor(ops, t, e, level, env1, v);
      HashFinish(ops, out, level, env1, loop, Hashes(ops, t, v));
    }
    HashShell(ops, e, out, level, env, loop, v.Null?, if v.Null? then [] else Hashes(ops, t, v));
  }

  /** The declaration and the null test around any loop that fills the accumulator. */
  lemma HashShell(ops: Leaf, e: Expr, out: Name, level: nat, env: Env, loop: Stmt, isNull: bool, codes: seq<int>)
    requires out !in env && out != HashAcc(level) && HashAcc(level) !in env
    requires Eval(ops, Ne(e, NullLit), env[out := Code(0)]) == Some(Bool(!isNull))
    requires !isNull ==>
               Exec(ops, Then(Declare(HashAcc(level), NewHashCode),
                              Then(loop, Assign(out, ToHashCode(Var(HashAcc(level)))))),
                    env[out := Code(0)])
               == Next(env[out := Code(0)][HashAcc(level) := Acc(codes)][out := Code(ops.mix(codes))])
    ensures Exec(ops, Then(Declare(out, ZeroCode),
                           If(Ne(e, NullLit),
                              Then(Declare(HashAcc(level), NewHashCode),
                                   Then(loop, Assign(out, ToHashCode(Var(HashAcc(level)))))),
                              Skip)), env)
            == Next(env[out := Code(if isNull then 0 else ops.mix(codes))])
  {
    var env1 := env[out := Code(0)];
    var fill := Then(Declare(HashAcc(level), NewHashCode), Then(loop, Assign(out, ToHashCode(Var(HashAcc(level))))));
    var done := env[out := Code(if isNull then 0 else ops.mix(codes))];
    if isNull {
      LeaveSame(env1, env1);
    } else {
      assert Leave(env1, env1[HashAcc(level) := Acc(codes)][out := Code(ops.mix(codes))]) == done;
    }
    ExecIf(ops, Ne(e, NullLit), fill, Skip, env1, !isNull, done);
    ExecThen(ops, Declare(out, ZeroCode), If(Ne(e, NullLit), fill, Skip), env, env1);
  }

  /** The accumulator's life around any loop that fills it. */
  lemma HashFinish(ops: Leaf, out: Name, level: nat, env: Env, loop: Stmt, added: seq<int>)
    requires out in env && env[out] == Code(0) && out != HashAcc(level) && HashAcc(level) !in env
    requires Exec(ops, loop, env[HashAcc(level) := Acc([])]) == Next(env[HashAcc(level) := Acc(added)])
    ensures Exec(ops, Then(Declare(HashAcc(level), NewHashCode),
                           Then(loop, Assign(out, ToHashCode(Var(HashAcc(level)))))), env)
            == Next(env[HashAcc(level) := Acc(added)][out := Code(ops.mix(added))])
  {
    var env2, env3 := env[HashAcc(level) := Acc([])], env[HashAcc(level) := Acc(added)];
    var last := Assign(out, ToHashCode(Var(HashAcc(level))));
    assert Eval(ops, Var(HashAcc(level)), env3) == Some(Acc(added));
    ExecThen(ops, Declare(HashAcc(level), NewHashCode), Then(loop, last), env, env2);
    ExecThen(ops, loop, last, env2, env3);
  }

  /** The loop adds the hash of every element, in order. */
  lemma {:induction false} HashFor(ops: Leaf, t: TypeUse, e: Expr, level: nat, env: Env, v: Value)
    requires (t.ArrayUse? || t.ListUse?) && Holds(ops, t, e, v, env) && !v.Null?
    requires InScope(env, level)
    ensures Exec(ops, For(Iter(level), SizeOf(t, e), HashBody(t, e, level)), env[HashAcc(level) := Acc([])])
            == Next(env[HashAcc(level) := Acc(Hashes(ops, t, v))])
    decreases t, 0, 1
  {
    var s := For(Iter(level), SizeOf(t, e), HashBody(t, e, level));
    var acc, codes := HashAcc(level), Hashes(ops, t, v);
    forall m: nat | m <= |codes|
      ensures Eval(ops, s.bound, FoldEnv(s, env, acc, codes, m)) == Some(Int(|codes|))
    {
      HoldsExtends(ops, t, e, v, env, FoldEnv(s, env, acc, codes, m));
      SizeTest(ops, t, e, v, FoldEnv(s, env, acc, codes, m));
    }
    forall m: nat | m < |codes| ensures Folds(ops, s, env, acc, codes, m) {
      HashFolds(ops, t, e, level, env, v, m);
    }
    FoldFor(ops, s, env, acc, codes);
  }

  lemma {:induction false} HashFolds(ops: Leaf, t: TypeUse, e: Expr, level: nat, env: Env, v: Value, m: nat)
    requires (t.ArrayUse? || t.ListUse?) && Holds(ops, t, e, v, env) && !v.Null? && m < |v.elems|
    requires InScope(env, level)
    ensures Folds(ops, For(Iter(level), SizeOf(t, e), HashBody(t, e, level)), env, HashAcc(level), Hashes(ops, t, v), m)
    decreases t, 0, 0, 1
  {
    var codes := Hashes(ops, t, v);
    var cur := FoldEnv(For(Iter(level), SizeOf(t, e), HashBody(t, e, level)), env, HashAcc(level), codes, m);
    HoldsExtends(ops, t, e, v, env, cur);
    HashStep(ops, t, e, level, cur, v, m);
    assert codes[..m + 1] == codes[..m] + [codes[m]];
  }

  /** One iteration adds the hash of element `k` to the accumulator and changes nothing else. */
  lemma {:induction false} HashStep(ops: Leaf, t: TypeUse, e: Expr, level: nat, env: Env, v: Value, k: nat)
    requires (t.ArrayUse? || t.ListUse?) && Holds(ops, t, e, v, env) && !v.Null? && k < |v.elems|
    requires InHashBody(env, level, k)
    ensures LeaveBlock(env, Exec(ops, HashBody(t, e, level), env))
            == Next(env[HashAcc(level) := Acc(env[HashAcc(level)].added + [LogicalHash(ops, t.elem, v.elems[k])])])
    decreases t, 0, 0, 0
  {
    HashScope(env, level, k);
    ElementHolds(ops, t, e, v, env, level, k);
    var v', e' := v.elems[k], Index(e, Var(Iter(level)));
    var h := LogicalHash(ops, t.elem, v');
    if t.ArrayUse? {
      HashCorrect(ops, t.elem, e', Out(level + 1), level + 1, env, v');
      AddElement(ops, level, env, env, HashStatement(t.elem, e', Out(level + 1), level + 1), h);
    } else {
      var mid := env[Tmp(level) := Val(v')];
      var hash := HashStatement(t.elem, Var(Tmp(level)), Out(level + 1), level + 1);
      HashCorrect(ops, t.elem, Var(Tmp(level)), Out(level + 1), level + 1, mid, v');
      ExecThen(ops, Declare(Tmp(level), e'), Then(hash, HashAdd(HashAcc(level), Var(Out(level + 1)))), env, mid);
      AddElement(ops, level, env, mid, hash, h);
    }
  }

  lemma HashScope(env: Env, level: nat, k: nat)
    requires InHashBody(env, level, k)
    ensures InScope(env, level + 1) && Out(level + 1) !in env && Tmp(level) !in env
  {}

  /** The end of the body, after any statement that declares the element's hash. */
  lemma AddElement(ops: Leaf, level: nat, env: Env, mid: Env, hash: Stmt, h: int)
    requires HashAcc(level) in env && env[HashAcc(level)].Acc? && Out(level + 1) !in mid
    requires forall x :: x in env ==> x in mid && mid[x] == env[x]
    requires Exec(ops, hash, mid) == Next(mid[Out(level + 1) := Code(h)])
    ensures LeaveBlock(env, Exec(ops, Then(hash, HashAdd(HashAcc(level), Var(Out(level + 1)))), mid))
            == Next(env[HashAcc(level) := Acc(env[HashAcc(level)].added + [h])])
  {
    var acc, after := HashAcc(level), mid[Out(level + 1) := Code(h)];
    ExecThen(ops, hash, HashAdd(acc, Var(Out(level + 1))), mid, after);
    assert Eval(ops, Var(Out(level + 1)), after) == Some(Code(h));
    assert Leave(env, after[acc := Acc(env[acc].added + [h])]) == env[acc := Acc(env[acc].added + [h])];
  }
}
