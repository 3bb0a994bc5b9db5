/** `TypeUse.EqualsStatement`: the statements that compare two members, nested to any depth. */
module CsEquality {
  import opened Options
  import opened CsLanguage

  datatype TypeUse =
    | ValueUse
    | ReferenceUse
    | ArrayUse(elem: TypeUse)
    | ListUse(elem: TypeUse)

  predicate HasType(t: TypeUse, v: Value) {
    match t
    case ValueUse => v.Obj?
    case ReferenceUse => v.Null? || v.Obj?
    case ArrayUse(elem) => v.Null? || (v.Arr? && forall k :: 0 <= k < |v.elems| ==> HasType(elem, v.elems[k]))
    case ListUse(elem) => v.Null? || (v.List? && forall k :: 0 <= k < |v.elems| ==> HasType(elem, v.elems[k]))
  }

  /** Logical equality: lists and arrays by sequence equality, everything else by `Equals`. */
  predicate LogicalEq(ops: Leaf, t: TypeUse, a: Value, b: Value)
    requires HasType(t, a) && HasType(t, b)
  {
    match t
    case ValueUse => ops.eq(a, b)
    case ReferenceUse => if a.Null? then b.Null? else ops.eq(a, b)
    case _ =>
      if a.Null? || b.Null? then a.Null? && b.Null?
      else |a.elems| == |b.elems| && forall k :: 0 <= k < |a.elems| ==> LogicalEq(ops, t.elem, a.elems[k], b.elems[k])
  }

  function SizeOf(t: TypeUse, e: Expr): Expr {
    if t.ListUse? then Count(e) else Length(e)
  }

  /** The statement declares `out` and stores in it whether `a` logically equals `b`. */
  function EqualsStatement(t: TypeUse, a: Expr, b: Expr, out: Name, level: nat): Stmt
    decreases t, 1
  {
    match t
    case ValueUse => Declare(out, CallEquals(a, b))
    case ReferenceUse => Declare(out, Ternary(Eq(a, NullLit), Eq(b, NullLit), CallEquals(a, b)))
    case _ =>
      Then(Declare(out, BoolLit(true)),
           If(Or(Eq(a, NullLit), Eq(b, NullLit)),
              Assign(out, Eq(a, b)),
              If(Ne(SizeOf(t, a), SizeOf(t, b)),
                 Assign(out, BoolLit(false)),
                 For(Iter(level), SizeOf(t, a), EqualsBody(t, a, b, out, level)))))
  }

  /** The loop body. Arrays pass `a[___i]` down as an expression; lists copy it to a temporary. */
  function EqualsBody(t: TypeUse, a: Expr, b: Expr, out: Name, level: nat): Stmt
    requires t.ArrayUse? || t.ListUse?
    decreases t, 0
  {
    var a' := Index(a, Var(Iter(level)));
    var b' := Index(b, Var(Iter(level)));
    var check := If(Not(Var(Out(level + 1))), Then(Assign(out, BoolLit(false)), Break), Skip);
    if t.ArrayUse? then
      Then(EqualsStatement(t.elem, a', b', Out(level + 1), level + 1), check)
    else
      Then(Declare(TmpA(level), a'),
           Then(Declare(TmpB(level), b'),
                Then(EqualsStatement(t.elem, Var(TmpA(level)), Var(TmpB(level)), Out(level + 1), level + 1), check)))
  }

  /** Names that statements of nesting `level` and deeper never declare. */
  predicate Below(x: Name, level: nat) {
    match x
    case Iter(l) => l < level
    case TmpA(l) => l < level
    case TmpB(l) => l < level
    case Tmp(l) => l < level
    case HashAcc(l) => l < level
    case Out(l) => l <= level
    case _ => true
  }

  ghost predicate InScope(env: Env, level: nat) {
    forall x :: x in env ==> Below(x, level)
  }

  ghost predicate Holds(ops: Leaf, t: TypeUse, e: Expr, v: Value, env: Env) {
    HasType(t, v) && Eval(ops, e, env) == Some(Val(v))
  }

  lemma HoldsExtends(ops: Leaf, t: TypeUse, e: Expr, v: Value, env: Env, wide: Env)
    requires Holds(ops, t, e, v, env)
    requires forall x :: x in env ==> x in wide && wide[x] == env[x]
    ensures Holds(ops, t, e, v, wide)
  {
    EvalExtends(ops, e, env, wide);
  }

  /** Which elements of two sequences of one length are equal. */
  ghost function EqSeq(ops: Leaf, t: TypeUse, va: Value, vb: Value): seq<bool>
    requires t.ArrayUse? || t.ListUse?
    requires HasType(t, va) && HasType(t, vb) && !va.Null? && !vb.Null? && |va.elems| == |vb.elems|
  {
    seq(|va.elems|, m requires 0 <= m < |va.elems| => LogicalEq(ops, t.elem, va.elems[m], vb.elems[m]))
  }

  lemma EqSeqAll(ops: Leaf, t: TypeUse, va: Value, vb: Value)
    requires t.ArrayUse? || t.ListUse?
    requires HasType(t, va) && HasType(t, vb) && !va.Null? && !vb.Null? && |va.elems| == |vb.elems|
    ensures false !in EqSeq(ops, t, va, vb) <==> LogicalEq(ops, t, va, vb)
  {
    var eqs := EqSeq(ops, t, va, vb);
    assert forall m :: 0 <= m < |eqs| ==> eqs[m] == LogicalEq(ops, t.elem, va.elems[m], vb.elems[m]);
    if LogicalEq(ops, t, va, vb) {
    } else {
      var m :| 0 <= m < |eqs| && !LogicalEq(ops, t.elem, va.elems[m], vb.elems[m]);
      assert eqs[m] == false;
    }
  }

  lemma NullTest(ops: Leaf, t: TypeUse, e: Expr, v: Value, env: Env)
    requires Holds(ops, t, e, v, env)
    ensures Eval(ops, Eq(e, NullLit), env) == Some(Bool(v.Null?))
    ensures Eval(ops, Ne(e, NullLit), env) == Some(Bool(!v.Null?))
  {
    assert Eval(ops, NullLit, env) == Some(Val(Null));
  }

  lemma SizeTest(ops: Leaf, t: TypeUse, e: Expr, v: Value, env: Env)
    requires (t.ArrayUse? || t.ListUse?) && Holds(ops, t, e, v, env) && !v.Null?
    ensures Eval(ops, SizeOf(t, e), env) == Some(Int(|v.elems|))
  {}

  lemma EitherNull(ops: Leaf, l: Expr, r: Expr, env: Env, p: bool, q: bool)
    requires Eval(ops, l, env) == Some(Bool(p)) && Eval(ops, r, env) == Some(Bool(q))
    ensures Eval(ops, Or(l, r), env) == Some(Bool(p || q))
  {}

  lemma BothNull(ops: Leaf, a: Expr, b: Expr, va: Value, vb: Value, env: Env)
    requires Eval(ops, a, env) == Some(Val(va)) && Eval(ops, b, env) == Some(Val(vb)) && (va.Null? || vb.Null?)
    ensures Eval(ops, Eq(a, b), env) == Some(Bool(va.Null? && vb.Null?))
  {}

  lemma SizesDiffer(ops: Leaf, l: Expr, r: Expr, env: Env, m: int, n: int)
    requires Eval(ops, l, env) == Some(Int(m)) && Eval(ops, r, env) == Some(Int(n))
    ensures Eval(ops, Ne(l, r), env) == Some(Bool(m != n))
  {}

  /** The tests the array and list statements start with. */
  lemma Tests(ops: Leaf, t: TypeUse, a: Expr, b: Expr, va: Value, vb: Value, env: Env)
    requires t.ArrayUse? || t.ListUse?
    requires Holds(ops, t, a, va, env) && Holds(ops, t, b, vb, env)
    ensures Eval(ops, Or(Eq(a, NullLit), Eq(b, NullLit)), env) == Some(Bool(va.Null? || vb.Null?))
    ensures va.Null? || vb.Null? ==> Eval(ops, Eq(a, b), env) == Some(Bool(va.Null? && vb.Null?))
    ensures !va.Null? && !vb.Null? ==>
              Eval(ops, Ne(SizeOf(t, a), SizeOf(t, b)), env) == Some(Bool(|va.elems| != |vb.elems|))
  {
    NullTest(ops, t, a, va, env);
    NullTest(ops, t, b, vb, env);
    EitherNull(ops, Eq(a, NullLit), Eq(b, NullLit), env, va.Null?, vb.Null?);
    if va.Null? || vb.Null? {
      BothNull(ops, a, b, va, vb, env);
    } else {
      SizeTest(ops, t, a, va, env);
      SizeTest(ops, t, b, vb, env);
      SizesDiffer(ops, SizeOf(t, a), SizeOf(t, b), env, |va.elems|, |vb.elems|);
    }
  }

  lemma ValueEquals(ops: Leaf, a: Expr, b: Expr, env: Env, va: Value, vb: Value)
    requires Eval(ops, a, env) == Some(Val(va)) && Eval(ops, b, env) == Some(Val(vb)) && !va.Null?
    ensures Eval(ops, CallEquals(a, b), env) == Some(Bool(ops.eq(va, vb)))
  {}

  lemma ReferenceEquals(ops: Leaf, a: Expr, b: Expr, env: Env, va: Value, vb: Value)
    requires Holds(ops, ReferenceUse, a, va, env) && Holds(ops, ReferenceUse, b, vb, env)
    ensures Eval(ops, Ternary(Eq(a, NullLit), Eq(b, NullLit), CallEquals(a, b)), env)
            == Some(Bool(LogicalEq(ops, ReferenceUse, va, vb)))
  {
    NullTest(ops, ReferenceUse, a, va, env);
    NullTest(ops, ReferenceUse, b, vb, env);
    if !va.Null? { ValueEquals(ops, a, b, env, va, vb); }
  }

  /** The emitted statements never get stuck, set `out` to logical equality, and leave every
      other local exactly as it was, whatever the outer levels are. */
  lemma {:induction false} EqualsCorrect(ops: Leaf, t: TypeUse, a: Expr, b: Expr, out: Name, level: nat,
                                         env: Env, va: Value, vb: Value)
    requires Holds(ops, t, a, va, env) && Holds(ops, t, b, vb, env)
    requires InScope(env, level) && Below(out, level) && out !in env
    ensures Exec(ops, EqualsStatement(t, a, b, out, level), env) == Next(env[out := Bool(LogicalEq(ops, t, va, vb))])
    decreases t, 1, 0
  {
    match t
    case ValueUse => ValueEquals(ops, a, b, env, va, vb);
    case ReferenceUse => ReferenceEquals(ops, a, b, env, va, vb);
    case _ => EqualsSequences(ops, t, a, b, out, level, env, va, vb);
  }

  lemma {:induction false} EqualsSequences(ops: Leaf, t: TypeUse, a: Expr, b: Expr, out: Name, level: nat,
                                           env: Env, va: Value, vb: Value)
    requires t.ArrayUse? || t.ListUse?
    requires Holds(ops, t, a, va, env) && Holds(ops, t, b, vb, env)
    requires InScope(env, level) && Below(out, level) && out !in env
    ensures Exec(ops, EqualsStatement(t, a, b, out, level), env) == Next(env[out := Bool(LogicalEq(ops, t, va, vb))])
    decreases t, 0, 2
  {
    var env1 := env[out := Bool(true)];
    HoldsExtends(ops, t, a, va, env, env1);
    HoldsExtends(ops, t, b, vb, env, env1);
    Tests(ops, t, a, b, va, vb, env1);
    var loop := For(Iter(level), SizeOf(t, a), EqualsBody(t, a, b, out, level));
    if !va.Null? && !vb.Null? && |va.elems| == |vb.elems| {
      EqualsFor(ops, t, a, b, out, level, env1, va, vb);
      EqSeqAll(ops, t, va, vb);
    }
    EqualsShell(ops, t, a, b, out, env, va, vb, loop);
  }

  /** The declaration and the tests around any loop that stores the verdict on non-null
      sequences of one length. */
  lemma EqualsShell(ops: Leaf, t: TypeUse, a: Expr, b: Expr, out: Name, env: Env, va: Value, vb: Value, loop: Stmt)
    requires (t.ArrayUse? || t.ListUse?) && HasType(t, va) && HasType(t, vb) && out !in env
    requires var env1 := env[out := Bool(true)];
             && Eval(ops, Or(Eq(a, NullLit), Eq(b, NullLit)), env1) == Some(Bool(va.Null? || vb.Null?))
             && (va.Null? || vb.Null? ==> Eval(ops, Eq(a, b), env1) == Some(Bool(va.Null? && vb.Null?)))
             && (!va.Null? && !vb.Null? ==>
                   && Eval(ops, Ne(SizeOf(t, a), SizeOf(t, b)), env1) == Some(Bool(|va.elems| != |vb.elems|))
                   && (|va.elems| == |vb.elems| ==>
                         Exec(ops, loop, env1) == Next(env1[out := Bool(LogicalEq(ops, t, va, vb))])))
    ensures Exec(ops, Then(Declare(out, BoolLit(true)),
                           If(Or(Eq(a, NullLit), Eq(b, NullLit)),
                              Assign(out, Eq(a, b)),
                              If(Ne(SizeOf(t, a), SizeOf(t, b)), Assign(out, BoolLit(false)), loop))), env)
            == Next(env[out := Bool(LogicalEq(ops, t, va, vb))])
  {
    var env1, done := env[out := Bool(true)], env[out := Bool(LogicalEq(ops, t, va, vb))];
    var sizes := If(Ne(SizeOf(t, a), SizeOf(t, b)), Assign(out, BoolLit(false)), loop);
    var nulls := If(Or(Eq(a, NullLit), Eq(b, NullLit)), Assign(out, Eq(a, b)), sizes);
    assert env1[out := done[out]] == done;
    LeaveSame(env1, done);
    if !va.Null? && !vb.Null? {
      ExecIf(ops, Ne(SizeOf(t, a), SizeOf(t, b)), Assign(out, BoolLit(false)), loop, env1,
             |va.elems| != |vb.elems|, done);
    }
    ExecIf(ops, Or(Eq(a, NullLit), Eq(b, NullLit)), Assign(out, Eq(a, b)), sizes, env1, va.Null? || vb.Null?, done);
    ExecThen(ops, Declare(out, BoolLit(true)), nulls, env, env1);
  }

  /** The loop stores whether all elements are equal. */
  lemma {:induction false} EqualsFor(ops: Leaf, t: TypeUse, a: Expr, b: Expr, out: Name, level: nat,
                                     env: Env, va: Value, vb: Value)
    requires t.ArrayUse? || t.ListUse?
    requires Holds(ops, t, a, va, env) && Holds(ops, t, b, vb, env) && !va.Null? && !vb.Null?
    requires InScope(env, level) && Below(out, level) && out in env && env[out] == Bool(true)
    requires |va.elems| == |vb.elems|
    ensures Exec(ops, For(Iter(level), SizeOf(t, a), EqualsBody(t, a, b, out, level)), env)
            == Next(env[out := Bool(false !in EqSeq(ops, t, va, vb))])
    decreases t, 0, 1
  {
    var s := For(Iter(level), SizeOf(t, a), EqualsBody(t, a, b, out, level));
    var eqs := EqSeq(ops, t, va, vb);
    forall m: int ensures Eval(ops, s.bound, env[s.i := Int(m)]) == Some(Int(|eqs|)) {
      HoldsExtends(ops, t, a, va, env, env[Iter(level) := Int(m)]);
      SizeTest(ops, t, a, va, env[Iter(level) := Int(m)]);
    }
    forall m: nat | m < |eqs| ensures Searches(ops, s, env, out, eqs, m) {
      var cur := env[Iter(level) := Int(m)];
      HoldsExtends(ops, t, a, va, env, cur);
      HoldsExtends(ops, t, b, vb, env, cur);
      EqualsStep(ops, t, a, b, out, level, cur, va, vb, m);
    }
    SearchFor(ops, s, env, out, eqs);
  }

  /** One iteration: goes on untouched if the elements are equal, else clears `out` and breaks. */
  lemma {:induction false} EqualsStep(ops: Leaf, t: TypeUse, a: Expr, b: Expr, out: Name, level: nat,
                                      env: Env, va: Value, vb: Value, k: nat)
    requires t.ArrayUse? || t.ListUse?
    requires Holds(ops, t, a, va, env) && Holds(ops, t, b, vb, env) && !va.Null? && !vb.Null?
    requires InBody(env, level, k) && Below(out, level) && out in env && env[out] == Bool(true)
    requires k < |va.elems| == |vb.elems|
    ensures LeaveBlock(env, Exec(ops, EqualsBody(t, a, b, out, level), env))
            == if LogicalEq(ops, t.elem, va.elems[k], vb.elems[k]) then Next(env) else Broke(env[out := Bool(false)])
    decreases t, 0, 0, 0, 1
  {
    ElementHolds(ops, t, a, va, env, level, k);
    ElementHolds(ops, t, b, vb, env, level, k);
    BodyScope(env, level, k);
    if t.ArrayUse? {
      EqualsArrayStep(ops, t, a, b, out, level, env, va.elems[k], vb.elems[k]);
    } else {
      EqualsListStep(ops, t, a, b, out, level, env, va.elems[k], vb.elems[k]);
    }
  }

  lemma BodyScope(env: Env, level: nat, k: nat)
    requires InBody(env, level, k)
    ensures InScope(env, level + 1) && Out(level + 1) !in env && TmpA(level) !in env && TmpB(level) !in env
  {}

  lemma {:induction false} EqualsArrayStep(ops: Leaf, t: TypeUse, a: Expr, b: Expr, out: Name, level: nat, env: Env,
                                           va': Value, vb': Value)
    requires t.ArrayUse? && InScope(env, level + 1) && Out(level + 1) !in env
    requires Holds(ops, t.elem, Index(a, Var(Iter(level))), va', env)
    requires Holds(ops, t.elem, Index(b, Var(Iter(level))), vb', env)
    requires out in env && env[out] == Bool(true)
    ensures LeaveBlock(env, Exec(ops, EqualsBody(t, a, b, out, level), env))
            == if LogicalEq(ops, t.elem, va', vb') then Next(env) else Broke(env[out := Bool(false)])
    decreases t, 0, 0, 0, 0
  {
    var a', b' := Index(a, Var(Iter(level))), Index(b, Var(Iter(level)));
    EqualsCorrect(ops, t.elem, a', b', Out(level + 1), level + 1, env, va', vb');
    ArrayStep(ops, t, a, b, out, level, env, LogicalEq(ops, t.elem, va', vb'));
  }

  lemma {:induction false} EqualsListStep(ops: Leaf, t: TypeUse, a: Expr, b: Expr, out: Name, level: nat, env: Env,
                                          va': Value, vb': Value)
    requires t.ListUse? && InScope(env, level + 1)
    requires Out(level + 1) !in env && TmpA(level) !in env && TmpB(level) !in env
    requires Holds(ops, t.elem, Index(a, Var(Iter(level))), va', env)
    requires Holds(ops, t.elem, Index(b, Var(Iter(level))), vb', env)
    requires out in env && env[out] == Bool(true)
    ensures LeaveBlock(env, Exec(ops, EqualsBody(t, a, b, out, level), env))
            == if LogicalEq(ops, t.elem, va', vb') then Next(env) else Broke(env[out := Bool(false)])
    decreases t, 0, 0, 0, 0
  {
    var env1 := env[TmpA(level) := Val(va')];
    var mid := env1[TmpB(level) := Val(vb')];
    HoldsExtends(ops, t.elem, Index(b, Var(Iter(level))), vb', env, env1);
    EqualsCorrect(ops, t.elem, Var(TmpA(level)), Var(TmpB(level)), Out(level + 1), level + 1, mid, va', vb');
    ListStep(ops, t, a, b, out, level, env, va', vb', LogicalEq(ops, t.elem, va', vb'));
  }

  ghost predicate InBody(env: Env, level: nat, k: nat) {
    && (forall x :: x in env ==> x == Iter(level) || Below(x, level))
    && Iter(level) in env && env[Iter(level)] == Int(k)
  }

  lemma ElementHolds(ops: Leaf, t: TypeUse, a: Expr, va: Value, env: Env, level: nat, k: nat)
    requires (t.ArrayUse? || t.ListUse?) && Holds(ops, t, a, va, env) && !va.Null?
    requires Iter(level) in env && env[Iter(level)] == Int(k) && k < |va.elems|
    ensures Holds(ops, t.elem, Index(a, Var(Iter(level))), va.elems[k], env)
  {
    assert Eval(ops, Var(Iter(level)), env) == Some(Int(k));
  }

  lemma ArrayStep(ops: Leaf, t: TypeUse, a: Expr, b: Expr, out: Name, level: nat, env: Env, eq: bool)
    requires t.ArrayUse? && out in env && env[out] == Bool(true) && Out(level + 1) !in env
    requires var i := Var(Iter(level));
             Exec(ops, EqualsStatement(t.elem, Index(a, i), Index(b, i), Out(level + 1), level + 1), env)
             == Next(env[Out(level + 1) := Bool(eq)])
    ensures LeaveBlock(env, Exec(ops, EqualsBody(t, a, b, out, level), env))
            == if eq then Next(env) else Broke(env[out := Bool(false)])
  {
    var a', b', inner := Index(a, Var(Iter(level))), Index(b, Var(Iter(level))), Out(level + 1);
    var check := If(Not(Var(inner)), Then(Assign(out, BoolLit(false)), Break), Skip);
    ExecThen(ops, EqualsStatement(t.elem, a', b', inner, level + 1), check, env, env[inner := Bool(eq)]);
    EqualsCheck(ops, out, inner, env, env, eq);
  }

  lemma ListStep(ops: Leaf, t: TypeUse, a: Expr, b: Expr, out: Name, level: nat, env: Env,
                 va: Value, vb: Value, eq: bool)
    requires t.ListUse? && out in env && env[out] == Bool(true)
    requires TmpA(level) !in env && TmpB(level) !in env && Out(level + 1) !in env
    requires Eval(ops, Index(a, Var(Iter(level))), env) == Some(Val(va))
    requires Eval(ops, Index(b, Var(Iter(level))), env[TmpA(level) := Val(va)]) == Some(Val(vb))
    requires var mid := env[TmpA(level) := Val(va)][TmpB(level) := Val(vb)];
             Exec(ops, EqualsStatement(t.elem, Var(TmpA(level)), Var(TmpB(level)), Out(level + 1), level + 1), mid)
             == Next(mid[Out(level + 1) := Bool(eq)])
    ensures LeaveBlock(env, Exec(ops, EqualsBody(t, a, b, out, level), env))
            == if eq then Next(env) else Broke(env[out := Bool(false)])
  {
    var a', b', inner := Index(a, Var(Iter(level))), Index(b, Var(Iter(level))), Out(level + 1);
    var x, y := TmpA(level), TmpB(level);
    var check := If(Not(Var(inner)), Then(Assign(out, BoolLit(false)), Break), Skip);
    var compare := EqualsStatement(t.elem, Var(x), Var(y), inner, level + 1);
    var env1 := env[x := Val(va)];
    var mid := env1[y := Val(vb)];
    ExecThen(ops, Declare(x, a'), Then(Declare(y, b'), Then(compare, check)), env, env1);
    ExecThen(ops, Declare(y, b'), Then(compare, check), env1, mid);
    ExecThen(ops, compare, check, mid, mid[inner := Bool(eq)]);
    EqualsCheck(ops, out, inner, env, mid, eq);
  }

  /** `if (!inner) { out = false; break; }` and the end of the body's block. */
  lemma EqualsCheck(ops: Leaf, out: Name, inner: Name, env: Env, mid: Env, eq: bool)
    requires out in env && env[out] == Bool(true) && inner !in mid
    requires forall x :: x in env ==> x in mid && mid[x] == env[x]
    ensures var check := If(Not(Var(inner)), Then(Assign(out, BoolLit(false)), Break), Skip);
            LeaveBlock(env, Exec(ops, check, mid[inner := Bool(eq)]))
            == if eq then Next(env) else Broke(env[out := Bool(false)])
  {
    var after := mid[inner := Bool(eq)];
    assert Leave(after, after) == after;
    assert Leave(after, after[out := Bool(false)]) == after[out := Bool(false)];
    assert Leave(env, after) == env;
    assert Leave(env, after[out := Bool(false)]) == env[out := Bool(false)];
    assert Eval(ops, Not(Var(inner)), after) == Some(Bool(!eq));
    ExecThen(ops, Assign(out, BoolLit(false)), Break, after, after[out := Bool(false)]);
  }
}
