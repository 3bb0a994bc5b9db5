/** What the generated `GetHashCode` computes, said without its own recursion: every member counts, and
    the order of the members does not. */
module CsHashLaws {
  import opened Options
  import opened CsLanguage
  import opened CsEquality
  import opened CsHash
  import opened CsProduct
  import opened Seqs

  /** Leaf types whose `Equals` is identity. */
  ghost predicate Plain(ops: Leaf) {
    (forall i, j :: ops.eq(Obj(i), Obj(j)) <==> i == j) && forall i :: !ops.eq(Obj(i), Null)
  }

  /** Over such leaf types logical equality is equality of the values, at every nesting. */
  lemma {:induction false} LogicalEqIsEquality(ops: Leaf, t: TypeUse, a: Value, b: Value)
    requires Plain(ops) && HasType(t, a) && HasType(t, b)
    ensures LogicalEq(ops, t, a, b) <==> a == b
    decreases t
  {
    if (t.ArrayUse? || t.ListUse?) && !a.Null? && !b.Null? && |a.elems| == |b.elems| {
      forall k | 0 <= k < |a.elems|
        ensures LogicalEq(ops, t.elem, a.elems[k], b.elems[k]) <==> a.elems[k] == b.elems[k]
      {
        LogicalEqIsEquality(ops, t.elem, a.elems[k], b.elems[k]);
      }
      assert a == b <==> a.elems == b.elems;
    }
  }

  /** Leaf hashes and mixing without collisions. */
  ghost predicate CollisionFree(ops: Leaf) {
    && (forall i, j :: ops.hash(Obj(i)) == ops.hash(Obj(j)) ==> ops.eq(Obj(i), Obj(j)))
    && (forall i :: ops.hash(Obj(i)) != 0)
    && (forall s, s' :: ops.mix(s) == ops.mix(s') ==> s == s')
    && (forall s :: ops.mix(s) != 0)
  }

  /** Then the hash of a member tells all logically different values apart: it depends on every
      element, on their order and number, and on null. */
  lemma {:induction false} LogicalHashTells(ops: Leaf, t: TypeUse, a: Value, b: Value)
    requires CollisionFree(ops) && HasType(t, a) && HasType(t, b)
    requires LogicalHash(ops, t, a) == LogicalHash(ops, t, b)
    ensures LogicalEq(ops, t, a, b)
    decreases t
  {
    if (t.ArrayUse? || t.ListUse?) && !a.Null? && !b.Null? {
      var hs, hs' := Hashes(ops, t, a), Hashes(ops, t, b);
      assert hs == hs';
      forall k | 0 <= k < |a.elems| ensures LogicalEq(ops, t.elem, a.elems[k], b.elems[k]) {
        assert hs[k] == hs'[k];
        LogicalHashTells(ops, t.elem, a.elems[k], b.elems[k]);
      }
    }
  }

  /** The hash of no members is 0, of one member its own, and one more member is combined by `^`. */
  lemma HashMethodAppends(ops: Leaf, ms: seq<Member>, m: Member, x: Instance)
    requires Distinct(ms + [m]) && IsInstance(ms, x) && m.name in x && HasType(m.use, x[m.name])
    ensures RunHash(ops, [], x) == Some(Code(0))
    ensures RunHash(ops, ms, x).Some? && RunHash(ops, ms, x).value.Code?
    ensures var h := LogicalHash(ops, m.use, x[m.name]);
      RunHash(ops, ms + [m], x) == Some(Code(if ms == [] then h else ops.xor(RunHash(ops, ms, x).value.h, h)))
  {
    var all := ms + [m];
    assert IsInstance(all, x);
    assert Distinct(ms) by {
      assert forall i, j :: 0 <= i < j < |ms| ==> all[i] == ms[i] && all[j] == ms[j];
    }
    HashMethodCorrect(ops, [], x);
    HashMethodCorrect(ops, ms, x);
    HashMethodCorrect(ops, all, x);
    JoinedHashOfFirst(ops, ms, m, x, |ms|);
  }

  lemma {:induction false} JoinedHashOfFirst(ops: Leaf, ms: seq<Member>, m: Member, x: Instance, k: nat)
    requires IsInstance(ms, x) && IsInstance(ms + [m], x) && k <= |ms|
    ensures JoinedHash(ops, ms + [m], x, k) == JoinedHash(ops, ms, x, k)
  {
    if k > 0 {
      JoinedHashOfFirst(ops, ms, m, x, k - 1);
      assert (ms + [m])[k - 1] == ms[k - 1] && (ms + [m])[0] == ms[0];
    }
  }

  ghost predicate Cancels(xor: (int, int) -> int) {
    && (forall a, b, c :: xor(a, c) == xor(b, c) ==> a == b)
    && (forall a, b, c :: xor(c, a) == xor(c, b) ==> a == b)
  }

  lemma {:induction false} JoinedHashTells(ops: Leaf, ms: seq<Member>, x: Instance, y: Instance, i: nat, k: nat)
    requires IsInstance(ms, x) && IsInstance(ms, y) && k <= |ms| && Cancels(ops.xor)
    requires forall j :: 0 <= j < |ms| ==> (MemberHash(ops, ms[j], x) == MemberHash(ops, ms[j], y) <==> j != i)
    ensures JoinedHash(ops, ms, x, k) == JoinedHash(ops, ms, y, k) <==> k <= i
  {
    if k > 0 { JoinedHashTells(ops, ms, x, y, i, k - 1); }
  }

  /** Every member counts: if `^` can be undone, two instances whose hashes differ at one member, and
      there only, hash differently. */
  lemma HashMethodSensitive(ops: Leaf, ms: seq<Member>, x: Instance, y: Instance, i: nat)
    requires Cancels(ops.xor) && Distinct(ms) && IsInstance(ms, x) && IsInstance(ms, y) && i < |ms|
    requires forall j :: 0 <= j < |ms| ==>
               (LogicalHash(ops, ms[j].use, x[ms[j].name]) == LogicalHash(ops, ms[j].use, y[ms[j].name]) <==> j != i)
    ensures RunHash(ops, ms, x).Some? && RunHash(ops, ms, y).Some? && RunHash(ops, ms, x) != RunHash(ops, ms, y)
  {
    HashMethodCorrect(ops, ms, x);
    HashMethodCorrect(ops, ms, y);
    JoinedHashTells(ops, ms, x, y, i, |ms|);
  }

  /** So do two instances that are logically equal but for one member, where nothing collides. */
  lemma HashMethodTells(ops: Leaf, ms: seq<Member>, x: Instance, y: Instance, i: nat)
    requires Lawful(ops) && CollisionFree(ops) && Cancels(ops.xor)
    requires Distinct(ms) && IsInstance(ms, x) && IsInstance(ms, y) && i < |ms|
    requires forall j :: 0 <= j < |ms| ==> (LogicalEq(ops, ms[j].use, x[ms[j].name], y[ms[j].name]) <==> j != i)
    ensures RunHash(ops, ms, x).Some? && RunHash(ops, ms, y).Some? && RunHash(ops, ms, x) != RunHash(ops, ms, y)
  {
    forall j | 0 <= j < |ms|
      ensures LogicalHash(ops, ms[j].use, x[ms[j].name]) == LogicalHash(ops, ms[j].use, y[ms[j].name]) <==> j != i
    {
      var a, b := x[ms[j].name], y[ms[j].name];
      if j != i {
        LogicalEqHash(ops, ms[j].use, a, b);
      } else if LogicalHash(ops, ms[j].use, a) == LogicalHash(ops, ms[j].use, b) {
        LogicalHashTells(ops, ms[j].use, a, b);
      }
    }
    HashMethodSensitive(ops, ms, x, y, i);
  }

  predicate Commutes(xor: (int, int) -> int, a: int, b: int) {
    xor(a, b) == xor(b, a)
  }

  predicate Associates(xor: (int, int) -> int, a: int, b: int, c: int) {
    xor(xor(a, b), c) == xor(a, xor(b, c))
  }

  ghost predicate AnyOrder(xor: (int, int) -> int) {
    (forall a, b :: Commutes(xor, a, b)) && forall a, b, c :: Associates(xor, a, b, c)
  }

  function XorAll(xor: (int, int) -> int, hs: seq<int>): int {
    if |hs| == 0 then 0
    else if |hs| == 1 then hs[0]
    else xor(XorAll(xor, hs[..|hs| - 1]), hs[|hs| - 1])
  }

  lemma LastTwo(xor: (int, int) -> int, a: int, b: int, c: int)
    requires AnyOrder(xor)
    ensures xor(xor(a, b), c) == xor(xor(a, c), b)
  {
    assert Associates(xor, a, b, c) && Associates(xor, a, c, b) && Commutes(xor, b, c);
  }

  /** Any one of the hashes may come last. */
  lemma {:induction false} AnyLast(xor: (int, int) -> int, hs: seq<int>, i: nat)
    requires AnyOrder(xor) && i < |hs| && |hs| >= 2
    ensures XorAll(xor, hs) == xor(XorAll(xor, Without(hs, i)), hs[i])
    decreases |hs|
  {
    var n := |hs| - 1;
    var front, rest := hs[..n], Without(hs, i);
    if i == n {
      assert rest == front;
    } else if n == 1 {
      assert rest == [hs[1]] && front == [hs[0]] && Commutes(xor, hs[0], hs[1]);
    } else {
      AnyLast(xor, front, i);
      WithoutFront(hs, i);
      LastTwo(xor, XorAll(xor, Without(front, i)), hs[i], hs[n]);
    }
  }

  lemma {:induction false} XorAnyOrder(xor: (int, int) -> int, hs: seq<int>, hs': seq<int>)
    requires AnyOrder(xor) && multiset(hs) == multiset(hs')
    ensures XorAll(xor, hs) == XorAll(xor, hs')
    decreases |hs|
  {
    if hs == [] {
      assert |multiset(hs')| == |hs'| == 0;
    } else {
      var i := LastIn(hs, hs');
      XorAnyOrder(xor, hs[..|hs| - 1], Without(hs', i));
      if |hs| > 1 { AnyLast(xor, hs', i); }
    }
  }

  function MemberHashes(ops: Leaf, ms: seq<Member>, x: Instance): (hs: seq<int>)
    requires IsInstance(ms, x)
    ensures |hs| == |ms| && forall i :: 0 <= i < |ms| ==> hs[i] == MemberHash(ops, ms[i], x)
  {
    seq(|ms|, i requires 0 <= i < |ms| => MemberHash(ops, ms[i], x))
  }

  lemma {:induction false} JoinedHashIs(ops: Leaf, ms: seq<Member>, x: Instance, k: nat)
    requires IsInstance(ms, x) && k <= |ms|
    ensures JoinedHash(ops, ms, x, k) == XorAll(ops.xor, MemberHashes(ops, ms, x)[..k])
  {
    if k > 0 {
      JoinedHashIs(ops, ms, x, k - 1);
      assert MemberHashes(ops, ms, x)[..k][..k - 1] == MemberHashes(ops, ms, x)[..k - 1];
    }
  }

  lemma MemberHashesWithout(ops: Leaf, ms: seq<Member>, x: Instance, i: nat)
    requires IsInstance(ms, x) && i < |ms|
    ensures IsInstance(Without(ms, i), x)
    ensures MemberHashes(ops, Without(ms, i), x) == Without(MemberHashes(ops, ms, x), i)
  {}

  lemma {:induction false} SameMemberHashes(ops: Leaf, ms: seq<Member>, ms': seq<Member>, x: Instance)
    requires IsInstance(ms, x) && IsInstance(ms', x) && multiset(ms) == multiset(ms')
    ensures multiset(MemberHashes(ops, ms, x)) == multiset(MemberHashes(ops, ms', x))
    decreases |ms|
  {
    if ms == [] {
      assert |multiset(ms')| == |ms'| == 0;
    } else {
      var n := |ms| - 1;
      var i := LastIn(ms, ms');
      assert Without(ms, n) == ms[..n];
      MemberHashesWithout(ops, ms, x, n);
      MemberHashesWithout(ops, ms', x, i);
      SameMemberHashes(ops, ms[..n], Without(ms', i), x);
      WithoutCounts(MemberHashes(ops, ms, x), n);
      WithoutCounts(MemberHashes(ops, ms', x), i);
    }
  }

  lemma SameMembers(ms: seq<Member>, ms': seq<Member>, x: Instance)
    requires Distinct(ms) && IsInstance(ms, x) && multiset(ms) == multiset(ms')
    ensures Distinct(ms') && IsInstance(ms', x)
  {
    forall i | 0 <= i < |ms'| ensures ms'[i] in ms { assert ms'[i] in multiset(ms'); }
    forall i, j | 0 <= i < j < |ms'| ensures ms'[i].name != ms'[j].name {
      if ms'[i] == ms'[j] {
        TwiceIn(ms', i, j);
        OnceIn(ms, ms'[i]);
      }
    }
  }

  /** The order of the members does not show, as long as `^` is commutative and associative. */
  lemma HashMethodAnyOrder(ops: Leaf, ms: seq<Member>, ms': seq<Member>, x: Instance)
    requires AnyOrder(ops.xor) && Distinct(ms) && IsInstance(ms, x) && multiset(ms) == multiset(ms')
    ensures RunHash(ops, ms, x).Some? && RunHash(ops, ms, x) == RunHash(ops, ms', x)
  {
    SameMembers(ms, ms', x);
    HashMethodCorrect(ops, ms, x);
    HashMethodCorrect(ops, ms', x);
    var hs, hs' := MemberHashes(ops, ms, x), MemberHashes(ops, ms', x);
    JoinedHashIs(ops, ms, x, |ms|);
    JoinedHashIs(ops, ms', x, |ms'|);
    assert hs[..|ms|] == hs && hs'[..|ms'|] == hs';
    SameMemberHashes(ops, ms, ms', x);
    XorAnyOrder(ops.xor, hs, hs');
  }
}
