/** Sequences without repetitions, and sequences one after the other. */
module Seqs {

  ghost predicate NoDup<T>(s: seq<T>) {
    forall i, j :: 0 <= i < j < |s| ==> s[i] != s[j]
  }

  lemma {:induction false} OnceIn<T>(s: seq<T>, x: T)
    requires NoDup(s)
    ensures multiset(s)[x] == if x in s then 1 else 0
  {
    if s != [] {
      OnceIn(s[1..], x);
      assert s == [s[0]] + s[1..];
      assert s[0] !in s[1..];
    }
  }

  lemma TwiceIn<T>(s: seq<T>, i: nat, j: nat)
    requires i < j < |s| && s[i] == s[j]
    ensures multiset(s)[s[i]] >= 2
  {
    assert s == s[..j] + [s[j]] + s[j + 1..];
    assert s[..j][i] in multiset(s[..j]);
  }

  lemma SameElements<T>(a: seq<T>, b: seq<T>)
    requires NoDup(a) && NoDup(b) && forall x :: x in a <==> x in b
    ensures multiset(a) == multiset(b)
  {
    forall x ensures multiset(a)[x] == multiset(b)[x] {
      OnceIn(a, x);
      OnceIn(b, x);
    }
  }

  function Without<T>(s: seq<T>, k: nat): (r: seq<T>)
    requires k < |s|
    ensures |r| == |s| - 1 && forall i :: 0 <= i < |r| ==> r[i] == s[if i < k then i else i + 1]
  {
    s[..k] + s[k + 1..]
  }

  lemma WithoutFront<T>(s: seq<T>, k: nat)
    requires k < |s| - 1
    ensures var n, r := |s| - 1, Without(s, k); r[..n - 1] == Without(s[..n], k) && r[n - 1] == s[n]
  {}

  lemma WithoutCounts<T>(s: seq<T>, k: nat)
    requires k < |s|
    ensures multiset(s) == multiset(Without(s, k)) + multiset{s[k]}
  {
    assert s == s[..k] + [s[k]] + s[k + 1..];
  }

  /** Where the last element of one sequence is in another order of it. */
  lemma LastIn<T>(a: seq<T>, b: seq<T>) returns (i: nat)
    requires multiset(a) == multiset(b) && a != []
    ensures i < |b| == |a| && b[i] == a[|a| - 1] && multiset(a[..|a| - 1]) == multiset(Without(b, i))
  {
    var n := |a| - 1;
    assert |a| == |multiset(a)| == |multiset(b)| == |b|;
    assert a[n] in multiset(b);
    i :| 0 <= i < |b| && b[i] == a[n];
    WithoutCounts(b, i);
    WithoutCounts(a, n);
    assert Without(a, n) == a[..n];
    SameRest(multiset(a[..n]), multiset(Without(b, i)), a[n]);
  }

  lemma SameRest<T>(a: multiset<T>, b: multiset<T>, x: T)
    requires a + multiset{x} == b + multiset{x}
    ensures a == b
  {
    assert a == a + multiset{x} - multiset{x};
  }

  lemma Regroup<T>(a: seq<T>, b: seq<T>, c: seq<T>)
    ensures (a + b) + c == a + (b + c)
  {}

  /** The sequences one after the other. */
  function Flat<T>(items: seq<seq<T>>): seq<T> {
    if items == [] then [] else items[0] + Flat(items[1..])
  }

  lemma {:induction false} FlatSplit<T>(items: seq<seq<T>>, k: nat)
    requires k <= |items|
    ensures Flat(items) == Flat(items[..k]) + Flat(items[k..])
  {
    if k > 0 {
      FlatSplit(items[1..], k - 1);
      assert items[..k][1..] == items[1..][..k - 1] && items[1..][k - 1..] == items[k..];
    } else {
      assert items[0..] == items;
    }
  }

  lemma FlatPush<T>(items: seq<seq<T>>, last: seq<T>)
    ensures Flat(items + [last]) == Flat(items) + last
  {
    FlatSplit(items + [last], |items|);
    assert (items + [last])[..|items|] == items && (items + [last])[|items|..] == [last];
    assert Flat([last]) == last + Flat([]) == last;
  }

  lemma FlatNext<T>(items: seq<seq<T>>, k: nat)
    requires k < |items|
    ensures Flat(items[..k + 1]) == Flat(items[..k]) + items[k]
  {
    assert items[..k + 1] == items[..k] + [items[k]];
    FlatPush(items[..k], items[k]);
  }

  lemma {:induction false} FlatIn<T>(items: seq<seq<T>>, x: T)
    ensures x in Flat(items) <==> exists i :: 0 <= i < |items| && x in items[i]
  {
    if items != [] {
      FlatIn(items[1..], x);
      assert forall i :: 0 < i < |items| ==> items[i] == items[1..][i - 1];
      if x in Flat(items[1..]) {
        var i :| 0 <= i < |items[1..]| && x in items[1..][i];
        assert x in items[i + 1];
      }
    }
  }
}
