/** `tools/find-publish-list.py --recursive`: collect dependencies depth first, reverse the list, and
    keep the first mention of each crate. Dependencies are written by the directory they map to. */
module PublishOrder {
  import opened Seqs

  const PREFIX := "spacetimedb-"

  /** The `[dependencies]` keys of every crate directory that has a Cargo.toml. */
  type Manifests = map<string, seq<string>>

  /** `crate` depends on the crate in directory `d`. */
  predicate DependsOn(m: Manifests, crate: string, d: string) {
    crate in m && PREFIX + d in m[crate]
  }

  /** `find_spacetimedb_dependencies` and `dep_to_crate_dir`. */
  function OwnDeps(deps: seq<string>): (dirs: seq<string>)
    ensures forall d :: d in dirs <==> PREFIX + d in deps
  {
    if deps == [] then [] else
    var rest := OwnDeps(deps[1..]);
    assert forall d :: PREFIX + d in deps <==> PREFIX + d == deps[0] || PREFIX + d in deps[1..];
    if PREFIX <= deps[0] then
      assert forall d :: PREFIX + d == deps[0] <==> d == deps[0][|PREFIX|..] by {
        forall d ensures PREFIX + d == deps[0] <==> d == deps[0][|PREFIX|..] {
          assert (PREFIX + d)[|PREFIX|..] == d;
          assert deps[0] == PREFIX + deps[0][|PREFIX|..];
        }
      }
      [deps[0][|PREFIX|..]] + rest
    else
      assert forall d :: PREFIX + d != deps[0];
      rest
  }

  /** They stay in the order of the manifest. */
  lemma {:induction false} OwnDepsInOrder(a: seq<string>, b: seq<string>)
    ensures OwnDeps(a + b) == OwnDeps(a) + OwnDeps(b)
  {
    if a == [] {
      assert a + b == b;
    } else {
      assert (a + b)[0] == a[0] && (a + b)[1..] == a[1..] + b;
      OwnDepsInOrder(a[1..], b);
    }
  }

  function Children(m: Manifests, crate: string): (dirs: seq<string>)
    ensures forall d :: d in dirs <==> DependsOn(m, crate, d)
  {
    if crate in m then OwnDeps(m[crate]) else []
  }

  ghost predicate IsPath(m: Manifests, p: seq<string>) {
    p != [] && forall i :: 0 < i < |p| ==> DependsOn(m, p[i - 1], p[i])
  }

  ghost predicate Reaches(m: Manifests, c: string, d: string) {
    exists p :: IsPath(m, p) && p[0] == c && p[|p| - 1] == d
  }

  /** No crate that `c` reaches depends on itself, directly or not. */
  ghost predicate Acyclic(m: Manifests, c: string) {
    forall a, b :: Reaches(m, c, a) && DependsOn(m, a, b) ==> !Reaches(m, b, a)
  }

  ghost predicate AllAcyclic(m: Manifests, crates: seq<string>) {
    forall i :: 0 <= i < |crates| ==> Acyclic(m, crates[i])
  }

  ghost function Reachable(m: Manifests, c: string): set<string> {
    set x | x in m && Reaches(m, c, x)
  }

  lemma ReachesSelf(m: Manifests, c: string)
    ensures Reaches(m, c, c)
  {
    assert IsPath(m, [c]);
  }

  lemma ReachesStep(m: Manifests, c: string, d: string, x: string)
    requires DependsOn(m, c, d) && Reaches(m, d, x)
    ensures Reaches(m, c, x)
  {
    var p :| IsPath(m, p) && p[0] == d && p[|p| - 1] == x;
    var q := [c] + p;
    assert forall i :: 0 < i < |q| ==> q[i] == p[i - 1];
    assert IsPath(m, q) && q[|q| - 1] == x;
  }

  lemma ReachesUnfold(m: Manifests, c: string, x: string)
    requires Reaches(m, c, x)
    ensures c == x || exists d :: DependsOn(m, c, d) && Reaches(m, d, x)
  {
    var p :| IsPath(m, p) && p[0] == c && p[|p| - 1] == x;
    if |p| > 1 {
      var q := p[1..];
      assert forall i :: 0 <= i < |q| ==> q[i] == p[i + 1];
      assert IsPath(m, q) && q[|q| - 1] == x;
      assert DependsOn(m, p[0], p[1]);
      assert Reaches(m, p[1], x);
    }
  }

  /** The recursion terminates: a dependency reaches strictly fewer crates. */
  lemma FewerReachable(m: Manifests, c: string, d: string)
    requires Acyclic(m, c) && DependsOn(m, c, d)
    ensures |Reachable(m, d)| < |Reachable(m, c)| && Acyclic(m, d)
  {
    ReachesSelf(m, c);
    forall a, b | Reaches(m, d, a) && DependsOn(m, a, b) ensures !Reaches(m, b, a) { ReachesStep(m, c, d, a); }
    forall x | x in Reachable(m, d) ensures x in Reachable(m, c) { ReachesStep(m, c, d, x); }
    assert c in Reachable(m, c) && c !in Reachable(m, d);
    var a, b := Reachable(m, d), Reachable(m, c) - {c};
    assert a <= b && b == a + (b - a);
  }

  /** `process_crate(crate, recursive=True)`: the direct dependencies, then the lists of each. */
  ghost function Process(m: Manifests, crate: string): seq<string>
    requires Acyclic(m, crate)
    decreases |Reachable(m, crate)|
  {
    var deps := Children(m, crate);
    deps + Flat(seq(|deps|, i requires 0 <= i < |deps| => FewerReachable(m, crate, deps[i]); Process(m, deps[i])))
  }

  ghost function Lists(m: Manifests, crates: seq<string>): (lists: seq<seq<string>>)
    requires AllAcyclic(m, crates)
    ensures |lists| == |crates| && forall i :: 0 <= i < |crates| ==> lists[i] == Process(m, crates[i])
  {
    seq(|crates|, i requires 0 <= i < |crates| => Process(m, crates[i]))
  }

  /** Crates, and then the lists of each: what both `process_crate` and the main block build. */
  ghost function WithLists(m: Manifests, crates: seq<string>): seq<string>
    requires AllAcyclic(m, crates)
  {
    crates + Flat(Lists(m, crates))
  }

  lemma ChildrenAcyclic(m: Manifests, crate: string)
    requires Acyclic(m, crate)
    ensures AllAcyclic(m, Children(m, crate))
    ensures forall i :: 0 <= i < |Children(m, crate)| ==> |Reachable(m, Children(m, crate)[i])| < |Reachable(m, crate)|
  {
    var deps := Children(m, crate);
    forall i | 0 <= i < |deps| ensures Acyclic(m, deps[i]) && |Reachable(m, deps[i])| < |Reachable(m, crate)| {
      FewerReachable(m, crate, deps[i]);
    }
  }

  lemma ProcessIs(m: Manifests, crate: string)
    requires Acyclic(m, crate)
    ensures AllAcyclic(m, Children(m, crate)) && Process(m, crate) == WithLists(m, Children(m, crate))
  {
    ChildrenAcyclic(m, crate);
    var deps := Children(m, crate);
    assert Lists(m, deps)
        == seq(|deps|, i requires 0 <= i < |deps| => FewerReachable(m, crate, deps[i]); Process(m, deps[i]));
  }

  method ProcessCrate(m: Manifests, crate: string) returns (all: seq<string>)
    requires Acyclic(m, crate)
    ensures all == Process(m, crate)
    decreases |Reachable(m, crate)|
  {
    var deps := Children(m, crate);
    ChildrenAcyclic(m, crate);
    ghost var lists := Lists(m, deps);
    all := deps;
    for k := 0 to |deps|
      invariant all == deps + Flat(lists[..k])
    {
      var sub := ProcessCrate(m, deps[k]);
      FlatNext(lists, k);
      Regroup(deps, Flat(lists[..k]), sub);
      all := all + sub;
    }
    assert lists[..|deps|] == lists;
    ProcessIs(m, crate);
  }

  ghost predicate SomeReaches(m: Manifests, crates: seq<string>, x: string) {
    exists i :: 0 <= i < |crates| && Reaches(m, crates[i], x)
  }

  /** The list holds exactly the crates and what they depend on, directly or not. */
  lemma {:induction false} ListsHold(m: Manifests, crates: seq<string>, x: string, bound: nat)
    requires AllAcyclic(m, crates) && forall i :: 0 <= i < |crates| ==> |Reachable(m, crates[i])| < bound
    ensures x in WithLists(m, crates) <==> SomeReaches(m, crates, x)
    decreases bound
  {
    var lists := Lists(m, crates);
    FlatIn(lists, x);
    forall i | 0 <= i < |crates| ensures x in lists[i] <==> crates[i] != x && Reaches(m, crates[i], x) {
      ChildrenHold(m, crates[i], x, bound);
    }
    if x in crates {
      var i :| 0 <= i < |crates| && crates[i] == x;
      ReachesSelf(m, x);
      assert Reaches(m, crates[i], x);
    }
  }

  lemma {:induction false} ChildrenHold(m: Manifests, crate: string, x: string, bound: nat)
    requires Acyclic(m, crate) && |Reachable(m, crate)| < bound
    ensures x in Process(m, crate) <==> crate != x && Reaches(m, crate, x)
    decreases bound, 0
  {
    var deps := Children(m, crate);
    ChildrenAcyclic(m, crate);
    ListsHold(m, deps, x, |Reachable(m, crate)|);
    ProcessIs(m, crate);
    ViaChild(m, crate, x);
  }

  /** A path that leaves `crate` goes through a dependency, and never comes back. */
  lemma ViaChild(m: Manifests, crate: string, x: string)
    requires Acyclic(m, crate)
    ensures SomeReaches(m, Children(m, crate), x) <==> crate != x && Reaches(m, crate, x)
  {
    var deps := Children(m, crate);
    ReachesSelf(m, crate);
    if SomeReaches(m, deps, x) {
      var i :| 0 <= i < |deps| && Reaches(m, deps[i], x);
      assert DependsOn(m, crate, deps[i]);
      ReachesStep(m, crate, deps[i], x);
    }
    if crate != x && Reaches(m, crate, x) {
      ReachesUnfold(m, crate, x);
      var d :| DependsOn(m, crate, d) && Reaches(m, d, x);
      var i :| 0 <= i < |deps| && deps[i] == d;
    }
  }

  /** Every mention is followed by mentions of all its dependencies. */
  ghost predicate DepsFollow(m: Manifests, s: seq<string>) {
    forall i, d :: 0 <= i < |s| && DependsOn(m, s[i], d) ==> d in s[i + 1..]
  }

  /** Every mention comes after mentions of all its dependencies. */
  ghost predicate DepsFirst(m: Manifests, s: seq<string>) {
    forall i, d :: 0 <= i < |s| && DependsOn(m, s[i], d) ==> d in s[..i]
  }

  lemma FollowConcat(m: Manifests, a: seq<string>, b: seq<string>)
    requires DepsFollow(m, b)
    requires forall i, d :: 0 <= i < |a| && DependsOn(m, a[i], d) ==> d in a[i + 1..] || d in b
    ensures DepsFollow(m, a + b)
  {
    var c := a + b;
    forall i, d | 0 <= i < |c| && DependsOn(m, c[i], d) ensures d in c[i + 1..] {
      if i < |a| {
        assert c[i + 1..] == a[i + 1..] + b;
      } else {
        assert c[i + 1..] == b[i - |a| + 1..];
      }
    }
  }

  lemma {:induction false} FlatFollows(m: Manifests, lists: seq<seq<string>>)
    requires forall i :: 0 <= i < |lists| ==> DepsFollow(m, lists[i])
    ensures DepsFollow(m, Flat(lists))
  {
    if lists != [] {
      FlatFollows(m, lists[1..]);
      FollowConcat(m, lists[0], Flat(lists[1..]));
    }
  }

  lemma {:induction false} ListsFollow(m: Manifests, crates: seq<string>, bound: nat)
    requires AllAcyclic(m, crates) && forall i :: 0 <= i < |crates| ==> |Reachable(m, crates[i])| < bound
    ensures DepsFollow(m, WithLists(m, crates))
    decreases bound
  {
    var lists := Lists(m, crates);
    forall i | 0 <= i < |crates|
      ensures DepsFollow(m, lists[i]) && forall d :: DependsOn(m, crates[i], d) ==> d in lists[i]
    {
      ChildrenFollow(m, crates[i], bound);
    }
    FlatFollows(m, lists);
    forall i, d | 0 <= i < |crates| && DependsOn(m, crates[i], d) ensures d in Flat(lists) {
      FlatIn(lists, d);
      assert d in lists[i];
    }
    FollowConcat(m, crates, Flat(lists));
  }

  lemma {:induction false} ChildrenFollow(m: Manifests, crate: string, bound: nat)
    requires Acyclic(m, crate) && |Reachable(m, crate)| < bound
    ensures DepsFollow(m, Process(m, crate)) && forall d :: DependsOn(m, crate, d) ==> d in Process(m, crate)
    decreases bound, 0
  {
    var deps := Children(m, crate);
    ChildrenAcyclic(m, crate);
    ListsFollow(m, deps, |Reachable(m, crate)|);
    ProcessIs(m, crate);
  }

  /** `ordered_dedup`: the first mention of each item. */
  function Dedup(s: seq<string>): seq<string> {
    if s == [] then [] else
    var front, last := s[..|s| - 1], s[|s| - 1];
    if last in front then Dedup(front) else Dedup(front) + [last]
  }

  method OrderedDedup(items: seq<string>) returns (result: seq<string>)
    ensures result == Dedup(items)
  {
    var seen: set<string> := {};
    result := [];
    for i := 0 to |items|
      invariant result == Dedup(items[..i]) && seen == set x | x in items[..i]
    {
      assert items[..i + 1][..i] == items[..i];
      if items[i] !in seen {
        seen := seen + {items[i]};
        result := result + [items[i]];
      }
    }
    assert items[..|items|] == items;
  }

  lemma {:induction false} DedupKeeps(s: seq<string>)
    ensures NoDup(Dedup(s)) && forall x :: x in Dedup(s) <==> x in s
  {
    if s != [] {
      var front, last := s[..|s| - 1], s[|s| - 1];
      DedupKeeps(front);
      assert s == front + [last];
      assert forall i :: 0 <= i < |Dedup(front)| ==> Dedup(front)[i] in Dedup(front);
    }
  }

  /** Dropping later mentions keeps dependencies first. */
  lemma {:induction false} DedupOrders(m: Manifests, s: seq<string>)
    requires DepsFirst(m, s)
    ensures DepsFirst(m, Dedup(s))
  {
    if s != [] {
      var front, last := s[..|s| - 1], s[|s| - 1];
      forall i, d | 0 <= i < |front| && DependsOn(m, front[i], d) ensures d in front[..i] {
        assert front[i] == s[i] && front[..i] == s[..i];
      }
      DedupOrders(m, front);
      DedupKeeps(front);
      if last !in front {
        var r := Dedup(front);
        forall i, d | 0 <= i < |r + [last]| && DependsOn(m, (r + [last])[i], d) ensures d in (r + [last])[..i] {
          if i < |r| {
            assert (r + [last])[..i] == r[..i];
          } else {
            assert DependsOn(m, s[|s| - 1], d) && s[..|s| - 1] == front;
            assert (r + [last])[..i] == r;
          }
        }
      }
    }
  }

  function Reverse(s: seq<string>): (r: seq<string>)
    ensures |r| == |s| && forall i :: 0 <= i < |s| ==> r[i] == s[|s| - 1 - i]
  {
    if s == [] then [] else Reverse(s[1..]) + [s[0]]
  }

  lemma ReverseOrders(m: Manifests, s: seq<string>)
    requires DepsFollow(m, s)
    ensures DepsFirst(m, Reverse(s))
    ensures forall x :: x in Reverse(s) <==> x in s
  {
    var r := Reverse(s);
    forall i, d | 0 <= i < |r| && DependsOn(m, r[i], d) ensures d in r[..i] {
      var k := |s| - 1 - i;
      assert DependsOn(m, s[k], d);
      var j :| 0 <= j < |s[k + 1..]| && s[k + 1..][j] == d;
      assert r[..i][|s| - 1 - (k + 1 + j)] == d;
    }
    forall x | x in s ensures x in r {
      var j :| 0 <= j < |s| && s[j] == x;
      assert r[|s| - 1 - j] == x;
    }
  }

  /** The main block, when no cycle is reachable from the roots: every crate reachable from them exactly
      once, each after all of its dependencies. */
  method PublishList(m: Manifests, roots: seq<string>) returns (order: seq<string>)
    requires AllAcyclic(m, roots)
    ensures NoDup(order) && DepsFirst(m, order)
    ensures forall x :: x in order <==> SomeReaches(m, roots, x)
  {
    var all := CollectAll(m, roots);
    AllFollow(m, roots);
    ReverseOrders(m, all);
    var reversed := Reverse(all);
    DedupOrders(m, reversed);
    DedupKeeps(reversed);
    order := OrderedDedup(reversed);
  }

  /** The loop over the crates named on the command line. */
  method CollectAll(m: Manifests, roots: seq<string>) returns (all: seq<string>)
    requires AllAcyclic(m, roots)
    ensures all == WithLists(m, roots)
  {
    ghost var lists := Lists(m, roots);
    all := roots;
    for k := 0 to |roots|
      invariant all == roots + Flat(lists[..k])
    {
      var deps := ProcessCrate(m, roots[k]);
      FlatNext(lists, k);
      Regroup(roots, Flat(lists[..k]), deps);
      all := all + deps;
    }
    assert lists[..|roots|] == lists;
  }

  lemma AllFollow(m: Manifests, roots: seq<string>)
    requires AllAcyclic(m, roots)
    ensures DepsFollow(m, WithLists(m, roots))
    ensures forall x :: x in WithLists(m, roots) <==> SomeReaches(m, roots, x)
  {
    var bound := |m.Keys| + 1;
    forall i | 0 <= i < |roots| ensures |Reachable(m, roots[i])| < bound {
      var r := Reachable(m, roots[i]);
      assert r <= m.Keys && m.Keys == r + (m.Keys - r);
    }
    ListsFollow(m, roots, bound);
    forall x ensures x in WithLists(m, roots) <==> SomeReaches(m, roots, x) { ListsHold(m, roots, x, bound); }
  }

  /** The lists that `f` gives some crates. */
  ghost function Images(f: string -> seq<string>, crates: seq<string>): (lists: seq<seq<string>>)
    ensures |lists| == |crates| && forall i :: 0 <= i < |crates| ==> lists[i] == f(crates[i])
  {
    seq(|crates|, i requires 0 <= i < |crates| => f(crates[i]))
  }

  /** `f` gives the crate the list that the recursion asks for: its dependencies, and then theirs. */
  ghost predicate SolvesAt(m: Manifests, c: string, f: string -> seq<string>) {
    f(c) == Children(m, c) + Flat(Images(f, Children(m, c)))
  }

  /** ... and so every crate that is reachable from the roots. */
  ghost predicate Solves(m: Manifests, roots: seq<string>, f: string -> seq<string>) {
    forall c :: SomeReaches(m, roots, c) ==> SolvesAt(m, c, f)
  }

  lemma {:induction false} FlatAtLeast(lists: seq<seq<string>>, i: nat)
    requires i < |lists|
    ensures |Flat(lists)| >= |lists[i]|
  {
    if i > 0 { FlatAtLeast(lists[1..], i - 1); }
  }

  lemma SomeReachesStep(m: Manifests, roots: seq<string>, c: string, d: string)
    requires SomeReaches(m, roots, c) && Reaches(m, c, d)
    ensures SomeReaches(m, roots, d)
  {
    var i :| 0 <= i < |roots| && Reaches(m, roots[i], c);
    ReachesTrans(m, roots[i], c, d);
  }

  lemma ReachesTrans(m: Manifests, a: string, b: string, c: string)
    requires Reaches(m, a, b) && Reaches(m, b, c)
    ensures Reaches(m, a, c)
  {
    var p :| IsPath(m, p) && p[0] == a && p[|p| - 1] == b;
    PathReaches(m, p, c);
  }

  lemma PathTail(m: Manifests, p: seq<string>)
    requires IsPath(m, p) && |p| > 1
    ensures var q := p[1..];
      IsPath(m, q) && q[0] == p[1] && q[|q| - 1] == p[|p| - 1] && DependsOn(m, p[0], p[1])
  {
    var q := p[1..];
    assert forall i :: 0 <= i < |q| ==> q[i] == p[i + 1];
  }

  lemma {:induction false} PathReaches(m: Manifests, p: seq<string>, c: string)
    requires IsPath(m, p) && Reaches(m, p[|p| - 1], c)
    ensures Reaches(m, p[0], c)
    decreases |p|
  {
    if |p| > 1 {
      PathTail(m, p);
      PathReaches(m, p[1..], c);
      ReachesStep(m, p[0], p[1], c);
    }
  }

  lemma DepReached(m: Manifests, roots: seq<string>, c: string, d: string)
    requires SomeReaches(m, roots, c) && DependsOn(m, c, d)
    ensures SomeReaches(m, roots, d)
  {
    ReachesSelf(m, d);
    ReachesStep(m, c, d, d);
    SomeReachesStep(m, roots, c, d);
  }

  /** The list of a crate is longer than that of anything it depends on. */
  lemma LongerThanDep(m: Manifests, f: string -> seq<string>, c: string, d: string)
    requires SolvesAt(m, c, f) && DependsOn(m, c, d)
    ensures |f(d)| < |f(c)|
  {
    var deps := Children(m, c);
    var i :| 0 <= i < |deps| && deps[i] == d;
    FlatAtLeast(Images(f, deps), i);
  }

  lemma {:induction false} LongerAlong(m: Manifests, roots: seq<string>, f: string -> seq<string>, p: seq<string>)
    requires Solves(m, roots, f) && IsPath(m, p) && SomeReaches(m, roots, p[0])
    ensures |f(p[|p| - 1])| <= |f(p[0])|
    decreases |p|
  {
    if |p| > 1 {
      PathTail(m, p);
      LongerThanDep(m, f, p[0], p[1]);
      DepReached(m, roots, p[0], p[1]);
      LongerAlong(m, roots, f, p[1..]);
    }
  }

  lemma SolvedIsAcyclic(m: Manifests, roots: seq<string>, f: string -> seq<string>)
    requires Solves(m, roots, f)
    ensures AllAcyclic(m, roots)
  {
    forall i, a, b | 0 <= i < |roots| && Reaches(m, roots[i], a) && DependsOn(m, a, b) ensures !Reaches(m, b, a) {
      LongerThanDep(m, f, a, b);
      if Reaches(m, b, a) {
        DepReached(m, roots, a, b);
        var p :| IsPath(m, p) && p[0] == b && p[|p| - 1] == a;
        LongerAlong(m, roots, f, p);
        assert false;
      }
    }
  }

  lemma AcyclicIsSolved(m: Manifests, roots: seq<string>) returns (f: string -> seq<string>)
    requires AllAcyclic(m, roots)
    ensures Solves(m, roots, f)
  {
    f := c => if Acyclic(m, c) then Process(m, c) else [];
    forall c | SomeReaches(m, roots, c) ensures SolvesAt(m, c, f) {
      AcyclicReached(m, roots, c);
      ProcessIs(m, c);
      assert Images(f, Children(m, c)) == Lists(m, Children(m, c));
    }
  }

  lemma AcyclicReached(m: Manifests, roots: seq<string>, c: string)
    requires AllAcyclic(m, roots) && SomeReaches(m, roots, c)
    ensures Acyclic(m, c)
  {
    var i :| 0 <= i < |roots| && Reaches(m, roots[i], c);
    forall a, b | Reaches(m, c, a) && DependsOn(m, a, b) ensures !Reaches(m, b, a) {
      ReachesTrans(m, roots[i], c, a);
    }
  }

  /** The recursion has a result for all crates it gets to if and only if no cycle is reachable from the
      roots; on a reachable cycle it cannot end, since each list would be longer than itself. */
  lemma SolvableIff(m: Manifests, roots: seq<string>)
    ensures (exists f: string -> seq<string> :: Solves(m, roots, f)) <==> AllAcyclic(m, roots)
  {
    if f: string -> seq<string> :| Solves(m, roots, f) {
      SolvedIsAcyclic(m, roots, f);
    }
    if AllAcyclic(m, roots) {
      var f := AcyclicIsSolved(m, roots);
    }
  }

  /** Two crates that depend on each other, from one of them and from elsewhere. */
  lemma CycleExample()
    ensures var m: Manifests := map["a" := ["spacetimedb-b"], "b" := ["spacetimedb-a"]];
      !AllAcyclic(m, ["a"]) && AllAcyclic(m, ["c"])
  {
    var m: Manifests := map["a" := ["spacetimedb-b"], "b" := ["spacetimedb-a"]];
    assert PREFIX + "b" == "spacetimedb-b" && PREFIX + "a" == "spacetimedb-a";
    assert DependsOn(m, "a", "b") && DependsOn(m, "b", "a");
    ReachesSelf(m, "a");
    ReachesStep(m, "b", "a", "a");
    assert ["a"][0] == "a" && !Acyclic(m, "a");
    forall a | Reaches(m, "c", a) ensures a == "c" { ReachesUnfold(m, "c", a); }
    assert Acyclic(m, "c");
  }
}
