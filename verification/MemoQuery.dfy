/** `memo_query`: a cache shared by threads behind a read-write lock, as a state machine in which any
    thread may take the next step. A panic in the generator poisons the lock. */
module MemoQuery {
  import opened Options

  datatype BenchName = InsertBulk | Filter

  datatype Key = Key(bench: BenchName, table: string)

  type Thread = nat

  /** What one call was made with; the generator returns a string or panics. */
  datatype Call = Call(key: Key, generated: Option<string>)

  datatype Pc =
    | Start
    | Reading
    | Missed
    | Writing
    | HasBench
    | Generated(query: string)
    | Done(query: string)
    | Panicked

  type Queries = map<BenchName, map<string, string>>

  /** `called` are the threads whose generator was called, in that order. */
  datatype State = State(
    queries: Queries,
    readers: set<Thread>,
    writer: Option<Thread>,
    poisoned: bool,
    pcs: map<Thread, Pc>,
    called: seq<Thread>)

  predicate Cached(q: Queries, k: Key) {
    k.bench in q && k.table in q[k.bench]
  }

  function Entry(q: Queries, k: Key): string
    requires Cached(q, k)
  {
    q[k.bench][k.table]
  }

  predicate Finished(pc: Pc) {
    pc.Done? || pc.Panicked?
  }

  function Init(calls: map<Thread, Call>): State {
    State(map[], {}, None, false, map t | t in calls :: Start, [])
  }

  /** One step of thread `t`; `None` if it has finished or waits for the lock. */
  function Step(calls: map<Thread, Call>, s: State, t: Thread): Option<State>
    requires t in calls && t in s.pcs
  {
    var k := calls[t].key;
    match s.pcs[t]
    case Start =>
      if s.writer.Some? then None
      else if s.poisoned then Some(s.(pcs := s.pcs[t := Panicked]))
      else Some(s.(readers := s.readers + {t}, pcs := s.pcs[t := Reading]))
    case Reading =>
      Some(s.(readers := s.readers - {t},
              pcs := s.pcs[t := if Cached(s.queries, k) then Done(Entry(s.queries, k)) else Missed]))
    case Missed =>
      if s.writer.Some? || s.readers != {} then None
      else if s.poisoned then Some(s.(pcs := s.pcs[t := Panicked]))
      else Some(s.(writer := Some(t), pcs := s.pcs[t := Writing]))
    case Writing =>
      Some(s.(queries := if k.bench in s.queries then s.queries else s.queries[k.bench := map[]],
              pcs := s.pcs[t := HasBench]))
    case HasBench =>
      if Cached(s.queries, k) then Some(s.(writer := None, pcs := s.pcs[t := Done(Entry(s.queries, k))]))
      else
        var counted := s.(called := s.called + [t]);
        (match calls[t].generated
         case Some(q) => Some(counted.(pcs := s.pcs[t := Generated(q)]))
         case None => Some(counted.(writer := None, poisoned := true, pcs := s.pcs[t := Panicked])))
    case Generated(q) =>
      var bench := if k.bench in s.queries then s.queries[k.bench] else map[];
      var queries := s.queries[k.bench := bench[k.table := q]];
      Some(s.(queries := queries, writer := None, pcs := s.pcs[t := Done(queries[k.bench][k.table])]))
    case _ => None
  }

  predicate InWriteSection(pc: Pc) {
    pc.Writing? || pc.HasBench? || pc.Generated?
  }

  /** The lock's own promise: readers share, a writer is alone. */
  ghost predicate Locked(calls: map<Thread, Call>, s: State) {
    && s.pcs.Keys == calls.Keys
    && (forall t :: t in s.readers <==> t in s.pcs && s.pcs[t].Reading?)
    && (forall t :: s.writer == Some(t) <==> t in s.pcs && InWriteSection(s.pcs[t]))
    && (s.writer.Some? ==> s.readers == {} && !s.poisoned)
  }

  /** Some thread is between generating the query for `k` and storing it. */
  ghost predicate Pending(calls: map<Thread, Call>, s: State, k: Key)
    requires s.pcs.Keys == calls.Keys
  {
    exists t :: t in s.pcs && s.pcs[t].Generated? && calls[t].key == k
  }

  ghost predicate PcOk(call: Call, q: Queries, pc: Pc) {
    && (pc.Generated? ==> !Cached(q, call.key) && call.generated == Some(pc.query))
    && (pc.Done? ==> Cached(q, call.key) && Entry(q, call.key) == pc.query)
  }

  /** Entry `k` came from the generator of a caller for `k`. */
  ghost predicate FromCaller(calls: map<Thread, Call>, s: State, k: Key) {
    Cached(s.queries, k) ==>
      exists i :: 0 <= i < |s.called| && s.called[i] in calls && calls[s.called[i]].key == k
                  && calls[s.called[i]].generated == Some(Entry(s.queries, k))
  }

  /** What became of a generator that was called: it panicked, and poisoned the lock, or its string is
      about to be stored, or the key has an entry. */
  ghost predicate CallOk(calls: map<Thread, Call>, s: State, t: Thread) {
    && t in calls && t in s.pcs
    && (calls[t].generated.None? ==> s.poisoned && s.pcs[t].Panicked?)
    && (calls[t].generated.Some? ==> s.pcs[t].Generated? || Cached(s.queries, calls[t].key))
  }

  ghost predicate LogOk(calls: map<Thread, Call>, s: State) {
    && (forall i :: 0 <= i < |s.called| ==> CallOk(calls, s, s.called[i]))
    && OncePerKey(calls, s.called)
  }

  /** No two of the generators called were for one key. */
  ghost predicate OncePerKey(calls: map<Thread, Call>, called: seq<Thread>) {
    forall i, j :: 0 <= i < j < |called| && called[i] in calls && called[j] in calls ==>
      calls[called[i]].key != calls[called[j]].key
  }

  /** Some generator that was called panicked. */
  ghost predicate SomePanicked(calls: map<Thread, Call>, s: State) {
    exists i :: 0 <= i < |s.called| && s.called[i] in calls && calls[s.called[i]].generated.None?
  }

  ghost predicate Inv(calls: map<Thread, Call>, s: State) {
    && Locked(calls, s)
    && (forall t :: t in s.pcs ==> PcOk(calls[t], s.queries, s.pcs[t]))
    && (forall t :: t in s.pcs && s.pcs[t].Panicked? ==> s.poisoned)
    && (forall t :: t in s.pcs && s.pcs[t].Generated? ==> t in s.called)
    && (forall k :: FromCaller(calls, s, k))
    && LogOk(calls, s) && (s.poisoned ==> SomePanicked(calls, s))
  }

  /** Entries are only ever added. */
  ghost predicate Extends(q: Queries, q': Queries) {
    forall k :: Cached(q, k) ==> Cached(q', k) && Entry(q', k) == Entry(q, k)
  }

  lemma InitInv(calls: map<Thread, Call>)
    ensures Inv(calls, Init(calls))
  {}

  /** A thread goes from one program point to another; the lock follows. */
  ghost predicate LockFollows(s: State, s': State, t: Thread)
    requires t in s.pcs && t in s'.pcs
  {
    var pc, pc' := s.pcs[t], s'.pcs[t];
    && s'.pcs == s.pcs[t := pc']
    && s'.readers == (if pc'.Reading? then s.readers + {t} else s.readers - {t})
    && s'.writer == (if InWriteSection(pc') then Some(t) else if InWriteSection(pc) then None else s.writer)
    && (pc'.Reading? ==> s.writer.None?)
    && (InWriteSection(pc') && !InWriteSection(pc) ==> s.writer.None? && s.readers == {} && !s.poisoned)
    && (s'.poisoned == s.poisoned || InWriteSection(pc))
    && (s'.poisoned != s.poisoned ==> !InWriteSection(pc'))
  }

  lemma LockedAfter(calls: map<Thread, Call>, s: State, s': State, t: Thread)
    requires Locked(calls, s) && t in calls && t in s'.pcs && LockFollows(s, s', t)
    ensures Locked(calls, s')
  {
    forall u ensures u in s'.readers <==> u in s'.pcs && s'.pcs[u].Reading? {}
    forall u ensures s'.writer == Some(u) <==> u in s'.pcs && InWriteSection(s'.pcs[u]) {}
  }

  lemma StepFollows(calls: map<Thread, Call>, s: State, t: Thread)
    requires Locked(calls, s) && t in calls && Step(calls, s, t).Some?
    ensures t in Step(calls, s, t).value.pcs && LockFollows(s, Step(calls, s, t).value, t)
  {
    assert t in s.readers <==> s.pcs[t].Reading?;
    assert s.writer == Some(t) <==> InWriteSection(s.pcs[t]);
  }

  lemma LockedStep(calls: map<Thread, Call>, s: State, t: Thread)
    requires Locked(calls, s) && t in calls && Step(calls, s, t).Some?
    ensures Locked(calls, Step(calls, s, t).value)
  {
    StepFollows(calls, s, t);
    LockedAfter(calls, s, Step(calls, s, t).value, t);
  }

  /** A step of `t` that leaves every entry and the log as they were. */
  lemma QuietStep(calls: map<Thread, Call>, s: State, s': State, t: Thread)
    requires Inv(calls, s) && t in calls && Locked(calls, s') && s'.pcs == s.pcs[t := s'.pcs[t]]
    requires Extends(s.queries, s'.queries) && Extends(s'.queries, s.queries)
    requires s'.called == s.called && s'.poisoned == s.poisoned
    requires !s.pcs[t].Generated? && !s'.pcs[t].Generated? && PcOk(calls[t], s'.queries, s'.pcs[t])
    requires !s.pcs[t].Panicked? && (s'.pcs[t].Panicked? ==> s.poisoned)
    ensures Inv(calls, s')
  {
    forall k ensures FromCaller(calls, s', k) {
      assert FromCaller(calls, s, k);
    }
    forall i | 0 <= i < |s'.called| ensures CallOk(calls, s', s'.called[i]) {
      assert CallOk(calls, s, s.called[i]);
    }
    forall u | u in s'.pcs ensures PcOk(calls[u], s'.queries, s'.pcs[u]) {
      assert PcOk(calls[u], s.queries, s.pcs[u]);
    }
    if s.poisoned { KeptPanic(calls, s, s'); }
  }

  lemma KeptPanic(calls: map<Thread, Call>, s: State, s': State)
    requires s.called <= s'.called && SomePanicked(calls, s)
    ensures SomePanicked(calls, s')
  {
    var i :| 0 <= i < |s.called| && s.called[i] in calls && calls[s.called[i]].generated.None?;
    assert s'.called[i] == s.called[i];
  }

  /** The generator runs for a key for which none did, in the only write section. */
  lemma GenerateStep(calls: map<Thread, Call>, s: State, t: Thread)
    requires Inv(calls, s) && t in calls && s.pcs[t].HasBench? && !Cached(s.queries, calls[t].key)
    ensures Inv(calls, Step(calls, s, t).value)
  {
    var s' := Step(calls, s, t).value;
    LockedStep(calls, s, t);
    OnlyWriter(calls, s, t);
    forall k ensures FromCaller(calls, s', k) {
      assert FromCaller(calls, s, k);
      if Cached(s.queries, k) {
        var i :| 0 <= i < |s.called| && s.called[i] in calls && calls[s.called[i]].key == k
                 && calls[s.called[i]].generated == Some(Entry(s.queries, k));
        assert s'.called[i] == s.called[i];
      }
    }
    GenerateLogged(calls, s, t);
    forall u | u in s'.pcs ensures PcOk(calls[u], s'.queries, s'.pcs[u]) {
      assert PcOk(calls[u], s.queries, s.pcs[u]);
    }
  }

  lemma GenerateLogged(calls: map<Thread, Call>, s: State, t: Thread)
    requires Inv(calls, s) && t in calls && s.pcs[t].HasBench? && !Cached(s.queries, calls[t].key)
    ensures var s' := Step(calls, s, t).value; LogOk(calls, s') && (s'.poisoned ==> SomePanicked(calls, s'))
  {
    var s' := Step(calls, s, t).value;
    OnlyWriter(calls, s, t);
    forall i | 0 <= i < |s.called|
      ensures CallOk(calls, s', s.called[i]) && calls[s.called[i]].key != calls[t].key
    {
      assert CallOk(calls, s, s.called[i]);
    }
    assert s'.called[|s.called|] == t && CallOk(calls, s', t);
  }

  lemma OnlyWriter(calls: map<Thread, Call>, s: State, t: Thread)
    requires Locked(calls, s) && t in s.pcs && InWriteSection(s.pcs[t])
    ensures !s.poisoned && forall u :: u in s.pcs && InWriteSection(s.pcs[u]) ==> u == t
  {
    assert s.writer == Some(t);
  }

  /** `q'` is `q` with one new entry. */
  ghost predicate Stored(q: Queries, q': Queries, key: Key, query: string) {
    && Extends(q, q') && Cached(q', key) && Entry(q', key) == query
    && forall k :: Cached(q', k) ==> k == key || Cached(q, k)
  }

  lemma StoreNew(q: Queries, key: Key, query: string)
    requires !Cached(q, key)
    ensures var bench := if key.bench in q then q[key.bench] else map[];
      Stored(q, q[key.bench := bench[key.table := query]], key, query)
  {}

  /** A step of `t` that stores its own string and is done. */
  lemma StoredStep(calls: map<Thread, Call>, s: State, s': State, t: Thread, query: string)
    requires Inv(calls, s) && t in calls && Locked(calls, s') && s'.pcs == s.pcs[t := Done(query)]
    requires s'.called == s.called && s'.poisoned == s.poisoned
    requires s.pcs[t] == Generated(query) && Stored(s.queries, s'.queries, calls[t].key, query)
    ensures Inv(calls, s')
  {
    OnlyWriter(calls, s, t);
    assert PcOk(calls[t], s.queries, s.pcs[t]);
    forall k ensures FromCaller(calls, s', k) {
      assert FromCaller(calls, s, k);
    }
    forall i | 0 <= i < |s'.called| ensures CallOk(calls, s', s'.called[i]) {
      assert CallOk(calls, s, s.called[i]);
    }
    forall u | u in s'.pcs ensures PcOk(calls[u], s'.queries, s'.pcs[u]) {
      assert PcOk(calls[u], s.queries, s.pcs[u]);
    }
  }

  /** The query is stored: the key was not cached, and no other thread is in the write section. */
  lemma StoreStep(calls: map<Thread, Call>, s: State, t: Thread)
    requires Inv(calls, s) && t in calls && s.pcs[t].Generated?
    ensures Inv(calls, Step(calls, s, t).value)
    ensures Extends(s.queries, Step(calls, s, t).value.queries)
  {
    LockedStep(calls, s, t);
    assert PcOk(calls[t], s.queries, s.pcs[t]);
    StoreNew(s.queries, calls[t].key, s.pcs[t].query);
    StoredStep(calls, s, Step(calls, s, t).value, t, s.pcs[t].query);
  }

  /** Every step of every thread keeps the invariant and all entries. */
  lemma StepInv(calls: map<Thread, Call>, s: State, t: Thread)
    requires Inv(calls, s) && t in calls && Step(calls, s, t).Some?
    ensures Inv(calls, Step(calls, s, t).value)
    ensures Extends(s.queries, Step(calls, s, t).value.queries)
  {
    if s.pcs[t].Generated? {
      StoreStep(calls, s, t);
    } else if s.pcs[t].HasBench? && !Cached(s.queries, calls[t].key) {
      GenerateStep(calls, s, t);
    } else {
      OtherStep(calls, s, t);
    }
  }

  lemma NewBench(q: Queries, bench: BenchName)
    requires bench !in q
    ensures Extends(q, q[bench := map[]]) && Extends(q[bench := map[]], q)
  {}

  /** The steps that neither generate nor store. */
  lemma OtherStep(calls: map<Thread, Call>, s: State, t: Thread)
    requires Inv(calls, s) && t in calls && Step(calls, s, t).Some?
    requires !s.pcs[t].Generated? && (s.pcs[t].HasBench? ==> Cached(s.queries, calls[t].key))
    ensures Inv(calls, Step(calls, s, t).value)
    ensures Extends(s.queries, Step(calls, s, t).value.queries)
  {
    var s', bench := Step(calls, s, t).value, calls[t].key.bench;
    LockedStep(calls, s, t);
    if s.pcs[t].Writing? && bench !in s.queries { NewBench(s.queries, bench); }
    QuietStep(calls, s, s', t);
  }

  /** A thread that cannot go just loses its turn. */
  function Turn(calls: map<Thread, Call>, s: State, t: Thread): (s': State)
    requires t in calls && s.pcs.Keys == calls.Keys
    ensures s'.pcs.Keys == calls.Keys
  {
    match Step(calls, s, t)
    case Some(s') => s'
    case None => s
  }

  /** A schedule names the thread to go next. */
  function Run(calls: map<Thread, Call>, schedule: seq<Thread>, n: nat): (s: State)
    requires n <= |schedule| && forall t :: t in schedule ==> t in calls
    ensures s.pcs.Keys == calls.Keys
  {
    if n == 0 then Init(calls) else Turn(calls, Run(calls, schedule, n - 1), schedule[n - 1])
  }

  lemma {:induction false} RunInv(calls: map<Thread, Call>, schedule: seq<Thread>, n: nat)
    requires n <= |schedule| && forall t :: t in schedule ==> t in calls
    ensures Inv(calls, Run(calls, schedule, n))
  {
    InitInv(calls);
    if n > 0 {
      RunInv(calls, schedule, n - 1);
      TurnInv(calls, Run(calls, schedule, n - 1), schedule[n - 1]);
    }
  }

  lemma TurnInv(calls: map<Thread, Call>, s: State, t: Thread)
    requires Inv(calls, s) && t in calls
    ensures Inv(calls, Turn(calls, s, t)) && Extends(s.queries, Turn(calls, s, t).queries)
  {
    if Step(calls, s, t).Some? { StepInv(calls, s, t); }
  }

  lemma RunTurn(calls: map<Thread, Call>, schedule: seq<Thread>, n: nat)
    requires 0 < n <= |schedule| && forall t :: t in schedule ==> t in calls
    ensures Extends(Run(calls, schedule, n - 1).queries, Run(calls, schedule, n).queries)
  {
    RunInv(calls, schedule, n - 1);
    TurnInv(calls, Run(calls, schedule, n - 1), schedule[n - 1]);
  }

  lemma ExtendsTrans(a: Queries, b: Queries, c: Queries)
    requires Extends(a, b) && Extends(b, c)
    ensures Extends(a, c)
  {}

  lemma RunExtendsOne(calls: map<Thread, Call>, schedule: seq<Thread>, n: nat, q: Queries)
    requires 0 < n <= |schedule| && forall t :: t in schedule ==> t in calls
    requires Extends(q, Run(calls, schedule, n - 1).queries)
    ensures Extends(q, Run(calls, schedule, n).queries)
  {
    RunTurn(calls, schedule, n);
    ExtendsTrans(q, Run(calls, schedule, n - 1).queries, Run(calls, schedule, n).queries);
  }

  lemma {:induction false} RunExtends(calls: map<Thread, Call>, schedule: seq<Thread>, m: nat, n: nat)
    requires m <= n <= |schedule| && forall t :: t in schedule ==> t in calls
    ensures Extends(Run(calls, schedule, m).queries, Run(calls, schedule, n).queries)
  {
    if m < n {
      RunExtends(calls, schedule, m, n - 1);
      RunExtendsOne(calls, schedule, n, Run(calls, schedule, m).queries);
    }
  }

  /** In every interleaving: a generator runs at most once per key, an entry once made never changes,
      all callers for a key get the same string, and it is the result of the one that ran. */
  lemma MemoIsConsistent(calls: map<Thread, Call>, schedule: seq<Thread>, m: nat, n: nat, t: Thread, u: Thread)
    requires m <= n <= |schedule| && (forall x :: x in schedule ==> x in calls) && t in calls && u in calls
    ensures var early, late := Run(calls, schedule, m), Run(calls, schedule, n);
      && OncePerKey(calls, late.called) && Extends(early.queries, late.queries)
      && (early.pcs[t].Done? && late.pcs[u].Done? && calls[t].key == calls[u].key ==>
            early.pcs[t].query == late.pcs[u].query)
      && (late.pcs[t].Done? ==>
            exists i :: 0 <= i < |late.called| && late.called[i] in calls && calls[late.called[i]].key == calls[t].key
                        && calls[late.called[i]].generated == Some(late.pcs[t].query))
  {
    var early, late := Run(calls, schedule, m), Run(calls, schedule, n);
    RunExtends(calls, schedule, m, n);
    RunInv(calls, schedule, m);
    RunInv(calls, schedule, n);
    assert FromCaller(calls, late, calls[t].key);
    assert PcOk(calls[t], early.queries, early.pcs[t]) && PcOk(calls[t], late.queries, late.pcs[t]);
    assert PcOk(calls[u], late.queries, late.pcs[u]);
  }

  /** In every interleaving: the lock is poisoned if and only if a generator that was called panicked. Its
      caller has then panicked, and no caller panics without that. */
  lemma PanicsOnlyIfPoisoned(calls: map<Thread, Call>, schedule: seq<Thread>, n: nat, t: Thread)
    requires n <= |schedule| && (forall x :: x in schedule ==> x in calls) && t in calls
    ensures var s := Run(calls, schedule, n);
      && (s.poisoned <==> SomePanicked(calls, s))
      && (s.pcs[t].Panicked? ==> s.poisoned)
      && (t in s.called && calls[t].generated.None? ==> s.pcs[t].Panicked?)
  {
    var s := Run(calls, schedule, n);
    RunInv(calls, schedule, n);
    if i :| 0 <= i < |s.called| && s.called[i] in calls && calls[s.called[i]].generated.None? {
      assert CallOk(calls, s, s.called[i]);
    }
    if t in s.called { assert CallOk(calls, s, t); }
  }

  /** When the generators depend on the key alone, memoising is invisible. */
  lemma MemoIsDirect(calls: map<Thread, Call>, schedule: seq<Thread>, n: nat, t: Thread)
    requires n <= |schedule| && (forall x :: x in schedule ==> x in calls) && t in calls
    requires forall x, y :: x in calls && y in calls && calls[x].key == calls[y].key ==>
               calls[x].generated == calls[y].generated
    ensures Run(calls, schedule, n).pcs[t].Done? ==> calls[t].generated == Some(Run(calls, schedule, n).pcs[t].query)
  {
    MemoIsConsistent(calls, schedule, n, n, t, t);
  }

  /** A call that has not got past its first look, and will find its key there. */
  ghost predicate OnFastPath(calls: map<Thread, Call>, s: State, t: Thread) {
    && t in calls && t in s.pcs && Cached(s.queries, calls[t].key)
    && (s.pcs[t].Start? || s.pcs[t].Reading? || Finished(s.pcs[t]))
  }

  lemma StepOnFastPath(calls: map<Thread, Call>, s: State, t: Thread)
    requires OnFastPath(calls, s, t) && Step(calls, s, t).Some?
    ensures OnFastPath(calls, Step(calls, s, t).value, t)
  {}

  lemma TurnOnFastPath(calls: map<Thread, Call>, s: State, t: Thread, u: Thread)
    requires Inv(calls, s) && u in calls && OnFastPath(calls, s, t)
    ensures OnFastPath(calls, Turn(calls, s, u), t)
  {
    TurnInv(calls, s, u);
    if Step(calls, s, u).Some? {
      if t == u { StepOnFastPath(calls, s, t); } else { StepRank(calls, s, u); }
    }
  }

  lemma NextOnFastPath(calls: map<Thread, Call>, schedule: seq<Thread>, n: nat, t: Thread)
    requires 0 < n <= |schedule| && (forall x :: x in schedule ==> x in calls)
    requires OnFastPath(calls, Run(calls, schedule, n - 1), t)
    ensures OnFastPath(calls, Run(calls, schedule, n), t)
  {
    RunInv(calls, schedule, n - 1);
    TurnOnFastPath(calls, Run(calls, schedule, n - 1), t, schedule[n - 1]);
  }

  /** A call for a key that is cached when it starts never asks for the write lock. */
  lemma {:induction false} CachedNeedsNoWrite(calls: map<Thread, Call>, schedule: seq<Thread>, m: nat, n: nat,
                                              t: Thread)
    requires m <= n <= |schedule| && (forall x :: x in schedule ==> x in calls)
    requires OnFastPath(calls, Run(calls, schedule, m), t)
    ensures OnFastPath(calls, Run(calls, schedule, n), t)
  {
    if m < n {
      CachedNeedsNoWrite(calls, schedule, m, n - 1, t);
      NextOnFastPath(calls, schedule, n, t);
    }
  }

  /** A call that has come too late: a generator has panicked. */
  ghost predicate TooLate(calls: map<Thread, Call>, s: State, t: Thread) {
    t in calls && t in s.pcs && s.poisoned && (s.pcs[t].Start? || s.pcs[t].Panicked?)
  }

  lemma TurnTooLate(calls: map<Thread, Call>, s: State, t: Thread, u: Thread)
    requires s.pcs.Keys == calls.Keys && u in calls && TooLate(calls, s, t)
    ensures TooLate(calls, Turn(calls, s, u), t)
  {
    if Step(calls, s, u).Some? && t != u { StepRank(calls, s, u); }
  }

  /** After a panic the lock is poisoned for good, and every call that has not begun can only panic. */
  lemma {:induction false} PoisonStays(calls: map<Thread, Call>, schedule: seq<Thread>, m: nat, n: nat, t: Thread)
    requires m <= n <= |schedule| && (forall x :: x in schedule ==> x in calls)
    requires TooLate(calls, Run(calls, schedule, m), t)
    ensures TooLate(calls, Run(calls, schedule, n), t)
  {
    if m < n {
      PoisonStays(calls, schedule, m, n - 1, t);
      TurnTooLate(calls, Run(calls, schedule, n - 1), t, schedule[n - 1]);
    }
  }

  /** A thread waits exactly where the lock makes it: readers for a writer, a writer for both. */
  lemma WaitsIff(calls: map<Thread, Call>, s: State, t: Thread)
    requires Locked(calls, s) && t in calls
    ensures Step(calls, s, t).None? <==>
            || Finished(s.pcs[t])
            || (s.pcs[t].Start? && exists u :: u in s.pcs && InWriteSection(s.pcs[u]))
            || (s.pcs[t].Missed? && exists u :: u in s.pcs && (InWriteSection(s.pcs[u]) || s.pcs[u].Reading?))
  {
    assert s.writer.Some? <==> exists u :: u in s.pcs && InWriteSection(s.pcs[u]) by {
      if s.writer.Some? { assert InWriteSection(s.pcs[s.writer.value]); }
    }
    assert s.readers != {} <==> exists u :: u in s.pcs && s.pcs[u].Reading? by {
      if s.readers != {} {
        var u :| u in s.readers;
        assert s.pcs[u].Reading?;
      }
    }
  }

  /** No deadlock: while a call is unfinished, some thread can go. */
  lemma SomeThreadCanGo(calls: map<Thread, Call>, s: State, t: Thread) returns (u: Thread)
    requires Inv(calls, s) && t in calls && !Finished(s.pcs[t])
    ensures u in calls && Step(calls, s, u).Some?
  {
    if s.writer.Some? {
      u := s.writer.value;
    } else if s.readers != {} {
      u :| u in s.readers;
    } else {
      u := t;
    }
  }

  /** How many steps a call has left at most. */
  function Rank(pc: Pc): nat {
    match pc
    case Start => 6
    case Reading => 5
    case Missed => 4
    case Writing => 3
    case HasBench => 2
    case Generated(_) => 1
    case _ => 0
  }

  ghost function Total(pcs: map<Thread, Pc>): nat
    decreases |pcs|
  {
    if pcs == map[] then 0 else
    var t :| t in pcs;
    Rank(pcs[t]) + Total(pcs - {t})
  }

  lemma {:induction false} TotalAt(pcs: map<Thread, Pc>, t: Thread)
    requires t in pcs
    ensures Total(pcs) == Rank(pcs[t]) + Total(pcs - {t})
    decreases |pcs|
  {
    var u :| u in pcs && Total(pcs) == Rank(pcs[u]) + Total(pcs - {u});
    if u != t {
      TotalAt(pcs - {u}, t);
      TotalAt(pcs - {t}, u);
      assert pcs - {u} - {t} == pcs - {t} - {u};
    }
  }

  lemma TotalLess(pcs: map<Thread, Pc>, t: Thread, pc: Pc)
    requires t in pcs && Rank(pc) < Rank(pcs[t])
    ensures Total(pcs[t := pc]) < Total(pcs)
  {
    TotalAt(pcs, t);
    TotalAt(pcs[t := pc], t);
    assert pcs[t := pc] - {t} == pcs - {t};
  }

  lemma StepRank(calls: map<Thread, Call>, s: State, t: Thread)
    requires t in calls && t in s.pcs && Step(calls, s, t).Some?
    ensures t in Step(calls, s, t).value.pcs
    ensures var pc := Step(calls, s, t).value.pcs[t];
      Step(calls, s, t).value.pcs == s.pcs[t := pc] && Rank(pc) < Rank(s.pcs[t])
  {}

  /** Every step that is taken brings the calls nearer to their end. */
  lemma StepDecreases(calls: map<Thread, Call>, s: State, t: Thread)
    requires t in calls && t in s.pcs && Step(calls, s, t).Some?
    ensures Total(Step(calls, s, t).value.pcs) < Total(s.pcs)
  {
    StepRank(calls, s, t);
    TotalLess(s.pcs, t, Step(calls, s, t).value.pcs[t]);
  }

  lemma {:induction false} TotalOfStart(pcs: map<Thread, Pc>)
    requires forall t :: t in pcs ==> pcs[t].Start?
    ensures Total(pcs) == 6 * |pcs|
    decreases |pcs|
  {
    if pcs != map[] {
      var t :| t in pcs && Total(pcs) == Rank(pcs[t]) + Total(pcs - {t});
      TotalOfStart(pcs - {t});
      assert |pcs - {t}| == |pcs| - 1 by { assert (pcs - {t}).Keys == pcs.Keys - {t}; }
    }
  }

  /** How many of the first `n` turns were steps, and not waiting. */
  ghost function Steps(calls: map<Thread, Call>, schedule: seq<Thread>, n: nat): nat
    requires n <= |schedule| && forall t :: t in schedule ==> t in calls
  {
    if n == 0 then 0 else
    Steps(calls, schedule, n - 1) + if Step(calls, Run(calls, schedule, n - 1), schedule[n - 1]).Some? then 1 else 0
  }

  lemma TurnDecreases(calls: map<Thread, Call>, s: State, t: Thread)
    requires t in calls && s.pcs.Keys == calls.Keys
    ensures Total(Turn(calls, s, t).pcs) + (if Step(calls, s, t).Some? then 1 else 0) <= Total(s.pcs)
  {
    if Step(calls, s, t).Some? { StepDecreases(calls, s, t); }
  }

  /** No schedule, however long, takes more than six steps for each call. */
  lemma {:induction false} StepsBounded(calls: map<Thread, Call>, schedule: seq<Thread>, n: nat)
    requires n <= |schedule| && forall t :: t in schedule ==> t in calls
    ensures Steps(calls, schedule, n) + Total(Run(calls, schedule, n).pcs) <= 6 * |calls|
  {
    if n == 0 {
      TotalOfStart(Init(calls).pcs);
      assert Init(calls).pcs.Keys == calls.Keys;
    } else {
      StepsBounded(calls, schedule, n - 1);
      TurnDecreases(calls, Run(calls, schedule, n - 1), schedule[n - 1]);
    }
  }

  /** No thread can go on. */
  ghost predicate Maximal(calls: map<Thread, Call>, s: State)
    requires s.pcs.Keys == calls.Keys
  {
    forall t :: t in calls ==> Step(calls, s, t).None?
  }

  /** A run that no thread can continue has finished all calls, and all of them have returned a string if
      and only if no generator that was called panicked. */
  lemma MaximalRunFinishes(calls: map<Thread, Call>, schedule: seq<Thread>, n: nat)
    requires n <= |schedule| && forall t :: t in schedule ==> t in calls
    requires Maximal(calls, Run(calls, schedule, n))
    ensures var s := Run(calls, schedule, n);
      && (forall t :: t in calls ==> Finished(s.pcs[t]))
      && ((forall t :: t in calls ==> s.pcs[t].Done?) <==> !SomePanicked(calls, s))
  {
    var s := Run(calls, schedule, n);
    RunInv(calls, schedule, n);
    forall t | t in calls ensures Finished(s.pcs[t]) {
      if !Finished(s.pcs[t]) {
        var u := SomeThreadCanGo(calls, s, t);
      }
    }
    forall t | t in calls ensures s.pcs[t].Panicked? ==> SomePanicked(calls, s) {
      PanicsOnlyIfPoisoned(calls, schedule, n, t);
    }
    if i :| 0 <= i < |s.called| && s.called[i] in calls && calls[s.called[i]].generated.None? {
      PanicsOnlyIfPoisoned(calls, schedule, n, s.called[i]);
    }
  }

  /** If the generators depend on the key alone and none panics, a run that no thread can continue has
      given every caller what its own generator would have returned. */
  lemma MaximalRunReturns(calls: map<Thread, Call>, schedule: seq<Thread>, n: nat, t: Thread)
    requires n <= |schedule| && (forall x :: x in schedule ==> x in calls) && t in calls
    requires forall x :: x in calls ==> calls[x].generated.Some?
    requires forall x, y :: x in calls && y in calls && calls[x].key == calls[y].key ==>
               calls[x].generated == calls[y].generated
    requires Maximal(calls, Run(calls, schedule, n))
    ensures Run(calls, schedule, n).pcs[t] == Done(calls[t].generated.value)
  {
    MaximalRunFinishes(calls, schedule, n);
    MemoIsDirect(calls, schedule, n, t);
  }
}
