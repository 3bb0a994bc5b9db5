/** Several table scans at once on one host, opened, advanced and dropped in any order. */
module ManyScans {
  import opened Options
  import opened Bsatn
  import opened HostRows
  import opened ScanArgs
  import opened Seqs
  import opened TableScan

  ghost function Inners(its: seq<TableIter>): set<RowIter> {
    set it | it in its :: it.inner
  }

  ghost function Buffers(its: seq<TableIter>): set<Buffer> {
    set it | it in its :: it.buf
  }

  /** Scan `b` has nothing in common with `a` but the host. */
  ghost predicate Apart(a: TableIter, b: TableIter) {
    && a != b && a.inner != b.inner && a.buf != b.buf
    && a.inner.host == b.inner.host && a.inner.mine != b.inner.mine
  }

  ghost predicate Separate(its: seq<TableIter>) {
    forall i, j :: 0 <= i < |its| && 0 <= j < |its| && i != j ==> Apart(its[i], its[j])
  }

  /** Scans of one host, each with its own session and buffer. */
  ghost predicate Together(its: seq<TableIter>, host: Host)
    reads host, its, Inners(its), Buffers(its)
  {
    && host.Valid() && Separate(its)
    && forall i :: 0 <= i < |its| ==> its[i].inner.host == host && its[i].Valid()
  }

  ghost function Pendings(its: seq<TableIter>): (ps: seq<seq<Value>>)
    reads its
    ensures |ps| == |its| && forall k :: 0 <= k < |its| ==> ps[k] == its[k].Pending()
  {
    seq(|its|, k requires 0 <= k < |its| reads its => its[k].Pending())
  }

  /** The next row of scan `k`; all other scans are as before. */
  method NextOf(its: seq<TableIter>, host: Host, k: nat) returns (row: Option<Value>)
    requires Together(its, host) && k < |its|
    modifies its[k], its[k].inner`raw, host, its[k].buf
    ensures Together(its, host) && host.misuses == old(host.misuses) && host.OnlyTouched(old(its[k].inner.raw))
    ensures row == if old(its[k].Pending()) == [] then None else Some(old(its[k].Pending())[0])
    ensures its[k].Pending() == if row.None? then [] else old(its[k].Pending())[1..]
    ensures forall j :: 0 <= j < |its| && j != k ==> its[j].Pending() == old(its[j].Pending())
  {
    ghost var h := its[k].inner.raw;
    row := its[k].Next();
    forall j | 0 <= j < |its| && j != k ensures its[j].Valid() && its[j].Pending() == old(its[j].Pending()) {
      assert Apart(its[k], its[j]);
      its[j].Untouched(h);
    }
  }

  /** One more scan, on any free handle, which may have been used before. */
  method OpenAnother(its: seq<TableIter>, host: Host, ty: Type, table: seq<Value>, h: Handle, buf: Buffer)
    returns (it: TableIter)
    requires Together(its, host) && GoodRows(ty, table) && h != INVALID && h !in host.iters
    requires buf.Valid() && forall i :: 0 <= i < |its| ==> its[i].buf != buf
    modifies host, buf
    ensures fresh(it) && fresh(it.inner) && it.buf == buf && it.inner.host == host && it.Valid()
    ensures host.Opened(h) && it.inner.mine == old(host.sessions)
    ensures it.Pending() == if ZeroSized(ty) then [] else table
    ensures Together(its, host) && forall j :: 0 <= j < |its| ==> its[j].Pending() == old(its[j].Pending())
    ensures forall j :: 0 <= j < |its| ==> Apart(it, its[j]) && Apart(its[j], it)
  {
    it := OpenScan(ty, table, host, h, buf);
    forall j | 0 <= j < |its| ensures its[j].Valid() && its[j].Pending() == old(its[j].Pending()) {
      its[j].UntouchedByOpen(h);
    }
  }

  lemma TogetherPush(its: seq<TableIter>, it: TableIter, host: Host)
    requires Together(its, host) && it.inner.host == host && it.Valid()
    requires forall j :: 0 <= j < |its| ==> Apart(it, its[j]) && Apart(its[j], it)
    ensures Together(its + [it], host) && Pendings(its + [it]) == Pendings(its) + [it.Pending()]
  {
    SeparatePush(its, it);
  }

  lemma SeparatePush(its: seq<TableIter>, it: TableIter)
    requires Separate(its) && forall j :: 0 <= j < |its| ==> Apart(it, its[j]) && Apart(its[j], it)
    ensures Separate(its + [it])
  {}

  /** Scan `k` is dropped; the others go on. */
  method DropOf(its: seq<TableIter>, host: Host, k: nat)
    requires Together(its, host) && k < |its|
    modifies host
    ensures host.Valid() && host.ended[its[k].inner.mine] == 1 && host.misuses == old(host.misuses)
    ensures host.OnlyTouched(its[k].inner.raw)
    ensures forall j :: 0 <= j < |its| && j != k ==> its[j].Valid() && its[j].Pending() == old(its[j].Pending())
  {
    its[k].inner.Drop();
    forall j | 0 <= j < |its| && j != k ensures its[j].Valid() && its[j].Pending() == old(its[j].Pending()) {
      assert Apart(its[k], its[j]);
      its[j].Untouched(its[k].inner.raw);
    }
  }

  lemma TogetherWithout(its: seq<TableIter>, host: Host, k: nat)
    requires k < |its| && host.Valid() && Separate(its)
    requires forall j :: 0 <= j < |its| && j != k ==> its[j].inner.host == host && its[j].Valid()
    ensures Together(Without(its, k), host) && Pendings(Without(its, k)) == Without(Pendings(its), k)
  {
    SeparateWithout(its, k);
  }

  lemma SeparateWithout(its: seq<TableIter>, k: nat)
    requires Separate(its) && k < |its|
    ensures Separate(Without(its, k))
  {}

  ghost function Mines(its: seq<TableIter>): set<nat> {
    set it | it in its :: it.inner.mine
  }

  /** Every session there ever was has ended, once, or belongs to a scan that is still there. */
  ghost predicate Accounted(sessions: nat, ended: multiset<nat>, mines: set<nat>) {
    forall s: nat :: s < sessions ==> ended[s] == 1 || s in mines
  }

  lemma AccountedAfter(sessions: nat, ended: multiset<nat>, ended': multiset<nat>, mines: set<nat>, m: nat)
    requires Accounted(sessions, ended, mines) && forall s :: s != m ==> ended'[s] == ended[s]
    ensures m in mines ==> Accounted(sessions, ended', mines)
    ensures ended'[m] == 1 ==> Accounted(sessions, ended', mines - {m})
  {}

  lemma AccountedOpen(sessions: nat, ended: multiset<nat>, mines: set<nat>)
    requires Accounted(sessions, ended, mines)
    ensures Accounted(sessions + 1, ended, mines + {sessions})
  {}

  /** What a module does, in any order: open a scan, advance the `k`th one there is, drop it. */
  datatype ScanStep =
    | OpenOne(ty: Type, table: seq<Value>)
    | NextOne(k: nat)
    | DropOne(k: nat)

  ghost predicate GoodStep(step: ScanStep) {
    step.OpenOne? ==> GoodRows(step.ty, step.table)
  }

  /** The rows each scan has before it, as if it were alone with a copy of its table; and the answer to
      each step. */
  function RowsBefore(ty: Type, table: seq<Value>): seq<Value> {
    if ZeroSized(ty) then [] else table
  }

  function LiveStep(live: seq<seq<Value>>, step: ScanStep): seq<seq<Value>> {
    match step
    case OpenOne(ty, table) => live + [RowsBefore(ty, table)]
    case NextOne(k) => if k < |live| && live[k] != [] then live[k := live[k][1..]] else live
    case DropOne(k) => if k < |live| then Without(live, k) else live
  }

  function Answer(live: seq<seq<Value>>, step: ScanStep): Option<Value> {
    if step.NextOne? && step.k < |live| && live[step.k] != [] then Some(live[step.k][0]) else None
  }

  function LiveAfter(steps: seq<ScanStep>, n: nat): seq<seq<Value>>
    requires n <= |steps|
  {
    if n == 0 then [] else LiveStep(LiveAfter(steps, n - 1), steps[n - 1])
  }

  /** The scans there are, what they have before them, and the sessions of the host. */
  ghost predicate Counted(its: seq<TableIter>, host: Host, live: seq<seq<Value>>)
    reads host, its, Inners(its), Buffers(its)
  {
    Together(its, host) && Pendings(its) == live && Accounted(host.sessions, host.ended, Mines(its))
  }

  /** The same, with buffers from the pool. */
  ghost predicate Scanning(its: seq<TableIter>, host: Host, pool: BufPool, live: seq<seq<Value>>)
    reads host, its, Inners(its), Buffers(its), pool, pool.bufs, pool.held
  {
    Counted(its, host, live) && pool.Valid() && pool.held == Buffers(its)
  }

  lemma {:induction false} FreeHandle(used: set<Handle>) returns (h: Handle)
    ensures h != INVALID && h !in used
  {
    h := AboveAll(used);
  }

  lemma {:induction false} AboveAll(used: set<Handle>) returns (h: Handle)
    ensures h > 0 && forall u :: u in used ==> u < h
  {
    h := 1;
    if used != {} {
      var u :| u in used;
      var g := AboveAll(used - {u});
      h := if g <= u then u + 1 else g;
      assert forall x :: x in used ==> x == u || x in used - {u};
    }
  }

  /** The session that work on scan `k` touches is its own. */
  lemma OwnSession(its: seq<TableIter>, host: Host, k: nat)
    requires Together(its, host) && k < |its|
    ensures its[k].inner.raw in host.session ==> host.session[its[k].inner.raw] == its[k].inner.mine
    ensures its[k].inner.mine in Mines(its)
  {
    assert its[k].Valid();
  }

  lemma LiveNext(live: seq<seq<Value>>, live': seq<seq<Value>>, k: nat)
    requires k < |live| == |live'| && live'[k] == (if live[k] == [] then [] else live[k][1..])
    requires forall j :: 0 <= j < |live| && j != k ==> live'[j] == live[j]
    ensures live' == LiveStep(live, NextOne(k))
  {}

  method NextPending(its: seq<TableIter>, host: Host, k: nat) returns (row: Option<Value>)
    requires Together(its, host) && k < |its|
    modifies its[k], its[k].inner`raw, host, its[k].buf
    ensures Together(its, host) && host.misuses == old(host.misuses) && host.OnlyTouched(old(its[k].inner.raw))
    ensures row == Answer(old(Pendings(its)), NextOne(k))
    ensures Pendings(its) == LiveStep(old(Pendings(its)), NextOne(k))
  {
    ghost var live := Pendings(its);
    row := NextOf(its, host, k);
    LiveNext(live, Pendings(its), k);
  }

  method NextCounted(its: seq<TableIter>, host: Host, k: nat, ghost live: seq<seq<Value>>) returns (row: Option<Value>)
    requires Counted(its, host, live) && k < |its|
    modifies its[k], its[k].inner`raw, host, its[k].buf
    ensures Counted(its, host, LiveStep(live, NextOne(k))) && row == Answer(live, NextOne(k))
    ensures host.sessions == old(host.sessions) && host.misuses == old(host.misuses)
  {
    ghost var h, ended := its[k].inner.raw, host.ended;
    OwnSession(its, host, k);
    row := NextPending(its, host, k);
    host.StillEnded(h);
    AccountedAfter(host.sessions, ended, host.ended, Mines(its), its[k].inner.mine);
  }

  lemma HeldBuffer(its: seq<TableIter>, host: Host, pool: BufPool, k: nat)
    requires k < |its| && Together(its, host) && pool.held == Buffers(its)
    ensures its[k].buf in pool.held && its[k].buf.Valid()
  {
    assert its[k].Valid();
  }

  method NextStep(its: seq<TableIter>, host: Host, pool: BufPool, k: nat, ghost live: seq<seq<Value>>)
    returns (row: Option<Value>)
    requires Scanning(its, host, pool, live) && k < |its|
    modifies its[k], its[k].inner`raw, host, its[k].buf
    ensures Scanning(its, host, pool, LiveStep(live, NextOne(k))) && row == Answer(live, NextOne(k))
    ensures host.sessions == old(host.sessions) && host.misuses == old(host.misuses)
  {
    HeldBuffer(its, host, pool, k);
    row := NextCounted(its, host, k, live);
    HeldBuffer(its, host, pool, k);
    pool.HolderWrote(its[k].buf);
  }

  method DropCounted(its: seq<TableIter>, host: Host, k: nat, ghost live: seq<seq<Value>>)
    requires Counted(its, host, live) && k < |its|
    modifies host
    ensures Counted(Without(its, k), host, Without(live, k))
    ensures host.sessions == old(host.sessions) && host.misuses == old(host.misuses)
  {
    ghost var ended := host.ended;
    OwnSession(its, host, k);
    DropOf(its, host, k);
    host.StillEnded(its[k].inner.raw);
    AccountedAfter(host.sessions, ended, host.ended, Mines(its), its[k].inner.mine);
    MinesWithout(its, k);
    TogetherWithout(its, host, k);
    assert Pendings(its) == live;
  }

  lemma MinesWithout(its: seq<TableIter>, k: nat)
    requires Separate(its) && k < |its|
    ensures Mines(Without(its, k)) == Mines(its) - {its[k].inner.mine}
    ensures Buffers(Without(its, k)) == Buffers(its) - {its[k].buf} && its[k].buf in Buffers(its)
  {
    var rest := Without(its, k);
    forall it | it in its && it != its[k] ensures it in rest {
      var j :| 0 <= j < |its| && its[j] == it;
      assert rest[if j < k then j else j - 1] == it;
    }
    forall it | it in rest ensures it in its && Apart(its[k], it) {
      var j :| 0 <= j < |rest| && rest[j] == it;
    }
  }

  /** The buffer of a dropped scan goes back to the pool. */
  method GiveBack(its: seq<TableIter>, host: Host, pool: BufPool, buf: Buffer, ghost live: seq<seq<Value>>)
    requires Counted(its, host, live) && buf !in Buffers(its)
    requires pool.Valid() && pool.held == Buffers(its) + {buf}
    modifies pool, buf
    ensures Scanning(its, host, pool, live) && pool.All() == old(pool.All())
  {
    pool.Drop(buf);
  }

  method DropStep(its: seq<TableIter>, host: Host, pool: BufPool, k: nat, ghost live: seq<seq<Value>>)
    requires Scanning(its, host, pool, live) && k < |its|
    modifies host, pool, its[k].buf
    ensures Scanning(Without(its, k), host, pool, Without(live, k)) && pool.All() == old(pool.All())
    ensures host.sessions == old(host.sessions) && host.misuses == old(host.misuses)
  {
    DropCounted(its, host, k, live);
    MinesWithout(its, k);
    GiveBack(Without(its, k), host, pool, its[k].buf, Without(live, k));
  }

  method OpenPending(its: seq<TableIter>, host: Host, ty: Type, table: seq<Value>, h: Handle, buf: Buffer)
    returns (it: TableIter)
    requires Together(its, host) && GoodRows(ty, table) && h != INVALID && h !in host.iters
    requires buf.Valid() && forall i :: 0 <= i < |its| ==> its[i].buf != buf
    modifies host, buf
    ensures fresh(it) && fresh(it.inner) && it.buf == buf && buf.Valid()
    ensures host.Opened(h) && it.inner.mine == old(host.sessions)
    ensures Together(its + [it], host) && Pendings(its + [it]) == old(Pendings(its)) + [RowsBefore(ty, table)]
  {
    ghost var live := Pendings(its);
    it := OpenAnother(its, host, ty, table, h, buf);
    assert Pendings(its) == live;
    TogetherPush(its, it, host);
  }

  lemma MinesPush(its: seq<TableIter>, it: TableIter)
    ensures Mines(its + [it]) == Mines(its) + {it.inner.mine} && Buffers(its + [it]) == Buffers(its) + {it.buf}
  {}

  lemma NotAmong(its: seq<TableIter>, buf: Buffer)
    requires buf !in Buffers(its)
    ensures forall i :: 0 <= i < |its| ==> its[i].buf != buf
  {
    forall i | 0 <= i < |its| ensures its[i].buf != buf { assert its[i].buf in Buffers(its); }
  }

  method OpenCounted(its: seq<TableIter>, host: Host, ty: Type, table: seq<Value>, h: Handle, buf: Buffer,
                     ghost live: seq<seq<Value>>)
    returns (it: TableIter)
    requires Counted(its, host, live) && GoodRows(ty, table) && h != INVALID && h !in host.iters
    requires buf.Valid() && buf !in Buffers(its)
    modifies host, buf
    ensures fresh(it) && fresh(it.inner) && it.buf == buf && buf.Valid()
    ensures Counted(its + [it], host, live + [RowsBefore(ty, table)])
    ensures host.sessions == old(host.sessions) + 1 && host.misuses == old(host.misuses)
  {
    NotAmong(its, buf);
    AccountedOpen(host.sessions, host.ended, Mines(its));
    it := OpenPending(its, host, ty, table, h, buf);
    MinesPush(its, it);
  }

  method TakeFor(its: seq<TableIter>, host: Host, pool: BufPool, ghost live: seq<seq<Value>>) returns (buf: Buffer)
    requires Scanning(its, host, pool, live)
    modifies pool
    ensures Counted(its, host, live) && pool.Valid() && pool.held == Buffers(its) + {buf} && buf !in Buffers(its)
    ensures fresh(pool.All() - old(pool.All())) && (fresh(buf) || buf in old(pool.All()))
  {
    buf := pool.Take();
  }

  /** The host is free to hand out any handle that is not in use. */
  method OpenStep(its: seq<TableIter>, host: Host, pool: BufPool, ty: Type, table: seq<Value>,
                  ghost live: seq<seq<Value>>)
    returns (it: TableIter)
    requires Scanning(its, host, pool, live) && GoodRows(ty, table)
    modifies host, pool, pool.All()
    ensures Scanning(its + [it], host, pool, live + [RowsBefore(ty, table)])
    ensures fresh(it) && fresh(it.inner) && fresh(pool.All() - old(pool.All()))
    ensures host.sessions == old(host.sessions) + 1 && host.misuses == old(host.misuses)
  {
    var buf := TakeFor(its, host, pool, live);
    ghost var free := FreeHandle(host.iters.Keys);
    var h: Handle :| h != INVALID && h !in host.iters;
    it := OpenHeld(its, host, pool, ty, table, h, buf, live);
  }

  method OpenHeld(its: seq<TableIter>, host: Host, pool: BufPool, ty: Type, table: seq<Value>, h: Handle, buf: Buffer,
                  ghost live: seq<seq<Value>>)
    returns (it: TableIter)
    requires Counted(its, host, live) && GoodRows(ty, table) && h != INVALID && h !in host.iters
    requires pool.Valid() && pool.held == Buffers(its) + {buf} && buf !in Buffers(its)
    modifies host, buf
    ensures fresh(it) && fresh(it.inner) && Scanning(its + [it], host, pool, live + [RowsBefore(ty, table)])
    ensures host.sessions == old(host.sessions) + 1 && host.misuses == old(host.misuses)
  {
    assert buf in pool.held;
    it := OpenCounted(its, host, ty, table, h, buf, live);
    MinesPush(its, it);
    pool.HolderWrote(buf);
  }

  method DoScanStep(its: seq<TableIter>, host: Host, pool: BufPool, step: ScanStep, ghost live: seq<seq<Value>>)
    returns (its': seq<TableIter>, out: Option<Value>)
    requires Scanning(its, host, pool, live) && GoodStep(step)
    modifies its, Inners(its), host, pool, pool.All()
    ensures Scanning(its', host, pool, LiveStep(live, step)) && out == Answer(live, step)
    ensures host.sessions == old(host.sessions) + (if step.OpenOne? then 1 else 0) && host.misuses == old(host.misuses)
    ensures fresh(pool.All() - old(pool.All()))
    ensures forall it :: it in its' ==> it in its || (fresh(it) && fresh(it.inner))
  {
    its', out := its, None;
    match step
    case OpenOne(ty, table) =>
      var it := OpenStep(its, host, pool, ty, table, live);
      its' := its + [it];
    case NextOne(k) => if k < |its| { out := NextStep(its, host, pool, k, live); }
    case DropOne(k) =>
      if k < |its| {
        DropStep(its, host, pool, k, live);
        its' := Without(its, k);
      }
  }

  function Opens(steps: seq<ScanStep>, n: nat): nat
    requires n <= |steps|
  {
    if n == 0 then 0 else Opens(steps, n - 1) + if steps[n - 1].OpenOne? then 1 else 0
  }

  ghost predicate AnswerAt(steps: seq<ScanStep>, n: nat, out: Option<Value>)
    requires n < |steps|
  {
    out == Answer(LiveAfter(steps, n), steps[n])
  }

  /** All answers of a run so far. */
  ghost predicate Answers(steps: seq<ScanStep>, outs: seq<Option<Value>>) {
    |outs| <= |steps| && forall n :: 0 <= n < |outs| ==> AnswerAt(steps, n, outs[n])
  }

  lemma AnswersNext(steps: seq<ScanStep>, outs: seq<Option<Value>>, out: Option<Value>)
    requires Answers(steps, outs) && |outs| < |steps| && AnswerAt(steps, |outs|, out)
    ensures Answers(steps, outs + [out])
  {
    var outs' := outs + [out];
    forall n | 0 <= n < |outs'| ensures AnswerAt(steps, n, outs'[n]) {
      if n < |outs| { assert outs'[n] == outs[n]; }
    }
  }

  /** Between two steps of a run on a host that had `first` sessions. */
  ghost predicate Running(its: seq<TableIter>, host: Host, pool: BufPool, steps: seq<ScanStep>,
                          outs: seq<Option<Value>>, first: nat)
    reads host, its, Inners(its), Buffers(its), pool, pool.bufs, pool.held
  {
    && Answers(steps, outs) && Scanning(its, host, pool, LiveAfter(steps, |outs|))
    && host.sessions == first + Opens(steps, |outs|)
  }

  method OneStep(its: seq<TableIter>, host: Host, pool: BufPool, steps: seq<ScanStep>, outs: seq<Option<Value>>,
                 ghost first: nat)
    returns (its': seq<TableIter>, outs': seq<Option<Value>>)
    requires |outs| < |steps| && Running(its, host, pool, steps, outs, first) && GoodStep(steps[|outs|])
    modifies its, Inners(its), host, pool, pool.All()
    ensures |outs'| == |outs| + 1 && Running(its', host, pool, steps, outs', first)
    ensures host.misuses == old(host.misuses) && fresh(pool.All() - old(pool.All()))
    ensures forall it :: it in its' ==> it in its || (fresh(it) && fresh(it.inner))
  {
    ghost var live := LiveAfter(steps, |outs|);
    var out;
    its', out := DoScanStep(its, host, pool, steps[|outs|], live);
    AnswersNext(steps, outs, out);
    outs' := outs + [out];
  }

  method FirstSteps(host: Host, pool: BufPool, steps: seq<ScanStep>, n: nat)
    returns (its: seq<TableIter>, outs: seq<Option<Value>>)
    requires Scanning([], host, pool, []) && n <= |steps| && forall i :: 0 <= i < |steps| ==> GoodStep(steps[i])
    modifies host, pool, pool.All()
    ensures |outs| == n && Running(its, host, pool, steps, outs, old(host.sessions))
    ensures host.misuses == old(host.misuses)
    ensures fresh(pool.All() - old(pool.All())) && forall it :: it in its ==> fresh(it) && fresh(it.inner)
  {
    its, outs := [], [];
    if n > 0 {
      its, outs := FirstSteps(host, pool, steps, n - 1);
      its, outs := OneStep(its, host, pool, steps, outs, old(host.sessions));
    }
  }

  lemma BuffersWithout(its: seq<TableIter>, k: nat)
    requires k < |its|
    ensures Buffers(Without(its, k)) <= Buffers(its) && its[k].buf in Buffers(its)
  {
    assert its[k] in its;
    forall it | it in Without(its, k) ensures it in its {
      var j :| 0 <= j < |its| - 1 && Without(its, k)[j] == it;
      assert its[if j < k then j else j + 1] == it;
    }
  }

  /** The scans that are left go out of scope. */
  method DropRest(its: seq<TableIter>, host: Host, pool: BufPool, ghost live: seq<seq<Value>>)
    requires Scanning(its, host, pool, live)
    modifies host, pool, Buffers(its)
    ensures Scanning([], host, pool, [])
    ensures host.sessions == old(host.sessions) && host.misuses == old(host.misuses)
    decreases |its|
  {
    if its != [] {
      var n := |its| - 1;
      BuffersWithout(its, n);
      DropStep(its, host, pool, n, live);
      DropRest(Without(its, n), host, pool, Without(live, n));
    }
  }

  /** Any run, from a host and a pool without live iterators and held buffers: every step of every scan
      is answered as if the scan were alone with its table, whatever handles and buffers are reused. In
      the end every session has ended exactly once, no call was made with a dead handle, and all
      buffers are back. */
  method RunScans(host: Host, pool: BufPool, steps: seq<ScanStep>) returns (outs: seq<Option<Value>>)
    requires host.Valid() && Accounted(host.sessions, host.ended, {}) && pool.Valid() && pool.held == {}
    requires forall n :: 0 <= n < |steps| ==> GoodStep(steps[n])
    modifies host, pool, pool.All()
    ensures |outs| == |steps| && Answers(steps, outs)
    ensures host.Valid() && host.sessions == old(host.sessions) + Opens(steps, |steps|)
    ensures Accounted(host.sessions, host.ended, {}) && host.misuses == old(host.misuses)
    ensures pool.Valid() && pool.held == {}
  {
    var its;
    its, outs := FirstSteps(host, pool, steps, |steps|);
    DropRest(its, host, pool, LiveAfter(steps, |steps|));
  }
}
