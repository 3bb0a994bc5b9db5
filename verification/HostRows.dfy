/** Row iterators across the module/host boundary: the host's table of iterators and its calls, and
    `RowIter` on the module side. */
module HostRows {
  import opened Bsatn
  import opened Seqs

  type Handle = nat

  /** `RowIter::INVALID`. */
  const INVALID: Handle := 0

  const ROW_ITER_CHUNK_SIZE := 32 * 1024

  /** What `row_iter_bsatn_advance` can answer. */
  datatype Reply =
    | Exhausted(bytes: seq<Byte>)
    | Rows(bytes: seq<Byte>)
    | TooSmall(need: nat)
    | NoSuchIter

  ghost predicate Taken(items: seq<seq<Byte>>, k: nat, bytes: seq<Byte>, spare: nat) {
    k <= |items| && bytes == Flat(items[..k]) && |bytes| <= spare
  }

  /** The documented answer to a call with `spare` bytes of room, `items` being left: any number of
      whole items that fit, at least one unless that was all; "too small" only if the next item does
      not fit. An `eager` host reports exhaustion together with the last item. */
  ghost predicate Documented(items: seq<seq<Byte>>, spare: nat, reply: Reply, items': seq<seq<Byte>>, eager: bool) {
    match reply
    case Exhausted(bytes) => Taken(items, |items|, bytes, spare) && items' == []
    case Rows(bytes) =>
      exists k: nat :: k >= 1 && Taken(items, k, bytes, spare) && items' == items[k..] && (eager ==> k < |items|)
    case TooSmall(need) => items != [] && spare < need == |items[0]| && items' == items
    case NoSuchIter => false
  }

  lemma RowsTaken(items: seq<seq<Byte>>, spare: nat, bytes: seq<Byte>, items': seq<seq<Byte>>, eager: bool)
    returns (k: nat)
    requires Documented(items, spare, Rows(bytes), items', eager)
    ensures k >= 1 && Taken(items, k, bytes, spare) && items' == items[k..] && (eager ==> k < |items|)
  {
    k :| k >= 1 && Taken(items, k, bytes, spare) && items' == items[k..] && (eager ==> k < |items|);
  }

  /** The contract lets a host that is not eager hand out the last item without saying that it was the
      last. */
  lemma LateExhaustionAllowed(item: seq<Byte>)
    ensures Documented([item], |item|, Rows(item), [], false) && !Documented([item], |item|, Rows(item), [], true)
  {
    assert Flat([item][..1]) == item + Flat([]) == item;
    assert Taken([item], 1, item, |item|) && [item][1..] == [];
  }

  ghost predicate NonEmptyItems(items: seq<seq<Byte>>) {
    forall i :: 0 <= i < |items| ==> items[i] != []
  }

  /** The host's copying loop: whole items, as long as they fit. */
  method FillBuffer(all: seq<seq<Byte>>, spare: nat) returns (written: seq<Byte>, items: seq<seq<Byte>>, ghost k: nat)
    requires NonEmptyItems(all)
    ensures Taken(all, k, written, spare) && items == all[k..] && NonEmptyItems(items)
    ensures items != [] ==> spare < |written| + |items[0]|
    ensures k > 0 <==> written != []
  {
    items, written, k := all, [], 0;
    while items != [] && |items[0]| <= spare - |written|
      invariant k <= |all| && items == all[k..] && written == Flat(all[..k]) && |written| <= spare
      invariant k > 0 <==> written != []
      decreases |items|
    {
      FlatPush(all[..k], all[k]);
      assert all[..k] + [all[k]] == all[..k + 1];
      written, items := written + items[0], items[1..];
      k := k + 1;
    }
  }

  lemma AddedThenRemoved<T>(m: map<Handle, T>, h: Handle, x: T)
    requires h !in m
    ensures m[h := x] - {h} == m
  {}

  /** The host's table of live iterators. Handles are reused once free, so each use is a session of
      its own; `ended` counts how often each session was destroyed, `replies` are the answers to all
      advancing calls so far, and `misuses` counts the calls with a handle that was not live. */
  class Host {
    var iters: map<Handle, seq<seq<Byte>>>
    ghost var session: map<Handle, nat>
    ghost var sessions: nat
    ghost var ended: multiset<nat>
    ghost var replies: seq<Reply>
    ghost var misuses: nat
    ghost const eager: bool

    ghost predicate Valid()
      reads this
    {
      && session.Keys == iters.Keys && INVALID !in iters
      && (forall h :: h in iters ==> NonEmptyItems(iters[h]))
      && (forall h :: h in session ==> session[h] < sessions && ended[session[h]] == 0)
      && (forall g, h :: g in session && h in session && session[g] == session[h] ==> g == h)
      && (forall s :: ended[s] <= 1 && (s >= sessions ==> ended[s] == 0))
    }

    constructor (eager: bool)
      ensures Valid() && iters == map[] && sessions == 0 && replies == [] && misuses == 0 && this.eager == eager
    {
      iters, session, sessions, ended, replies, misuses := map[], map[], 0, multiset{}, [], 0;
      this.eager := eager;
    }

    /** A scan call: any free handle other than the invalid one. */
    method Open(items: seq<seq<Byte>>, h: Handle)
      requires Valid() && h != INVALID && h !in iters && NonEmptyItems(items)
      modifies this
      ensures Valid() && iters == old(iters)[h := items] && session == old(session)[h := old(sessions)]
      ensures Opened(h) && replies == old(replies)
    {
      AddedThenRemoved(iters, h, items);
      AddedThenRemoved(session, h, sessions);
      iters, session, sessions := iters[h := items], session[h := sessions], sessions + 1;
    }

    /** Nothing but the session on handle `h` was touched. */
    twostate predicate OnlyTouched(h: Handle)
      reads this
    {
      && sessions == old(sessions)
      && iters - {h} == old(iters) - {h} && session - {h} == old(session) - {h}
      && (if h in old(session) then ended[old(session)[h] := 0] == old(ended)[old(session)[h] := 0]
          else ended == old(ended))
      && (h in session ==> h in old(session) && session[h] == old(session)[h])
    }

    /** A session was opened on handle `h`, and nothing else happened. */
    twostate predicate Opened(h: Handle)
      reads this
    {
      && h !in old(iters) && iters - {h} == old(iters) && session - {h} == old(session)
      && sessions == old(sessions) + 1 && ended == old(ended) && misuses == old(misuses)
    }

    twostate lemma StillEnded(h: Handle)
      requires OnlyTouched(h)
      ensures forall s :: (h in old(session) ==> old(session)[h] != s) ==> ended[s] == old(ended)[s]
    {
      if h in old(session) {
        forall s | old(session)[h] != s ensures ended[s] == old(ended)[s] {
          assert ended[old(session)[h] := 0][s] == ended[s];
        }
      }
    }

    /** The answer to the last call was that the iterator is exhausted. */
    ghost predicate LastExhausted()
      reads this
    {
      replies != [] && replies[|replies| - 1].Exhausted?
    }

    /** `row_iter_bsatn_advance`, promising what is documented. */
    method Advance(h: Handle, spare: nat) returns (reply: Reply)
      requires Valid()
      modifies this
      ensures Valid() && OnlyTouched(h) && replies == old(replies) + [reply]
      ensures misuses == old(misuses) + if h in old(iters) then 0 else 1
      ensures h !in old(iters) ==> reply == NoSuchIter && h !in iters
      ensures h in old(iters) ==>
                Documented(old(iters)[h], spare, reply, if h in iters then iters[h] else [], eager)
      ensures h in old(iters) && reply.Exhausted? ==> h !in iters && ended[old(session)[h]] == 1
      ensures h in old(iters) && !reply.Exhausted? ==> h in iters
    {
      if h in iters {
        reply := AdvanceLive(h, spare);
      } else {
        reply, misuses := NoSuchIter, misuses + 1;
      }
      replies := replies + [reply];
    }

    method AdvanceLive(h: Handle, spare: nat) returns (reply: Reply)
      requires Valid() && h in iters
      modifies this
      ensures Valid() && OnlyTouched(h) && replies == old(replies) && misuses == old(misuses)
      ensures Documented(old(iters)[h], spare, reply, if h in iters then iters[h] else [], eager)
      ensures if reply.Exhausted? then h !in iters && ended[old(session)[h]] == 1 else h in iters
    {
      var all := iters[h];
      var written, items;
      ghost var k;
      written, items, k := FillBuffer(all, spare);
      assert all[..|all|] == all && all[0..] == all;
      if items != [] && written == [] {
        reply := TooSmall(|items[0]|);
      } else if items == [] {
        End(h);
        reply := Exhausted(written);
      } else {
        iters := iters[h := items];
        reply := Rows(written);
        assert k >= 1 && Taken(all, k, written, spare);
      }
    }

    /** Destroying a live iterator. */
    method End(h: Handle)
      requires Valid() && h in iters
      modifies this
      ensures Valid() && OnlyTouched(h) && h !in iters && ended[old(session)[h]] == 1
      ensures replies == old(replies) && misuses == old(misuses)
    {
      iters, session, ended := iters - {h}, session - {h}, ended + multiset{session[h]};
    }

    /** `row_iter_bsatn_close`. */
    method Close(h: Handle) returns (ok: bool)
      requires Valid()
      modifies this
      ensures Valid() && OnlyTouched(h) && h !in iters && (ok <==> h in old(iters)) && replies == old(replies)
      ensures ok ==> ended[old(session)[h]] == 1
      ensures misuses == old(misuses) + if ok then 0 else 1
    {
      ok := h in iters;
      if ok { End(h); } else { misuses := misuses + 1; }
    }
  }

  /** A `Vec<u8>`: its bytes and its capacity. */
  class Buffer {
    var data: seq<Byte>
    var cap: nat

    ghost predicate Valid()
      reads this
    {
      |data| <= cap
    }

    constructor (cap: nat)
      ensures Valid() && data == [] && this.cap == cap
    {
      data, this.cap := [], cap;
    }

    method Reserve(additional: nat)
      requires Valid()
      modifies this
      ensures Valid() && data == old(data) && cap >= |data| + additional
    {
      if cap < |data| + additional { cap := |data| + additional; }
    }

    /** The host's write into the spare capacity, and `set_len`. */
    method Append(bytes: seq<Byte>)
      requires Valid() && |data| + |bytes| <= cap
      modifies this
      ensures Valid() && data == old(data) + bytes && cap == old(cap)
    {
      data := data + bytes;
    }

    /** `BufWriter`: append, growing as needed. */
    method Write(bytes: seq<Byte>)
      requires Valid()
      modifies this
      ensures Valid() && data == old(data) + bytes
    {
      Reserve(|bytes|);
      Append(bytes);
    }

    method Clear()
      requires Valid()
      modifies this
      ensures Valid() && data == []
    {
      data := [];
    }
  }

  /** The module's end of an iterator. */
  class RowIter {
    var raw: Handle
    const host: Host
    ghost const mine: nat

    /** Either this iterator's session is over, ended once, or `raw` is its live handle. */
    ghost predicate Valid()
      reads this, host
    {
      && host.Valid() && mine < host.sessions
      && (raw == INVALID ==> host.ended[mine] == 1)
      && (raw != INVALID ==> raw in host.iters && host.session[raw] == mine)
    }

    ghost function Items(): seq<seq<Byte>>
      reads this, host
    {
      if raw in host.iters then host.iters[raw] else []
    }

    constructor (host: Host, h: Handle)
      requires host.Valid() && h in host.iters
      ensures Valid() && this.host == host && raw == h && mine == host.session[h]
    {
      this.host, raw, mine := host, h, host.session[h];
    }

    predicate IsExhausted()
      reads this
    {
      raw == INVALID
    }

    /** The bytes of the first `k` items have been appended to `buf`. */
    twostate predicate ReadItems(buf: Buffer, h: Handle, items: seq<seq<Byte>>, k: nat, n: nat)
      reads this, host, buf
    {
      && k <= |items| && buf.data == old(buf.data) + Flat(items[..k]) && n == |Flat(items[..k])|
      && (raw == h || raw == INVALID)
      && (IsExhausted() ==> k == |items|)
      && (!IsExhausted() ==> k >= 1 && Items() == items[k..])
      && (host.eager && k == |items| ==> IsExhausted())
      && (IsExhausted() <==> host.LastExhausted())
    }

    /** Opening a session leaves this iterator alone. */
    twostate lemma UntouchedByOpen(h: Handle)
      requires old(Valid()) && raw == old(raw) && host.Valid() && host.Opened(h)
      ensures Valid() && Items() == old(Items())
    {
      if raw != INVALID { assert raw in host.iters - {h} && raw in host.session - {h}; }
    }

    /** Work on another session leaves this iterator alone. */
    twostate lemma Untouched(h: Handle)
      requires old(Valid()) && raw == old(raw) && host.Valid() && host.OnlyTouched(h)
      requires h in old(host.session) ==> old(host.session)[h] != mine
      ensures Valid() && Items() == old(Items())
    {
      if raw != INVALID {
        assert raw in old(host.iters) - {h} && raw in host.iters - {h} && raw in host.session - {h};
      } else if h in old(host.session) {
        assert host.ended[old(host.session)[h] := 0][mine] == host.ended[mine];
      }
    }

    /** One call to the host. When it asks for more room, nothing has changed. */
    method TryRead(buf: Buffer) returns (need: nat, n: nat, ghost k: nat)
      requires Valid() && !IsExhausted() && buf.Valid()
      modifies this`raw, host, buf
      ensures Valid() && buf.Valid() && host.OnlyTouched(old(raw)) && buf.cap == old(buf.cap)
      ensures host.misuses == old(host.misuses) && |host.replies| == |old(host.replies)| + 1
      ensures need == 0 ==> ReadItems(buf, old(raw), old(Items()), k, n)
      ensures need > 0 ==> raw == old(raw) && Items() == old(Items()) && buf.data == old(buf.data)
      ensures need > 0 ==> Items() != [] && need == |Items()[0]| && need > buf.cap - |buf.data|
    {
      ghost var items := Items();
      need, n, k := 0, 0, 0;
      var spare := buf.cap - |buf.data|;
      var reply := host.Advance(raw, spare);
      if reply.TooSmall? {
        need := reply.need;
      } else {
        n, k := Accept(buf, reply, items, spare);
      }
    }

    /** Takes over the bytes of a reply. */
    method Accept(buf: Buffer, reply: Reply, ghost items: seq<seq<Byte>>, ghost spare: nat)
      returns (n: nat, ghost k: nat)
      requires reply.Exhausted? || reply.Rows?
      requires buf.Valid() && |buf.data| + spare == buf.cap
      requires Documented(items, spare, reply, Items(), host.eager)
      modifies this`raw, buf
      ensures buf.Valid() && buf.cap == old(buf.cap) && raw == if reply.Exhausted? then INVALID else old(raw)
      ensures k <= |items| && buf.data == old(buf.data) + Flat(items[..k]) && n == |Flat(items[..k])|
      ensures if reply.Exhausted? then k == |items| else k >= 1 && Items() == items[k..] && (host.eager ==> k < |items|)
    {
      if reply.Rows? {
        k := RowsTaken(items, spare, reply.bytes, Items(), host.eager);
      } else {
        k := |items|;
        raw := INVALID;
      }
      buf.Append(reply.bytes);
      n := |reply.bytes|;
    }

    /** Appends some whole items to `buf`, keeping what it held, with at most two calls. */
    method Read(buf: Buffer) returns (n: nat, ghost k: nat, ghost retries: nat)
      requires Valid() && !IsExhausted() && buf.Valid()
      modifies this`raw, host, buf
      ensures Valid() && buf.Valid() && host.OnlyTouched(old(raw))
      ensures retries <= 1 && |host.replies| == |old(host.replies)| + 1 + retries
      ensures host.misuses == old(host.misuses)
      ensures ReadItems(buf, old(raw), old(Items()), k, n)
    {
      retries := 0;
      var need;
      need, n, k := TryRead(buf);
      while need > 0
        invariant Valid() && buf.Valid() && host.OnlyTouched(old(raw)) && retries <= 1
        invariant host.misuses == old(host.misuses) && |host.replies| == |old(host.replies)| + 1 + retries
        invariant need == 0 ==> ReadItems(buf, old(raw), old(Items()), k, n)
        invariant need > 0 ==> raw == old(raw) && Items() == old(Items()) && buf.data == old(buf.data) && retries == 0
        invariant need > 0 ==> Items() != [] && need == |Items()[0]|
        decreases need > 0
      {
        buf.Reserve(need);
        retries := retries + 1;
        need, n, k := TryRead(buf);
      }
    }

    /** `Drop`: closes the handle unless the host already destroyed it. */
    method Drop()
      requires Valid()
      modifies host
      ensures host.Valid() && host.ended[mine] == 1 && host.OnlyTouched(raw)
      ensures host.replies == old(host.replies) && host.misuses == old(host.misuses)
    {
      if IsExhausted() { return; }
      var ok := host.Close(raw);
    }
  }
}
