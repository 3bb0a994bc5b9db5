/** `write_to_sink` and `read_bytes_source_into`: bytes across the module/host boundary. */
module BytesIo {
  import opened Bsatn

  datatype SinkStatus = Written(n: nat) | NoSuchBytes | NoSpace

  /** A host sink. On success it took some of the bytes offered, at least one if there were any. */
  class Sink {
    var received: seq<Byte>

    method Write(bytes: seq<Byte>) returns (status: SinkStatus)
      modifies this
      ensures status.Written? ==> status.n <= |bytes| && (bytes != [] ==> status.n > 0)
      ensures received == old(received) + if status.Written? then bytes[..status.n] else []
    {
      var outcome: nat :| outcome < 3;
      if outcome == 0 { return NoSuchBytes; }
      if outcome == 1 { return NoSpace; }
      var n: nat :| n <= |bytes| && (bytes != [] ==> n > 0);
      received := received + bytes[..n];
      status := Written(n);
    }
  }

  datatype Outcome = Delivered | Panicked(sent: nat)

  /** Delivers exactly the bytes of `all`, in order; a panic leaves a prefix of them delivered. */
  method WriteToSink(sink: Sink, all: seq<Byte>) returns (outcome: Outcome)
    modifies sink
    ensures outcome.Delivered? ==> sink.received == old(sink.received) + all
    ensures outcome.Panicked? ==> outcome.sent <= |all| && sink.received == old(sink.received) + all[..outcome.sent]
  {
    var buf := all;
    ghost var sent := 0;
    while true
      invariant 0 <= sent <= |all| && buf == all[sent..] && sink.received == old(sink.received) + all[..sent]
      decreases |buf|
    {
      var status := sink.Write(buf);
      match status
      case Written(n) =>
        assert all[..sent] + buf[..n] == all[..sent + n];
        buf, sent := buf[n..], sent + n;
        if buf == [] { return Delivered; }
      case NoSuchBytes => return Panicked(|all| - |buf|);
      case NoSpace => return Panicked(|all| - |buf|);
    }
  }

  /** A byte of a `Vec`'s allocation: written, or whatever the allocator left there. */
  datatype Cell = Init(b: Byte) | Uninit

  function Cells(bytes: seq<Byte>): (cs: seq<Cell>)
    ensures |cs| == |bytes| && forall i :: 0 <= i < |cs| ==> cs[i] == Init(bytes[i])
  {
    seq(|bytes|, i requires 0 <= i < |bytes| => Init(bytes[i]))
  }

  function Gap(n: nat): (cs: seq<Cell>)
    ensures |cs| == n && forall i :: 0 <= i < n ==> cs[i] == Uninit
  {
    seq(n, _ => Uninit)
  }

  /** A call of the host with `spare` bytes of room, which wrote `bytes`. */
  datatype ReadCall = ReadCall(spare: nat, bytes: seq<Byte>)

  /** What a call may do when `left` is left: write some of it, at least one byte if both sides can, and
      say whether that was the last of it. A `greedy` host writes as much as fits. */
  ghost predicate MayRead(left: seq<Byte>, c: ReadCall, last: bool, greedy: bool) {
    && c.bytes <= left && |c.bytes| <= c.spare
    && (c.spare > 0 && left != [] ==> c.bytes != [])
    && (last ==> c.bytes == left) && (left == [] ==> last)
    && (greedy ==> |c.bytes| == if c.spare <= |left| then c.spare else |left|)
  }

  /** A host source and its calls so far. */
  class Source {
    var left: seq<Byte>
    ghost var calls: seq<ReadCall>
    ghost const greedy: bool

    constructor (bytes: seq<Byte>, greedy: bool)
      ensures left == bytes && calls == [] && this.greedy == greedy
    {
      left, calls := bytes, [];
      this.greedy := greedy;
    }

    method Read(spare: nat) returns (bytes: seq<Byte>, last: bool)
      modifies this
      ensures calls == old(calls) + [ReadCall(spare, bytes)]
      ensures MayRead(old(left), ReadCall(spare, bytes), last, greedy) && left == old(left)[|bytes|..]
    {
      var n := if spare <= |left| then spare else |left|;
      bytes, left := left[..n], left[n..];
      last := left == [];
      calls := calls + [ReadCall(spare, bytes)];
    }
  }

  /** What a run of reads amounts to: the bytes taken from the source, the cells the buffer grew by,
      whether bytes arrived after a read that did not fill its room, and whether all reads did. */
  datatype Log = Log(taken: seq<Byte>, data: seq<Cell>, torn: bool, filled: bool)

  ghost predicate Accounts(log: Log) {
    && |log.taken| <= |log.data|
    && (!log.torn ==> log.data == Cells(log.taken) + Gap(|log.data| - |log.taken|))
    && (!log.torn ==> (log.filled <==> |log.data| == |log.taken|))
    && (log.torn ==> !log.filled && exists i :: 0 <= i < |log.taken| && log.data[i] == Uninit)
  }

  function After(log: Log, bytes: seq<Byte>, spare: nat): Log
    requires |bytes| <= spare
  {
    Log(log.taken + bytes, log.data + Cells(bytes) + Gap(spare - |bytes|),
        log.torn || (!log.filled && bytes != []), log.filled && |bytes| == spare)
  }

  /** How much room each call was given: all there was at first; then none after a call that did not fill
      its room, whose rest counts as filled, and at least 1024 bytes after one that did. */
  ghost predicate Rooms(calls: seq<ReadCall>, first: nat) {
    forall i :: 0 <= i < |calls| ==> RoomOk(calls, first, i)
  }

  ghost predicate RoomOk(calls: seq<ReadCall>, first: nat, i: nat)
    requires i < |calls|
  {
    if i == 0 then calls[i].spare == first
    else if |calls[i - 1].bytes| == calls[i - 1].spare then calls[i].spare >= 1024
    else calls[i].spare == 0
  }

  /** The room the next call may be given. */
  ghost predicate NextRoom(calls: seq<ReadCall>, first: nat, spare: nat) {
    if calls == [] then spare == first
    else if |calls[|calls| - 1].bytes| == calls[|calls| - 1].spare then spare >= 1024
    else spare == 0
  }

  /** What the loop does about the room: a call that filled it gets more, one that did not leaves none. */
  lemma NextRoomAfter(calls: seq<ReadCall>, first: nat, c: ReadCall, spare: nat)
    requires if |c.bytes| == c.spare then spare >= 1024 else spare == 0
    ensures NextRoom(calls + [c], first, spare)
  {}

  lemma RoomsPush(calls: seq<ReadCall>, first: nat, c: ReadCall)
    requires Rooms(calls, first) && NextRoom(calls, first, c.spare)
    ensures Rooms(calls + [c], first)
  {
    var all := calls + [c];
    forall i | 0 <= i < |all| ensures RoomOk(all, first, i) {
      if i < |calls| { assert RoomOk(calls, first, i); }
    }
  }

  ghost predicate Fits(calls: seq<ReadCall>) {
    forall i :: 0 <= i < |calls| ==> |calls[i].bytes| <= calls[i].spare
  }

  /** What a run of calls amounts to for the buffer that offers all its room each time. */
  ghost function LogOf(calls: seq<ReadCall>): Log
    requires Fits(calls)
  {
    if calls == [] then Log([], [], false, true) else
    var last := calls[|calls| - 1];
    After(LogOf(calls[..|calls| - 1]), last.bytes, last.spare)
  }

  lemma LogOfNext(calls: seq<ReadCall>, last: ReadCall)
    requires |last.bytes| <= last.spare && Fits(calls)
    ensures Fits(calls + [last]) && LogOf(calls + [last]) == After(LogOf(calls), last.bytes, last.spare)
  {
    assert (calls + [last])[..|calls|] == calls;
  }

  lemma AfterAccounts(log: Log, bytes: seq<Byte>, spare: nat)
    requires Accounts(log) && |bytes| <= spare
    ensures Accounts(After(log, bytes, spare))
  {
    var log' := After(log, bytes, spare);
    if log.torn {
      var i :| 0 <= i < |log.taken| && log.data[i] == Uninit;
      assert log'.data[i] == Uninit;
    } else if log'.torn {
      assert log.data[|log.taken|] == Uninit;
      assert log'.data[|log.taken|] == Uninit;
    } else {
      assert log'.data == Cells(log'.taken) + Gap(|log'.data| - |log'.taken|);
    }
  }

  /** The bytes taken are a prefix of the data exactly when none arrived after an unfilled read, and
      are all of it exactly when every read filled its room. */
  lemma AccountsMeans(log: Log)
    requires Accounts(log)
    ensures Cells(log.taken) <= log.data <==> !log.torn
    ensures Cells(log.taken) == log.data <==> log.filled
  {
    if log.torn {
      var i :| 0 <= i < |log.taken| && log.data[i] == Uninit;
      assert Cells(log.taken)[i] != log.data[i];
    } else {
      assert log.data[..|log.taken|] == Cells(log.taken);
    }
  }

  lemma AfterData(buf: seq<Cell>, log: Log, bytes: seq<Byte>, spare: nat)
    requires |bytes| <= spare
    ensures buf + log.data + Cells(bytes) + Gap(spare - |bytes|) == buf + After(log, bytes, spare).data
  {}

  /** Between two reads: what has been taken from `all`, what is left, and what the buffer grew by. */
  ghost predicate Reading(buf: seq<Cell>, buf': seq<Cell>, calls: seq<ReadCall>, all: seq<Byte>, left: seq<Byte>,
                          greedy: bool)
  {
    && Fits(calls) && Accounts(LogOf(calls))
    && buf' == buf + LogOf(calls).data && all == LogOf(calls).taken + left
    && (greedy ==> !LogOf(calls).torn && (left != [] ==> LogOf(calls).filled))
  }

  lemma ReadNext(buf: seq<Cell>, buf': seq<Cell>, calls: seq<ReadCall>, all: seq<Byte>, left: seq<Byte>,
                 greedy: bool, c: ReadCall)
    requires Reading(buf, buf', calls, all, left, greedy) && c.bytes <= left && |c.bytes| <= c.spare
    requires greedy ==> |c.bytes| == if c.spare <= |left| then c.spare else |left|
    ensures Reading(buf, buf' + Cells(c.bytes) + Gap(c.spare - |c.bytes|), calls + [c], all, left[|c.bytes|..], greedy)
  {
    AfterAccounts(LogOf(calls), c.bytes, c.spare);
    AfterData(buf, LogOf(calls), c.bytes, c.spare);
    LogOfNext(calls, c);
    assert left == c.bytes + left[|c.bytes|..];
  }

  lemma ReadDone(buf: seq<Cell>, buf': seq<Cell>, calls: seq<ReadCall>, all: seq<Byte>, greedy: bool)
    requires Reading(buf, buf', calls, all, [], greedy)
    ensures LogOf(calls).taken == all
    ensures buf + Cells(all) <= buf' <==> !LogOf(calls).torn
    ensures buf + Cells(all) == buf' <==> LogOf(calls).filled
  {
    assert LogOf(calls).taken + [] == LogOf(calls).taken;
    AccountsMeans(LogOf(calls));
    Cancel(buf, Cells(all), LogOf(calls).data);
  }

  /** One call, and what it leaves the buffer at. */
  method ReadOnce(source: Source, buf': seq<Cell>, spare: nat, ghost buf: seq<Cell>, ghost calls: seq<ReadCall>,
                  ghost all: seq<Byte>)
    returns (buf'': seq<Cell>, filled: bool, last: bool, ghost c: ReadCall)
    requires Reading(buf, buf', calls, all, source.left, source.greedy)
    modifies source
    ensures c.spare == spare && (filled <==> |c.bytes| == c.spare)
    ensures MayRead(old(source.left), c, last, source.greedy) && source.left == old(source.left)[|c.bytes|..]
    ensures source.calls == old(source.calls) + [c]
    ensures Reading(buf, buf'', calls + [c], all, source.left, source.greedy)
  {
    ghost var left := source.left;
    var bytes;
    bytes, last := source.Read(spare);
    c := ReadCall(spare, bytes);
    ReadNext(buf, buf', calls, all, left, source.greedy, c);
    buf'', filled := buf' + Cells(bytes) + Gap(spare - |bytes|), spare == |bytes|;
  }

  /** `buf.reserve(1024)` when the room was filled. */
  method NextCapacity(len: nat, filled: bool) returns (capacity: nat)
    ensures if filled then capacity >= len + 1024 else capacity == len
  {
    capacity := len;
    if filled { capacity :| capacity >= len + 1024; }
  }

  /** A call that has room takes something, unless it is the last; one without room fills it. */
  lemma Progress(left: seq<Byte>, c: ReadCall, last: bool, greedy: bool)
    requires MayRead(left, c, last, greedy)
    ensures var left' := left[|c.bytes|..];
      && (last ==> left' == []) && (|left'| < |left| || last || (c.spare == 0 && left' == left))
      && (c.spare == 0 ==> |c.bytes| == c.spare)
  {}

  /** One turn of the loop. */
  method ReadTurn(source: Source, buf': seq<Cell>, capacity: nat, ghost buf: seq<Cell>, ghost calls: seq<ReadCall>,
                  ghost all: seq<Byte>, ghost first: nat)
    returns (buf'': seq<Cell>, capacity': nat, last: bool, ghost c: ReadCall)
    requires |buf'| <= capacity && Reading(buf, buf', calls, all, source.left, source.greedy)
    requires Rooms(calls, first) && NextRoom(calls, first, capacity - |buf'|)
    modifies source
    ensures source.calls == old(source.calls) + [c] && |buf''| <= capacity' && (last ==> source.left == [])
    ensures Reading(buf, buf'', calls + [c], all, source.left, source.greedy)
    ensures Rooms(calls + [c], first) && NextRoom(calls + [c], first, capacity' - |buf''|)
    ensures |source.left| < |old(source.left)| || last || (capacity == |buf'| && source.left == old(source.left))
    ensures capacity == |buf'| ==> capacity' > |buf''|
  {
    var filled;
    buf'', filled, last, c := ReadOnce(source, buf', capacity - |buf'|, buf, calls, all);
    RoomsPush(calls, first, c);
    capacity' := NextCapacity(|buf''|, filled);
    NextRoomAfter(calls, first, c, capacity' - |buf''|);
    Progress(old(source.left), c, last, source.greedy);
  }

  /** `read_bytes_source_into`, whose buffer has `cap` bytes of capacity. Every read makes the buffer
      as long as its capacity, however few bytes it got. */
  method ReadBytesSource(source: Source, buf: seq<Cell>, cap: nat) returns (buf': seq<Cell>, ghost calls: seq<ReadCall>)
    requires |buf| <= cap
    modifies source
    ensures source.left == [] && source.calls == old(source.calls) + calls
    ensures Fits(calls) && LogOf(calls).taken == old(source.left) && buf' == buf + LogOf(calls).data
    ensures buf + Cells(old(source.left)) <= buf' <==> !LogOf(calls).torn
    ensures buf + Cells(old(source.left)) == buf' <==> LogOf(calls).filled
    ensures source.greedy ==> !LogOf(calls).torn
    ensures Rooms(calls, cap - |buf|)
  {
    var capacity := cap;
    buf', calls := buf, [];
    while true
      invariant source.calls == old(source.calls) + calls && |buf'| <= capacity
      invariant Reading(buf, buf', calls, old(source.left), source.left, source.greedy)
      invariant Rooms(calls, cap - |buf|) && NextRoom(calls, cap - |buf|, capacity - |buf'|)
      decreases |source.left|, capacity == |buf'|
    {
      var last;
      ghost var c;
      buf', capacity, last, c := ReadTurn(source, buf', capacity, buf, calls, old(source.left), cap - |buf|);
      calls := calls + [c];
      if last {
        ReadDone(buf, buf', calls, old(source.left), source.greedy);
        return;
      }
    }
  }

  lemma Cancel(a: seq<Cell>, b: seq<Cell>, c: seq<Cell>)
    ensures a + b <= a + c <==> b <= c
    ensures a + b == a + c <==> b == c
  {
    if a + b <= a + c {
      assert forall i :: 0 <= i < |b| ==> b[i] == (a + b)[|a| + i] == (a + c)[|a| + i] == c[i];
    }
    if b <= c {
      assert c == b + c[|b|..];
      assert a + c == a + b + c[|b|..];
    }
  }

  /** Three bytes in two parts, the first of which does not fill the four bytes of room: the third byte
      ends up behind two bytes that nothing wrote. */
  lemma TornExample()
    ensures var a, b, c := ReadCall(4, [1, 2]), ReadCall(0, []), ReadCall(1024, [3]);
      && MayRead([1, 2, 3], a, false, false) && MayRead([3], b, false, false) && MayRead([3], c, true, false)
      && Fits([a, b, c]) && LogOf([a, b, c]).torn
  {
    assert [1, 2, 3][..2] == [1, 2];
    TornLog(ReadCall(4, [1, 2]), ReadCall(0, []), ReadCall(1024, [3]));
  }

  lemma TornLog(a: ReadCall, b: ReadCall, c: ReadCall)
    requires |a.bytes| < a.spare && |b.bytes| <= b.spare && 0 < |c.bytes| <= c.spare
    ensures Fits([a, b, c]) && LogOf([a, b, c]).torn
  {
    LogOfNext([], a);
    LogOfNext([a], b);
    LogOfNext([a, b], c);
    assert [] + [a] == [a] && [a] + [b] == [a, b] && [a, b] + [c] == [a, b, c];
  }
}
