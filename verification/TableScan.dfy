/** Whole table scans: `ChunkedWriter` on the host, `TableIter` in the module, and the lookup on a
    unique index. */
module TableScan {
  import opened Options
  import opened Bsatn
  import opened HostRows
  import opened Seqs

  /** Rows the host can hold: values of the row type that have an encoding. */
  ghost predicate GoodRows(ty: Type, rows: seq<Value>) {
    forall i :: 0 <= i < |rows| ==> Encodable(ty, rows[i])
  }

  ghost function EncodeRows(ty: Type, rows: seq<Value>): seq<Byte>
    requires GoodRows(ty, rows)
  {
    ElemsDefined(ty, rows);
    EncodeElems(ty, rows).value
  }

  /** Each item is the encoding of a group of whole rows. */
  ghost predicate GroupsMatch(ty: Type, groups: seq<seq<Value>>, items: seq<seq<Byte>>) {
    && |groups| == |items|
    && forall i :: 0 <= i < |groups| ==> GoodRows(ty, groups[i]) && EncodeRows(ty, groups[i]) == items[i]
  }

  lemma EncodeRowsFirst(ty: Type, rows: seq<Value>)
    requires GoodRows(ty, rows) && rows != []
    ensures GoodRows(ty, rows[1..]) && Encodable(ty, rows[0])
    ensures EncodeRows(ty, rows) == ToBytes(ty, rows[0]) + EncodeRows(ty, rows[1..])
  {
    assert Encodable(ty, rows[0]);
    ElemsDefined(ty, rows);
    ElemsDefined(ty, rows[1..]);
  }

  lemma EncodeRowsPush(ty: Type, rows: seq<Value>, last: Value)
    requires GoodRows(ty, rows) && Encodable(ty, last)
    ensures GoodRows(ty, rows + [last]) && EncodeRows(ty, rows + [last]) == EncodeRows(ty, rows) + ToBytes(ty, last)
  {
    EncodeRowsConcat(ty, rows, [last]);
    EncodeRowsFirst(ty, [last]);
  }

  /** Rows of a type that takes no bytes leave no trace in the bytes; all others do. */
  lemma {:induction false} EncodeRowsEmpty(ty: Type, rows: seq<Value>)
    requires GoodRows(ty, rows)
    ensures EncodeRows(ty, rows) == [] <==> rows == [] || ZeroSized(ty)
  {
    if rows != [] {
      EncodeRowsFirst(ty, rows);
      EmptyEncoding(ty, rows[0]);
      EncodeRowsEmpty(ty, rows[1..]);
    }
  }

  lemma {:induction false} FlatEncodes(ty: Type, groups: seq<seq<Value>>, items: seq<seq<Byte>>)
    requires GroupsMatch(ty, groups, items)
    ensures GoodRows(ty, Flat(groups)) && EncodeRows(ty, Flat(groups)) == Flat(items)
  {
    if groups != [] {
      FlatEncodes(ty, groups[1..], items[1..]);
      assert GoodRows(ty, groups[0]) && EncodeRows(ty, groups[0]) == items[0];
      EncodeRowsConcat(ty, groups[0], Flat(groups[1..]));
    }
  }

  lemma {:induction false} EncodeRowsConcat(ty: Type, a: seq<Value>, b: seq<Value>)
    requires GoodRows(ty, a) && GoodRows(ty, b)
    ensures GoodRows(ty, a + b) && EncodeRows(ty, a + b) == EncodeRows(ty, a) + EncodeRows(ty, b)
  {
    if a == [] {
      assert a + b == b;
    } else {
      EncodeRowsFirst(ty, a);
      EncodeRowsConcat(ty, a[1..], b);
      assert GoodRows(ty, a + b);
      EncodeRowsFirst(ty, a + b);
      assert (a + b)[1..] == a[1..] + b;
    }
  }

  /** A chunk that was not over the threshold before its last row. */
  ghost predicate CutInTime(ty: Type, group: seq<Value>) {
    && group != [] && GoodRows(ty, group)
    && |EncodeRows(ty, group[..|group| - 1])| <= ROW_ITER_CHUNK_SIZE
  }

  /** Chunks are cut at the first row boundary past the threshold, the last one excepted. */
  ghost predicate CutAtThreshold(ty: Type, groups: seq<seq<Value>>, chunks: seq<seq<Byte>>) {
    && (forall i :: 0 <= i < |groups| ==> CutInTime(ty, groups[i]))
    && (forall i :: 0 <= i < |chunks| - 1 ==> |chunks[i]| > ROW_ITER_CHUNK_SIZE)
  }

  /** While rows are collected: `done` are in full chunks, and in the current one. */
  ghost predicate Collecting(ty: Type, done: seq<Value>, groups: seq<seq<Value>>, chunks: seq<seq<Byte>>,
                             group: seq<Value>, curr: seq<Byte>)
  {
    && NonEmptyItems(chunks) && GroupsMatch(ty, groups, chunks)
    && (forall i :: 0 <= i < |groups| ==> CutInTime(ty, groups[i]))
    && (forall i :: 0 <= i < |chunks| ==> |chunks[i]| > ROW_ITER_CHUNK_SIZE)
    && GoodRows(ty, group) && EncodeRows(ty, group) == curr && Flat(groups) + group == done
  }

  lemma CollectRow(ty: Type, done: seq<Value>, groups: seq<seq<Value>>, chunks: seq<seq<Byte>>, group: seq<Value>,
                   curr: seq<Byte>, row: Value)
    requires Collecting(ty, done, groups, chunks, group, curr) && |curr| <= ROW_ITER_CHUNK_SIZE && Encodable(ty, row)
    ensures Collecting(ty, done + [row], groups, chunks, group + [row], curr + ToBytes(ty, row))
    ensures CutInTime(ty, group + [row])
  {
    EncodeRowsPush(ty, group, row);
    assert (group + [row])[..|group|] == group;
    Regroup(Flat(groups), group, [row]);
  }

  lemma Flushed(ty: Type, done: seq<Value>, groups: seq<seq<Value>>, chunks: seq<seq<Byte>>, group: seq<Value>,
                curr: seq<Byte>)
    requires Collecting(ty, done, groups, chunks, group, curr) && CutInTime(ty, group) && |curr| > ROW_ITER_CHUNK_SIZE
    ensures Collecting(ty, done, groups + [group], chunks + [curr], [], [])
  {
    GroupsPush(ty, groups, chunks, group, curr);
    assert Flat(groups + [group]) + [] == done;
  }

  lemma CutLast(ty: Type, group: seq<Value>)
    requires GoodRows(ty, group) && group != [] && |EncodeRows(ty, group)| <= ROW_ITER_CHUNK_SIZE
    ensures CutInTime(ty, group)
  {
    var front, last := group[..|group| - 1], group[|group| - 1];
    assert group == front + [last] && Encodable(ty, last);
    EncodeRowsPush(ty, front, last);
  }

  lemma LastChunk(ty: Type, done: seq<Value>, groups: seq<seq<Value>>, chunks: seq<seq<Byte>>, group: seq<Value>,
                  curr: seq<Byte>)
    requires Collecting(ty, done, groups, chunks, group, curr) && 0 < |curr| <= ROW_ITER_CHUNK_SIZE
    ensures NonEmptyItems(chunks + [curr]) && GroupsMatch(ty, groups + [group], chunks + [curr])
    ensures CutAtThreshold(ty, groups + [group], chunks + [curr]) && Flat(groups + [group]) == done
  {
    EncodeRowsEmpty(ty, group);
    CutLast(ty, group);
    GroupsPush(ty, groups, chunks, group, curr);
  }

  lemma NoLastChunk(ty: Type, done: seq<Value>, groups: seq<seq<Value>>, chunks: seq<seq<Byte>>, group: seq<Value>)
    requires Collecting(ty, done, groups, chunks, group, [])
    ensures CutAtThreshold(ty, groups, chunks) && (!ZeroSized(ty) ==> Flat(groups) == done)
  {
    EncodeRowsEmpty(ty, group);
    if group == [] { assert Flat(groups) + [] == Flat(groups); }
  }

  /** `ChunkedWriter::collect_iter`: cuts at row boundaries once a chunk passes the threshold. Rows
      of a zero-sized type end up in no chunk at all. */
  method CollectIter(ty: Type, rows: seq<Value>) returns (chunks: seq<seq<Byte>>, ghost groups: seq<seq<Value>>)
    requires GoodRows(ty, rows)
    ensures NonEmptyItems(chunks) && GroupsMatch(ty, groups, chunks) && CutAtThreshold(ty, groups, chunks)
    ensures Flat(groups) == if ZeroSized(ty) then [] else rows
  {
    chunks, groups := [], [];
    var curr: seq<Byte> := [];
    ghost var group: seq<Value> := [];
    for i := 0 to |rows|
      invariant Collecting(ty, rows[..i], groups, chunks, group, curr) && |curr| <= ROW_ITER_CHUNK_SIZE
    {
      assert Encodable(ty, rows[i]) && rows[..i + 1] == rows[..i] + [rows[i]];
      CollectRow(ty, rows[..i], groups, chunks, group, curr, rows[i]);
      curr, group := curr + ToBytes(ty, rows[i]), group + [rows[i]];
      if |curr| > ROW_ITER_CHUNK_SIZE {
        Flushed(ty, rows[..i + 1], groups, chunks, group, curr);
        chunks, groups := chunks + [curr], groups + [group];
        curr, group := [], [];
      }
    }
    assert rows[..|rows|] == rows;
    if curr != [] {
      LastChunk(ty, rows, groups, chunks, group, curr);
      chunks, groups := chunks + [curr], groups + [group];
    } else {
      NoLastChunk(ty, rows, groups, chunks, group);
    }
    if ZeroSized(ty) { ZeroGroups(ty, groups, chunks); }
  }

  lemma GroupsPush(ty: Type, groups: seq<seq<Value>>, items: seq<seq<Byte>>, group: seq<Value>, item: seq<Byte>)
    requires NonEmptyItems(items) && GroupsMatch(ty, groups, items) && item != []
    requires GoodRows(ty, group) && EncodeRows(ty, group) == item
    ensures NonEmptyItems(items + [item]) && GroupsMatch(ty, groups + [group], items + [item])
    ensures Flat(groups + [group]) == Flat(groups) + group
  {
    FlatPush(groups, group);
  }

  lemma ZeroGroups(ty: Type, groups: seq<seq<Value>>, chunks: seq<seq<Byte>>)
    requires ZeroSized(ty) && NonEmptyItems(chunks) && GroupsMatch(ty, groups, chunks)
    ensures groups == []
  {
    if groups != [] {
      assert GoodRows(ty, groups[0]) && EncodeRows(ty, groups[0]) == chunks[0] != [];
      EncodeRowsEmpty(ty, groups[0]);
    }
  }

  /** What the bytes still in the buffer and the items still at the host stand for. */
  ghost predicate Describes(ty: Type, bytes: seq<Byte>, inBuf: seq<Value>, items: seq<seq<Byte>>,
                            groups: seq<seq<Value>>)
  {
    && GoodRows(ty, inBuf) && EncodeRows(ty, inBuf) == bytes
    && GroupsMatch(ty, groups, items)
    && (ZeroSized(ty) ==> inBuf == [] && groups == [])
  }

  lemma DescribesNext(ty: Type, bytes: seq<Byte>, inBuf: seq<Value>, items: seq<seq<Byte>>, groups: seq<seq<Value>>)
    requires Describes(ty, bytes, inBuf, items, groups) && bytes != []
    ensures inBuf != [] && Decode(ty, bytes).Ok? && Decode(ty, bytes).v == inBuf[0]
    ensures |Decode(ty, bytes).rest| <= |bytes| && bytes[|bytes| - |Decode(ty, bytes).rest|..] == Decode(ty, bytes).rest
    ensures Describes(ty, Decode(ty, bytes).rest, inBuf[1..], items, groups)
  {
    EncodeRowsFirst(ty, inBuf);
    RoundTrip(ty, inBuf[0], EncodeRows(ty, inBuf[1..]));
  }

  lemma DescribesEmpty(ty: Type, inBuf: seq<Value>, items: seq<seq<Byte>>, groups: seq<seq<Value>>)
    requires Describes(ty, [], inBuf, items, groups)
    ensures inBuf == []
  {
    EncodeRowsEmpty(ty, inBuf);
  }

  lemma DescribesNothing(ty: Type, bytes: seq<Byte>, items: seq<seq<Byte>>, groups: seq<seq<Value>>)
    requires Describes(ty, bytes, [], items, groups)
    ensures bytes == []
  {
    EncodeRowsEmpty(ty, []);
  }

  lemma DescribesRead(ty: Type, items: seq<seq<Byte>>, groups: seq<seq<Value>>, k: nat)
    requires Describes(ty, [], [], items, groups) && k <= |items|
    ensures Describes(ty, Flat(items[..k]), Flat(groups[..k]), items[k..], groups[k..])
    ensures Flat(groups) == Flat(groups[..k]) + Flat(groups[k..])
  {
    FlatEncodes(ty, groups[..k], items[..k]);
    FlatSplit(groups, k);
  }

  /** `bsatn::from_reader` on the cursor: one row, and the position after it. */
  method DecodeAt(ty: Type, data: seq<Byte>, pos: nat, ghost inBuf: seq<Value>, ghost items: seq<seq<Byte>>,
                  ghost groups: seq<seq<Value>>)
    returns (row: Value, pos': nat)
    requires pos < |data| && Describes(ty, data[pos..], inBuf, items, groups)
    ensures pos <= pos' <= |data| && inBuf != [] && row == inBuf[0]
    ensures Describes(ty, data[pos'..], inBuf[1..], items, groups)
  {
    var bytes := data[pos..];
    DescribesNext(ty, bytes, inBuf, items, groups);
    var d := Decode(ty, bytes);
    row, pos' := d.v, |data| - |d.rest|;
    assert data[pos'..] == bytes[|bytes| - |d.rest|..];
  }

  class TableIter {
    const ty: Type
    const inner: RowIter
    const buf: Buffer
    var pos: nat
    ghost var inBuf: seq<Value>
    ghost var groups: seq<seq<Value>>

    ghost predicate Valid()
      reads this, inner, inner.host, buf
    {
      && inner.Valid() && buf.Valid() && pos <= |buf.data|
      && Describes(ty, buf.data[pos..], inBuf, inner.Items(), groups)
    }

    /** The rows not yet yielded, in order. */
    ghost function Pending(): seq<Value>
      reads this
    {
      inBuf + Flat(groups)
    }

    /** `new_with_buf`: whatever the buffer held is cleared. */
    constructor (ty: Type, inner: RowIter, buf: Buffer, ghost groups: seq<seq<Value>>)
      requires inner.Valid() && buf.Valid()
      requires GroupsMatch(ty, groups, inner.Items()) && (ZeroSized(ty) ==> groups == [])
      modifies buf
      ensures Valid() && Pending() == Flat(groups) && inBuf == []
      ensures this.inner == inner && this.ty == ty && this.buf == buf
    {
      this.ty, this.inner, this.buf, pos := ty, inner, buf, 0;
      inBuf, this.groups := [], groups;
      new;
      buf.Clear();
    }

    predicate IsExhausted()
      reads this, inner, buf
    {
      pos >= |buf.data| && inner.IsExhausted()
    }

    /** Nothing has happened to this iterator itself. */
    twostate predicate Idle()
      reads this, inner, buf
    {
      && inner.raw == old(inner.raw) && buf.data == old(buf.data) && buf.cap == old(buf.cap)
      && pos == old(pos) && inBuf == old(inBuf) && groups == old(groups)
    }

    /** Work on another session leaves it alone. */
    twostate lemma Untouched(h: Handle)
      requires old(Valid()) && Idle() && inner.host.Valid() && inner.host.OnlyTouched(h)
      requires h in old(inner.host.session) ==> old(inner.host.session)[h] != inner.mine
      ensures Valid() && Pending() == old(Pending())
    {
      inner.Untouched(h);
    }

    /** Opening another scan leaves it alone. */
    twostate lemma UntouchedByOpen(h: Handle)
      requires old(Valid()) && Idle() && inner.host.Valid() && inner.host.Opened(h)
      ensures Valid() && Pending() == old(Pending())
    {
      inner.UntouchedByOpen(h);
    }

    /** With no row pending, no bytes are left to decode; and while one is, the scan is not exhausted. */
    lemma ExhaustedIff()
      requires Valid()
      ensures Pending() == [] ==> pos >= |buf.data|
      ensures IsExhausted() <==> Pending() == [] && inner.IsExhausted()
    {
      if inBuf == [] { DescribesNothing(ty, buf.data[pos..], inner.Items(), groups); }
      if IsExhausted() {
        assert buf.data[pos..] == [];
        DescribesEmpty(ty, inBuf, inner.Items(), groups);
      }
    }

    /** Yields the first pending row, or `None` once there is none. */
    method Next() returns (row: Option<Value>)
      requires Valid()
      modifies this, inner`raw, inner.host, buf
      ensures Valid()
      ensures row == if old(Pending()) == [] then None else Some(old(Pending())[0])
      ensures Pending() == if old(Pending()) == [] then [] else old(Pending())[1..]
      ensures row.None? ==> IsExhausted()
      ensures inner.host.eager && |old(Pending())| == 1 && old(inBuf) == [] ==> IsExhausted()
      ensures old(inBuf) == [] && !old(inner.IsExhausted()) ==> (inner.IsExhausted() <==> inner.host.LastExhausted())
      ensures inner.host.OnlyTouched(old(inner.raw)) && inner.host.misuses == old(inner.host.misuses)
    {
      ghost var fetched := false;
      while true
        invariant Valid() && Pending() == old(Pending())
        invariant inner.host.OnlyTouched(old(inner.raw)) && (inner.raw == old(inner.raw) || inner.IsExhausted())
        invariant inner.host.misuses == old(inner.host.misuses)
        invariant if fetched then inner.IsExhausted() <==> inner.host.LastExhausted()
                  else inBuf == old(inBuf) && inner.raw == old(inner.raw)
        invariant inner.host.eager && |old(Pending())| == 1 && old(inBuf) == [] && inBuf != [] ==> inner.IsExhausted()
        decreases if inner.IsExhausted() then 0 else 1 + |groups|
      {
        if pos < |buf.data| {
          row := TakeFromBuffer();
          return;
        }
        assert buf.data[pos..] == [];
        DescribesEmpty(ty, inBuf, inner.Items(), groups);
        if inner.IsExhausted() { return None; }
        Refill();
        fetched := true;
      }
    }

    method TakeFromBuffer() returns (row: Option<Value>)
      requires Valid() && pos < |buf.data|
      modifies `pos, `inBuf
      ensures Valid() && Pending() == old(Pending())[1..] && old(Pending()) != [] && row == Some(old(Pending())[0])
      ensures inBuf == old(inBuf)[1..] && old(inBuf) != []
    {
      var v;
      var after;
      v, after := DecodeAt(ty, buf.data, pos, inBuf, inner.Items(), groups);
      row := Some(v);
      DropFirst(inBuf, Flat(groups));
      pos, inBuf := after, inBuf[1..];
    }

    /** Replaces the buffer's contents by the host's next `k` items. */
    method Fetch() returns (ghost k: nat)
      requires inner.Valid() && buf.Valid() && !inner.IsExhausted()
      modifies `pos, inner`raw, inner.host, buf
      ensures inner.Valid() && buf.Valid() && pos == 0
      ensures inner.host.OnlyTouched(old(inner.raw)) && (inner.raw == old(inner.raw) || inner.IsExhausted())
      ensures inner.host.misuses == old(inner.host.misuses)
      ensures inner.IsExhausted() <==> inner.host.LastExhausted()
      ensures k <= |old(inner.Items())| && inner.Items() == old(inner.Items())[k..]
      ensures buf.data == Flat(old(inner.Items())[..k])
      ensures inner.IsExhausted() || k >= 1
      ensures inner.host.eager && k == |old(inner.Items())| ==> inner.IsExhausted()
    {
      buf.Clear();
      pos := 0;
      var n;
      ghost var retries;
      n, k, retries := inner.Read(buf);
    }

    method Refill()
      requires Valid() && inBuf == [] && !inner.IsExhausted()
      modifies this, inner`raw, inner.host, buf
      ensures Valid() && Pending() == old(Pending())
      ensures inner.host.OnlyTouched(old(inner.raw)) && (inner.raw == old(inner.raw) || inner.IsExhausted())
      ensures inner.host.misuses == old(inner.host.misuses)
      ensures inner.IsExhausted() <==> inner.host.LastExhausted()
      ensures inner.IsExhausted() || |groups| < |old(groups)|
      ensures inner.host.eager && groups == [] ==> inner.IsExhausted()
    {
      ghost var items := inner.Items();
      DescribesNothing(ty, buf.data[pos..], items, groups);
      ghost var k := Fetch();
      DescribesRead(ty, items, groups, k);
      assert buf.data[pos..] == Flat(items[..k]);
      inBuf, groups := Flat(groups[..k]), groups[k..];
    }
  }

  lemma DropFirst<T>(a: seq<T>, b: seq<T>)
    requires a != []
    ensures (a + b)[0] == a[0] && (a + b)[1..] == a[1..] + b
  {}

  /** Everything `TableIter` yields when it is driven to its end. */
  method Drain(it: TableIter) returns (rows: seq<Value>)
    requires it.Valid()
    modifies it, it.inner`raw, it.inner.host, it.buf
    ensures it.Valid() && rows == old(it.Pending()) && it.Pending() == [] && it.IsExhausted()
    ensures it.inner.host.misuses == old(it.inner.host.misuses)
  {
    ghost var all := it.Pending();
    rows := [];
    while true
      invariant it.Valid() && rows + it.Pending() == all
      invariant it.inner.host.misuses == old(it.inner.host.misuses)
      decreases |it.Pending()|
    {
      ghost var left := it.Pending();
      var row := it.Next();
      if row.None? { return; }
      MoveFirst(rows, left);
      rows := rows + [row.value];
    }
  }

  lemma MoveFirst<T>(a: seq<T>, b: seq<T>)
    requires b != []
    ensures a + [b[0]] + b[1..] == a + b
  {}

  /** The host collects the rows and opens an iterator; the module wraps it. */
  method OpenScan(ty: Type, rows: seq<Value>, host: Host, h: Handle, buf: Buffer) returns (it: TableIter)
    requires GoodRows(ty, rows) && host.Valid() && h != INVALID && h !in host.iters && buf.Valid()
    modifies host, buf
    ensures fresh(it) && fresh(it.inner) && it.inner.host == host && it.buf == buf && it.Valid()
    ensures !it.inner.IsExhausted()
    ensures it.Pending() == (if ZeroSized(ty) then [] else rows) && it.inBuf == []
    ensures it.inner.mine == old(host.sessions) && host.Opened(h)
  {
    var chunks;
    ghost var groups;
    chunks, groups := CollectIter(ty, rows);
    if ZeroSized(ty) { ZeroGroups(ty, groups, chunks); }
    var inner := OpenRows(chunks, host, h);
    it := new TableIter(ty, inner, buf, groups);
  }

  method OpenRows(chunks: seq<seq<Byte>>, host: Host, h: Handle) returns (inner: RowIter)
    requires NonEmptyItems(chunks) && host.Valid() && h != INVALID && h !in host.iters
    modifies host
    ensures fresh(inner) && inner.host == host && inner.Valid() && !inner.IsExhausted()
    ensures inner.Items() == chunks && inner.mine == old(host.sessions) && host.Opened(h)
  {
    host.Open(chunks, h);
    inner := new RowIter(host, h);
  }

  /** A full scan, host and module together: the table's rows, in order, once each, and the host's
      session ended exactly once. Rows of a zero-sized type are lost. */
  method Scan(ty: Type, table: seq<Value>, host: Host, h: Handle, buf: Buffer) returns (rows: seq<Value>)
    requires GoodRows(ty, table) && host.Valid() && h != INVALID && h !in host.iters && buf.Valid()
    modifies host, buf
    ensures rows == if ZeroSized(ty) then [] else table
    ensures host.Valid() && host.ended[old(host.sessions)] == 1 && host.misuses == old(host.misuses)
  {
    var it := OpenScan(ty, table, host, h, buf);
    rows := Drain(it);
    it.inner.Drop();
  }

  datatype Found = Row(row: Option<Value>) | AssertionFailed

  /** `UniqueColumn::_find`: the host found at most one row. The assertion after it fails exactly when
      the reply that carried the row did not also report exhaustion. */
  method Find(ty: Type, matches: seq<Value>, host: Host, h: Handle, buf: Buffer) returns (found: Found)
    requires GoodRows(ty, matches) && |matches| <= 1
    requires host.Valid() && h != INVALID && h !in host.iters && buf.Valid()
    modifies host, buf
    ensures found.Row? ==> found.row == if matches == [] || ZeroSized(ty) then None else Some(matches[0])
    ensures found.Row? ==> host.Valid() && host.ended[old(host.sessions)] == 1
    ensures found.Row? <==> host.LastExhausted()
    ensures matches == [] || ZeroSized(ty) || host.eager ==> found.Row?
    ensures host.misuses == old(host.misuses)
  {
    var it := OpenScan(ty, matches, host, h, buf);
    var row := it.Next();
    it.ExhaustedIff();
    if !it.IsExhausted() { return AssertionFailed; }
    it.inner.Drop();
    found := Row(row);
  }

  /** A row of a type that takes no bytes, which no scan can return. */
  lemma LostRowExample()
    ensures GoodRows(Product([]), [VProduct([])]) && ZeroSized(Product([]))
  {}
}
