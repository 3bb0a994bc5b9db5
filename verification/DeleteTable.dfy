/** `DTPageAndOffsetRanges`: a set of deleted row pointers kept as ranges per page, against the
    plain set of `DTBTree`. */
module DeleteTable {
  import opened OffsetRanges

  datatype Ptr = Ptr(page: nat, offset: Offset)

  datatype Search = Ok(idx: nat) | Err(idx: nat)

  function Rank(o: Ordering): int {
    match o
    case Less => 0
    case Equal => 1
    case Greater => 2
  }

  /** Binary search with an arbitrary comparison. The index returned on success is the last one
      probed; when several elements compare equal it may be any of them. */
  method BinarySearchBy(rs: seq<Range>, f: Range --> Ordering) returns (res: Search, last: nat)
    requires forall i :: 0 <= i < |rs| ==> f.requires(rs[i])
    requires forall i, j :: 0 <= i < j < |rs| ==> Rank(f(rs[i])) <= Rank(f(rs[j]))
    ensures res.Ok? ==> res.idx < |rs| && f(rs[res.idx]) == Equal && last == res.idx
    ensures res.Err? ==> res.idx <= |rs| && (forall i :: 0 <= i < res.idx ==> f(rs[i]) == Less)
                         && (forall i :: res.idx <= i < |rs| ==> f(rs[i]) == Greater)
  {
    last := 0;
    if |rs| == 0 { return Err(0), 0; }
    var base, size := 0, |rs|;
    while size > 1
      invariant 1 <= size && base + size <= |rs|
      invariant base == 0 || f(rs[base]) != Greater
      invariant forall i :: base + size <= i < |rs| ==> f(rs[i]) == Greater
    {
      var half := size / 2;
      var mid := base + half;
      if f(rs[mid]) != Greater { base := mid; }
      size := size - half;
    }
    last := base;
    match f(rs[base])
    case Equal => res := Ok(base);
    case Less => res := Err(base + 1);
    case Greater => res := Err(base);
  }

  ghost function MembersOf(deleted: seq<seq<Range>>, w: nat): set<Ptr> {
    set p, o: Offset | 0 <= p < |deleted| && 0 <= o < 0x1_0000 && Aligned(o, w) && Has(deleted[p], o) :: Ptr(p, o)
  }

  ghost predicate CanonicalPages(deleted: seq<seq<Range>>, w: nat) {
    forall p :: 0 <= p < |deleted| ==> Canonical(deleted[p], w)
  }

  /** Some later row of the same run of consecutive members as `p`. */
  ghost predicate RunAfter(s: set<Ptr>, p: Ptr, q: Ptr, w: nat) {
    && q in s && q.page == p.page && p.offset < q.offset
    && forall o: Offset :: p.offset <= o <= q.offset && Aligned(o, w) ==> Ptr(p.page, o) in s
  }

  /** `p` and the row after it are both members already. */
  ghost predicate InsideRun(s: set<Ptr>, p: Ptr, w: nat) {
    p in s && p.offset + w < 0x1_0000 && Ptr(p.page, p.offset + w) in s
  }

  /** What `insert` does to the members: add `p`, unless `p` is inside a run, whose rest is lost. */
  ghost predicate InsertEffect(s: set<Ptr>, s': set<Ptr>, p: Ptr, w: nat) {
    if InsideRun(s, p, w) then forall q :: q in s' <==> q in s && !RunAfter(s, p, q, w) else s' == s + {p}
  }

  lemma MemberAt(deleted: seq<seq<Range>>, w: nat, q: Ptr)
    ensures q in MembersOf(deleted, w) <==> q.page < |deleted| && Aligned(q.offset, w) && Has(deleted[q.page], q.offset)
  {}

  /** Changing one page so that it gains `p`. */
  lemma PageAdds(deleted: seq<seq<Range>>, rs': seq<Range>, p: Ptr, w: nat)
    requires CanonicalPages(deleted, w) && p.page < |deleted| && Aligned(p.offset, w) && Canonical(rs', w)
    requires Adds(deleted[p.page], rs', p.offset, w)
    ensures CanonicalPages(deleted[p.page := rs'], w)
    ensures MembersOf(deleted[p.page := rs'], w) == MembersOf(deleted, w) + {p}
  {
    forall q ensures q in MembersOf(deleted[p.page := rs'], w) <==> q in MembersOf(deleted, w) + {p} {
      PageAddsAt(deleted, rs', p, w, q);
    }
  }

  lemma PageAddsAt(deleted: seq<seq<Range>>, rs': seq<Range>, p: Ptr, w: nat, q: Ptr)
    requires p.page < |deleted| && Aligned(p.offset, w) && Adds(deleted[p.page], rs', p.offset, w)
    ensures q in MembersOf(deleted[p.page := rs'], w) <==> q in MembersOf(deleted, w) || q == p
  {
    MemberAt(deleted, w, q);
    MemberAt(deleted[p.page := rs'], w, q);
  }

  /** Changing one page so that it loses the rows from `lo` to `hi`. */
  lemma PageDrops(deleted: seq<seq<Range>>, rs': seq<Range>, page: nat, lo: nat, hi: nat, w: nat, q: Ptr)
    requires CanonicalPages(deleted, w) && page < |deleted| && Canonical(rs', w)
    requires Drops(deleted[page], rs', lo, hi, w)
    ensures CanonicalPages(deleted[page := rs'], w)
    ensures q in MembersOf(deleted[page := rs'], w) <==>
            q in MembersOf(deleted, w) && !(q.page == page && lo <= q.offset <= hi)
  {
    MemberAt(deleted, w, q);
    MemberAt(deleted[page := rs'], w, q);
  }

  /** Range `i` of `p`'s page holds `p`: the rest of the range is the rest of `p`'s run. */
  lemma RunIsRange(deleted: seq<seq<Range>>, p: Ptr, i: nat, w: nat, q: Ptr)
    requires w > 0 && CanonicalPages(deleted, w) && p.page < |deleted| && RowStart(p.offset, w)
    requires i < |deleted[p.page]| && deleted[p.page][i].start <= p.offset <= deleted[p.page][i].end
    requires q in MembersOf(deleted, w)
    ensures RunAfter(MembersOf(deleted, w), p, q, w) <==>
            q.page == p.page && p.offset < q.offset <= deleted[p.page][i].end
  {
    if q.page == p.page && p.offset < q.offset <= deleted[p.page][i].end {
      RangeIsRun(deleted, p, i, w, q);
    }
    if q.page == p.page && deleted[p.page][i].end < q.offset {
      RunStopsAtEnd(deleted, p, i, w, q);
    }
  }

  lemma RangeIsRun(deleted: seq<seq<Range>>, p: Ptr, i: nat, w: nat, q: Ptr)
    requires p.page < |deleted| && i < |deleted[p.page]| && q in MembersOf(deleted, w)
    requires q.page == p.page && deleted[p.page][i].start <= p.offset < q.offset <= deleted[p.page][i].end
    ensures RunAfter(MembersOf(deleted, w), p, q, w)
  {
    forall o: Offset | p.offset <= o <= q.offset && Aligned(o, w) ensures Ptr(p.page, o) in MembersOf(deleted, w) {
      assert Has(deleted[p.page], o);
      MemberAt(deleted, w, Ptr(p.page, o));
    }
  }

  lemma RunStopsAtEnd(deleted: seq<seq<Range>>, p: Ptr, i: nat, w: nat, q: Ptr)
    requires w > 0 && CanonicalPages(deleted, w) && p.page < |deleted| && q in MembersOf(deleted, w)
    requires i < |deleted[p.page]| && p.offset <= deleted[p.page][i].end < q.offset && q.page == p.page
    ensures !RunAfter(MembersOf(deleted, w), p, q, w)
  {
    var end := deleted[p.page][i].end;
    AfterEndAbsent(deleted[p.page], i, w);
    MemberAt(deleted, w, q);
    AlignedGap(end, q.offset, w);
    MemberAt(deleted, w, Ptr(p.page, end + w));
  }

  lemma AfterEndAbsent(rs: seq<Range>, i: nat, w: nat)
    requires w > 0 && Canonical(rs, w) && i < |rs|
    ensures !Has(rs, rs[i].end + w) && Aligned(rs[i].end + w, w)
  {
    AlignedPlus(rs[i].end, w);
    forall j | 0 <= j < |rs| ensures !(rs[j].start <= rs[i].end + w <= rs[j].end) {
      if j < i { assert rs[j].end + w < rs[i].start; }
      if i < j { assert rs[i].end + w < rs[j].start; }
    }
  }

  lemma InsideRunIsInterior(deleted: seq<seq<Range>>, p: Ptr, i: nat, w: nat)
    requires w > 0 && CanonicalPages(deleted, w) && p.page < |deleted| && RowStart(p.offset, w)
    requires i < |deleted[p.page]| && deleted[p.page][i].start <= p.offset <= deleted[p.page][i].end
    ensures InsideRun(MembersOf(deleted, w), p, w) <==> p.offset < deleted[p.page][i].end
  {
    var r, next := deleted[p.page][i], Ptr(p.page, p.offset + w);
    MemberAt(deleted, w, p);
    MemberAt(deleted, w, next);
    if p.offset < r.end {
      AlignedGap(p.offset, r.end, w);
      AlignedPlus(p.offset, w);
    } else {
      AfterEndAbsent(deleted[p.page], i, w);
    }
  }

  /** What the closure needs of a canonical page: no wrap-around, and sorted answers. */
  lemma ProbeDefined(rs: seq<Range>, i: nat, off: Offset, w: Offset)
    requires w > 0 && Canonical(rs, w) && RowStart(off, w) && i < |rs|
    ensures rs[i].end + w < 0x1_0000 && (rs[i].start > off ==> rs[i].start >= w)
    ensures InsertProbe(rs[i], off, w).ord == Less <==> rs[i].end + w < off
    ensures InsertProbe(rs[i], off, w).ord == Greater <==> off + w < rs[i].start
  {
    if rs[i].start > off { AlignedGap(off, rs[i].start, w); }
    if rs[i].end < off { AlignedGap(rs[i].end, off, w); }
  }

  datatype InsertSpot = At(extendEnd: bool, exists_: bool, idx: nat) | Between(idx: nat)

  /** `find_range_to_insert_offset`: the flags are those of the last probe. */
  method FindRangeToInsert(rs: seq<Range>, off: Offset, w: Offset) returns (spot: InsertSpot)
    requires w > 0 && Canonical(rs, w) && RowStart(off, w)
    ensures spot.idx <= |rs| && (spot.At? ==> spot.idx < |rs|)
    ensures spot.At? ==> rs[spot.idx].end + w < 0x1_0000 && (rs[spot.idx].start > off ==> rs[spot.idx].start >= w)
                         && InsertProbe(rs[spot.idx], off, w) == Probe(Equal, spot.extendEnd, spot.exists_)
    ensures spot.Between? ==> !Has(rs, off) && (forall j :: 0 <= j < spot.idx ==> rs[j].end + w < off)
                              && (forall j :: spot.idx <= j < |rs| ==> off + w < rs[j].start)
  {
    forall i | 0 <= i < |rs|
      ensures rs[i].end + w < 0x1_0000 && (rs[i].start > off ==> rs[i].start >= w)
      ensures InsertProbe(rs[i], off, w).ord == Less <==> rs[i].end + w < off
      ensures InsertProbe(rs[i], off, w).ord == Greater <==> off + w < rs[i].start
    {
      ProbeDefined(rs, i, off, w);
    }
    var closure := (r: Range) requires r.end + w < 0x1_0000 && (r.start > off ==> r.start >= w) =>
      InsertProbe(r, off, w).ord;
    var res, last := BinarySearchBy(rs, closure);
    match res
    case Ok(i) =>
      var flags := InsertProbe(rs[last], off, w);
      spot := At(flags.extendEnd, flags.exists_, i);
    case Err(i) => spot := Between(i);
  }

  /** Re-inserting `p`, held by range `i`: harmless at the end of its run, otherwise the rest of the
      run goes. */
  lemma HeldInsert(deleted: seq<seq<Range>>, rs': seq<Range>, p: Ptr, i: nat, w: nat)
    requires w > 0 && CanonicalPages(deleted, w) && p.page < |deleted| && RowStart(p.offset, w) && Canonical(rs', w)
    requires i < |deleted[p.page]| && deleted[p.page][i].start <= p.offset <= deleted[p.page][i].end
    requires Drops(deleted[p.page], rs', p.offset + 1, deleted[p.page][i].end, w)
    ensures var s, s' := MembersOf(deleted, w), MembersOf(deleted[p.page := rs'], w);
      CanonicalPages(deleted[p.page := rs'], w) && p in s && InsertEffect(s, s', p, w)
  {
    var s, s' := MembersOf(deleted, w), MembersOf(deleted[p.page := rs'], w);
    InsideRunIsInterior(deleted, p, i, w);
    MemberAt(deleted, w, p);
    forall q ensures q in s' <==> q in s && !(q.page == p.page && p.offset < q.offset <= deleted[p.page][i].end) {
      PageDrops(deleted, rs', p.page, p.offset + 1, deleted[p.page][i].end, w, q);
    }
    forall q | q in s
      ensures RunAfter(s, p, q, w) <==> q.page == p.page && p.offset < q.offset <= deleted[p.page][i].end
    {
      RunIsRange(deleted, p, i, w, q);
    }
  }

  /** The `extend_end` branch of `insert`: range `idx` ends at `off`, or takes over its successor. */
  method GrowEnd(rs: seq<Range>, idx: nat, off: Offset, w: Offset) returns (rs': seq<Range>)
    requires idx < |rs| && (idx + 1 < |rs| ==> w <= rs[idx + 1].start)
    ensures rs' == ExtendEnd(rs, idx, off, w)
  {
    rs' := rs;
    var next, newEnd := idx + 1, off;
    if next < |rs| && Sub(rs[next].start, w) == off {
      rs' := rs'[..next] + rs'[next + 1..];
      newEnd := rs[next].end;
    }
    rs' := rs'[idx := Range(rs'[idx].start, newEnd)];
  }

  /** The other branch: range `idx` starts at `off`, or takes over its predecessor. The predecessor
      of range 0 is range 0 itself, which never ends right before `off`. */
  method GrowStart(rs: seq<Range>, idx: nat, off: Offset, w: Offset) returns (rs': seq<Range>)
    requires idx < |rs| && off < rs[idx].end && rs[idx].end + w < 0x1_0000
    requires idx > 0 ==> rs[idx - 1].end + w < 0x1_0000
    ensures rs' == ExtendStart(rs, idx, off, w)
  {
    rs' := rs;
    var prev := if idx > 0 then idx - 1 else 0;
    if Add(rs[prev].end, w) == off {
      rs' := rs'[idx := Range(rs[prev].start, rs'[idx].end)];
      rs' := rs'[..prev] + rs'[prev + 1..];
    } else {
      rs' := rs'[idx := Range(off, rs'[idx].end)];
    }
  }

  /** The members are counted by one more, or by the same number, exactly when no run was cut. */
  lemma InsertCounts(s: set<Ptr>, s': set<Ptr>, p: Ptr, w: nat)
    requires RowStart(p.offset, w) && w > 0 && InsertEffect(s, s', p, w)
    ensures |s'| <= |s| + (if p in s then 0 else 1)
    ensures |s'| == |s| + (if p in s then 0 else 1) <==> !InsideRun(s, p, w)
    ensures s' == s + {p} <==> !InsideRun(s, p, w)
  {
    if InsideRun(s, p, w) {
      var next := Ptr(p.page, p.offset + w);
      forall o: Offset | p.offset <= o <= next.offset && Aligned(o, w) ensures Ptr(p.page, o) in s {
        if p.offset < o { AlignedGap(p.offset, o, w); }
      }
      assert RunAfter(s, p, next, w) && next !in s';
      assert s' <= s - {next};
      CardinalityOfSubset(s', s - {next});
    } else if p in s {
      assert s' == s;
    }
  }

  lemma {:induction false} CardinalityOfSubset(a: set<Ptr>, b: set<Ptr>)
    requires a <= b
    ensures |a| <= |b|
  {
    assert b == a + (b - a);
  }

  /** `insert` on the ranges of one page. `at` is the range that already held `off`, if any: it is
      then made to end at `off`, which loses the rows it held beyond. */
  method InsertInto(rs: seq<Range>, off: Offset, w: Offset) returns (rs': seq<Range>, added: bool, ghost at: nat)
    requires w > 0 && Canonical(rs, w) && RowStart(off, w)
    ensures Canonical(rs', w) && (added <==> !Has(rs, off))
    ensures added ==> Adds(rs, rs', off, w)
    ensures !added ==> at < |rs| && rs[at].start <= off <= rs[at].end && Drops(rs, rs', off + 1, rs[at].end, w)
  {
    var spot := FindRangeToInsert(rs, off, w);
    at := spot.idx;
    match spot
    case Between(i) =>
      AddPointAdds(rs, i, off, w);
      rs', added := AddPoint(rs, i, off), true;
    case At(extendEnd, exists_, idx) =>
      AbsentUnlessHeld(rs, idx, off, w);
      added := !exists_;
      if extendEnd {
        if added { ExtendEndAdds(rs, idx, off, w); } else { ExtendEndInside(rs, idx, off, w); }
        rs' := GrowEnd(rs, idx, off, w);
      } else {
        ExtendStartAdds(rs, idx, off, w);
        rs' := GrowStart(rs, idx, off, w);
      }
  }

  lemma ExtendEndInside(rs: seq<Range>, i: nat, off: Offset, w: Offset)
    requires w > 0 && Canonical(rs, w) && RowStart(off, w) && i < |rs| && rs[i].start <= off <= rs[i].end
    ensures i + 1 < |rs| ==> w <= rs[i + 1].start
    ensures Canonical(ExtendEnd(rs, i, off, w), w) && Drops(rs, ExtendEnd(rs, i, off, w), off + 1, rs[i].end, w)
  {
    ShortenDrops(rs, i, off, w);
    assert i + 1 < |rs| ==> rs[i].end + w < rs[i + 1].start;
  }

  /** A range the search accepts either holds `off` or is next to it, and then nothing holds it. */
  lemma AbsentUnlessHeld(rs: seq<Range>, i: nat, off: Offset, w: Offset)
    requires w > 0 && Canonical(rs, w) && RowStart(off, w) && i < |rs|
    requires rs[i].end + w == off || off + w == rs[i].start || rs[i].start <= off <= rs[i].end
    ensures Has(rs, off) <==> rs[i].start <= off <= rs[i].end
  {
    forall j | 0 <= j < |rs| && j != i ensures !(rs[j].start <= off <= rs[j].end) {
      if j < i { assert rs[j].end + w < rs[i].start; } else { assert rs[i].end + w < rs[j].start; }
    }
  }

  lemma PageLoses(deleted: seq<seq<Range>>, rs': seq<Range>, p: Ptr, w: nat)
    requires CanonicalPages(deleted, w) && p.page < |deleted| && Canonical(rs', w)
    requires Drops(deleted[p.page], rs', p.offset, p.offset, w)
    ensures CanonicalPages(deleted[p.page := rs'], w)
    ensures MembersOf(deleted[p.page := rs'], w) == MembersOf(deleted, w) - {p}
  {
    forall q ensures q in MembersOf(deleted[p.page := rs'], w) <==> q in MembersOf(deleted, w) - {p} {
      PageDrops(deleted, rs', p.page, p.offset, p.offset, w, q);
    }
  }

  /** The four branches of `remove`. */
  method CutOutOf(rs: seq<Range>, idx: nat, off: Offset, w: Offset) returns (rs': seq<Range>)
    requires idx < |rs| && rs[idx].start <= off <= rs[idx].end
    requires off < rs[idx].end ==> off + w < 0x1_0000
    requires rs[idx].start < off ==> w <= off
    ensures rs' == CutOut(rs, idx, off, w)
  {
    var range := rs[idx];
    rs' := rs;
    match (range.start == off, range.end == off)
    case (true, true) => rs' := rs'[..idx] + rs'[idx + 1..];
    case (true, false) => rs' := rs'[idx := Range(Add(range.start, w), range.end)];
    case (false, true) => rs' := rs'[idx := Range(range.start, Sub(range.end, w))];
    case (false, false) =>
      var new_ := Range(Add(off, w), range.end);
      rs' := rs'[idx := Range(range.start, Sub(off, w))];
      rs' := rs'[..idx + 1] + [new_] + rs'[idx + 1..];
  }

  /** `remove` on the ranges of one page. */
  method RemoveFrom(rs: seq<Range>, off: Offset, w: Offset) returns (rs': seq<Range>, removed: bool)
    requires w > 0 && Canonical(rs, w) && RowStart(off, w)
    ensures removed <==> Has(rs, off)
    ensures if removed then Canonical(rs', w) && Drops(rs, rs', off, off, w) else rs' == rs
  {
    var res, _ := BinarySearchBy(rs, r => CmpStartEnd(r, off));
    removed := res.Ok?;
    if removed {
      CutOutDrops(rs, res.idx, off, w);
      rs' := CutOutOf(rs, res.idx, off, w);
    } else {
      rs' := rs;
    }
  }

  /** `grown` is `deleted` followed by empty pages. */
  ghost predicate Padded(deleted: seq<seq<Range>>, grown: seq<seq<Range>>, pages: nat) {
    && |deleted| <= |grown| == pages
    && (forall i :: 0 <= i < |deleted| ==> grown[i] == deleted[i])
    && (forall i :: |deleted| <= i < pages ==> grown[i] == [])
  }

  lemma NewPage(deleted: seq<seq<Range>>, grown: seq<seq<Range>>, p: Ptr, w: nat)
    requires w > 0 && CanonicalPages(deleted, w) && RowStart(p.offset, w)
    requires |deleted| <= p.page && Padded(deleted, grown, p.page + 1)
    ensures var grown' := grown[p.page := [Range(p.offset, p.offset)]];
            && CanonicalPages(grown', w) && p !in MembersOf(deleted, w)
            && InsertEffect(MembersOf(deleted, w), MembersOf(grown', w), p, w)
  {
    var point := Range(p.offset, p.offset);
    var grown' := grown[p.page := [point]];
    CanonicalOne(point, w);
    forall q ensures q in MembersOf(grown', w) <==> q in MembersOf(deleted, w) + {p} {
      MemberAt(deleted, w, q);
      MemberAt(grown', w, q);
      HasOne(point, q.offset);
    }
    MemberAt(deleted, w, p);
  }

  function WithPage(page: nat, offs: seq<nat>): (ps: seq<Ptr>)
    requires forall o :: o in offs ==> o < 0x1_0000
    ensures |ps| == |offs| && forall i :: 0 <= i < |ps| ==> ps[i].page == page && ps[i].offset == offs[i]
  {
    seq(|offs|, i requires 0 <= i < |offs| => assert offs[i] in offs; Ptr(page, offs[i]))
  }

  /** What `iter` yields from page `page` on. */
  function ListFrom(deleted: seq<seq<Range>>, w: nat, page: nat): seq<Ptr>
    requires page <= |deleted|
    requires forall p, o :: 0 <= p < |deleted| && o in PageList(deleted[p], w) ==> o < 0x1_0000
    decreases |deleted| - page
  {
    if page == |deleted| then [] else WithPage(page, PageList(deleted[page], w)) + ListFrom(deleted, w, page + 1)
  }

  predicate Before(p: Ptr, q: Ptr) {
    p.page < q.page || (p.page == q.page && p.offset < q.offset)
  }

  ghost predicate Ordered(ps: seq<Ptr>) {
    forall i, j :: 0 <= i < j < |ps| ==> Before(ps[i], ps[j])
  }

  lemma ListDefined(deleted: seq<seq<Range>>, w: nat)
    requires w > 0 && CanonicalPages(deleted, w)
    ensures forall p, o :: 0 <= p < |deleted| && o in PageList(deleted[p], w) ==> o < 0x1_0000
  {
    forall p, o | 0 <= p < |deleted| && o in PageList(deleted[p], w) ensures o < 0x1_0000 {
      PageListRows(deleted[p], w);
    }
  }

  lemma OrderedConcat(a: seq<Ptr>, b: seq<Ptr>)
    requires Ordered(a) && Ordered(b) && forall p, q :: p in a && q in b ==> Before(p, q)
    ensures Ordered(a + b)
  {
    assert forall i :: 0 <= i < |a| ==> a[i] in a;
    assert forall i :: 0 <= i < |b| ==> b[i] in b;
  }

  /** One page's part of the list. */
  lemma PageListed(deleted: seq<seq<Range>>, w: nat, page: nat)
    requires w > 0 && CanonicalPages(deleted, w) && page < |deleted|
    requires forall o :: o in PageList(deleted[page], w) ==> o < 0x1_0000
    ensures var a := WithPage(page, PageList(deleted[page], w));
            Ordered(a) && forall q :: q in a <==> q in MembersOf(deleted, w) && q.page == page
  {
    var offs := PageList(deleted[page], w);
    PageListRows(deleted[page], w);
    var a := WithPage(page, offs);
    forall q ensures q in a <==> q in MembersOf(deleted, w) && q.page == page {
      MemberAt(deleted, w, q);
      if q.page == page && q.offset in offs {
        var i :| 0 <= i < |offs| && offs[i] == q.offset;
        assert a[i] == q;
      }
      if q in a {
        var i :| 0 <= i < |a| && a[i] == q;
        assert offs[i] in offs;
      }
    }
  }

  lemma {:induction false} ListFromLists(deleted: seq<seq<Range>>, w: nat, page: nat)
    requires w > 0 && CanonicalPages(deleted, w) && page <= |deleted|
    requires forall p, o :: 0 <= p < |deleted| && o in PageList(deleted[p], w) ==> o < 0x1_0000
    ensures Ordered(ListFrom(deleted, w, page))
    ensures forall q :: q in ListFrom(deleted, w, page) <==> q in MembersOf(deleted, w) && page <= q.page
    decreases |deleted| - page
  {
    if page < |deleted| {
      ListFromLists(deleted, w, page + 1);
      PageListed(deleted, w, page);
      OrderedConcat(WithPage(page, PageList(deleted[page], w)), ListFrom(deleted, w, page + 1));
    } else {
      forall q ensures q in MembersOf(deleted, w) ==> q.page < page { MemberAt(deleted, w, q); }
    }
  }

  lemma {:induction false} OrderedCounts(ps: seq<Ptr>, s: set<Ptr>)
    requires Ordered(ps) && forall q :: q in ps <==> q in s
    ensures |ps| == |s|
  {
    if ps == [] {
      assert s == {};
    } else {
      var last := ps[|ps| - 1];
      var front := ps[..|ps| - 1];
      forall q ensures q in front <==> q in s - {last} {
        if q in front { var i :| 0 <= i < |front| && front[i] == q; assert Before(ps[i], last); }
        if q in s && q != last { var i :| 0 <= i < |ps| && ps[i] == q; assert front[i] == q; }
      }
      OrderedCounts(front, s - {last});
    }
  }

  /** The set of members determines the pages, up to empty pages at the end. */
  lemma MembersDeterminePages(d: seq<seq<Range>>, e: seq<seq<Range>>, w: nat, page: nat)
    requires w > 0 && CanonicalPages(d, w) && CanonicalPages(e, w) && MembersOf(d, w) == MembersOf(e, w)
    ensures (if page < |d| then d[page] else []) == (if page < |e| then e[page] else [])
  {
    var rs, ss := if page < |d| then d[page] else [], if page < |e| then e[page] else [];
    forall o: nat | Aligned(o, w) ensures Has(rs, o) <==> Has(ss, o) {
      if o < 0x1_0000 {
        MemberAt(d, w, Ptr(page, o));
        MemberAt(e, w, Ptr(page, o));
      }
    }
    CanonicalUnique(rs, ss, w);
  }

  /** Three consecutive deleted rows; deleting the first again keeps only that one. */
  lemma ReinsertExample()
    ensures var rs := [Range(0, 32)];
      && Canonical(rs, 16) && Has(rs, 16)
      && InsertProbe(rs[0], 0, 16) == Probe(Equal, true, true)
      && ExtendEnd(rs, 0, 0, 16) == [Range(0, 0)] && !Has(ExtendEnd(rs, 0, 0, 16), 16)
  {
    assert Aligned(32, 16) by { assert Aligned(16, 16); }
    HasOne(Range(0, 32), 16);
    HasOne(Range(0, 0), 16);
  }

  datatype Op = OpInsert(p: Ptr) | OpRemove(p: Ptr) | OpContains(p: Ptr)

  /** `DTBTree`: the same operations on a plain set. */
  function SetStep(s: set<Ptr>, op: Op): (set<Ptr>, bool) {
    match op
    case OpInsert(p) => (s + {p}, p !in s)
    case OpRemove(p) => (s - {p}, p in s)
    case OpContains(p) => (s, p in s)
  }

  function SetAfter(s: set<Ptr>, ops: seq<Op>, k: nat): set<Ptr>
    requires k <= |ops|
  {
    if k == 0 then s else SetStep(SetAfter(s, ops, k - 1), ops[k - 1]).0
  }

  /** The operations as the table performs them: an insert inside a run loses the rest of the run. */
  ghost function AfterInsert(s: set<Ptr>, p: Ptr, w: nat): set<Ptr> {
    if InsideRun(s, p, w) then set q | q in s && !RunAfter(s, p, q, w) else s + {p}
  }

  lemma EffectIs(s: set<Ptr>, s': set<Ptr>, p: Ptr, w: nat)
    requires InsertEffect(s, s', p, w)
    ensures s' == AfterInsert(s, p, w)
  {}

  ghost function TableStep(s: set<Ptr>, op: Op, w: nat): set<Ptr> {
    if op.OpInsert? then AfterInsert(s, op.p, w) else SetStep(s, op).0
  }

  ghost function TableAfter(s: set<Ptr>, ops: seq<Op>, k: nat, w: nat): set<Ptr>
    requires k <= |ops|
  {
    if k == 0 then s else TableStep(TableAfter(s, ops, k - 1, w), ops[k - 1], w)
  }

  ghost predicate Reinserts(s: set<Ptr>, op: Op, w: nat) {
    op.OpInsert? && InsideRun(s, op.p, w)
  }

  /** None of the first `k` operations inserts a row that is inside a run of the plain set at that
      moment. */
  ghost predicate NoReinsertInside(s: set<Ptr>, ops: seq<Op>, k: nat, w: nat)
    requires k <= |ops|
  {
    k > 0 ==> !Reinserts(SetAfter(s, ops, k - 1), ops[k - 1], w) && NoReinsertInside(s, ops, k - 1, w)
  }

  /** Up to `k` operations, the table held the members of the plain set. */
  ghost predicate Agrees(s: set<Ptr>, ops: seq<Op>, k: nat, w: nat)
    requires k <= |ops|
  {
    TableAfter(s, ops, k, w) == SetAfter(s, ops, k) && (k > 0 ==> Agrees(s, ops, k - 1, w))
  }

  lemma StepAgrees(s: set<Ptr>, op: Op, w: nat)
    requires w > 0 && IsRow(op.p.offset, w)
    ensures TableStep(s, op, w) == SetStep(s, op).0 <==> !Reinserts(s, op, w)
  {
    IsRowIff(op.p.offset, w);
    if op.OpInsert? { InsertCounts(s, AfterInsert(s, op.p, w), op.p, w); }
  }

  /** Over every run, the table follows the plain set throughout if and only if no operation inserts
      a row inside a run. */
  lemma {:induction false} RunAgrees(s: set<Ptr>, ops: seq<Op>, k: nat, w: nat)
    requires w > 0 && k <= |ops| && forall j :: 0 <= j < k ==> IsRow(ops[j].p.offset, w)
    ensures Agrees(s, ops, k, w) <==> NoReinsertInside(s, ops, k, w)
  {
    if k > 0 {
      RunAgrees(s, ops, k - 1, w);
      StepAgrees(SetAfter(s, ops, k - 1), ops[k - 1], w);
    }
  }

  /** Each answer is the plain set's for the members the table holds at that moment. */
  ghost predicate Answers(s: set<Ptr>, ops: seq<Op>, outs: seq<bool>, w: nat)
    requires |outs| <= |ops|
  {
    forall k :: 0 <= k < |outs| ==> outs[k] == SetStep(TableAfter(s, ops, k, w), ops[k]).1
  }

  lemma AnswersNext(s: set<Ptr>, ops: seq<Op>, outs: seq<bool>, out: bool, w: nat)
    requires |outs| < |ops| && Answers(s, ops, outs, w)
    requires out == SetStep(TableAfter(s, ops, |outs|, w), ops[|outs|]).1
    ensures Answers(s, ops, outs + [out], w)
  {}

  /** A property of the table that breaks exactly at inserts inside a run of its own. */
  lemma HoldsNext(s: set<Ptr>, ops: seq<Op>, k: nat, w: nat, before: bool, after: bool)
    requires w > 0 && k < |ops| && forall j :: 0 <= j < k ==> IsRow(ops[j].p.offset, w)
    requires before <==> NoReinsertInside(s, ops, k, w)
    requires after <==> before && !Reinserts(TableAfter(s, ops, k, w), ops[k], w)
    ensures after <==> NoReinsertInside(s, ops, k + 1, w)
  {
    RunAgrees(s, ops, k, w);
  }

  class Table {
    var deleted: seq<seq<Range>>
    var len: nat
    const w: Offset

    ghost function Members(): set<Ptr>
      reads this
    {
      MembersOf(deleted, w)
    }

    /** `len` never falls short of the members, so that `remove` cannot underflow it ... */
    ghost predicate Valid()
      reads this
    {
      w > 0 && CanonicalPages(deleted, w) && len >= |Members()|
    }

    /** ... and is their number as long as no run has been cut. */
    ghost predicate Counted()
      reads this
    {
      len == |Members()|
    }

    constructor (rowSize: Offset)
      requires rowSize > 0
      ensures Valid() && Counted() && w == rowSize && Members() == {}
    {
      deleted, len, w := [], 0, rowSize;
    }

    method Contains(p: Ptr) returns (found: bool)
      requires Valid() && IsRow(p.offset, w)
      ensures found <==> p in Members()
    {
      IsRowIff(p.offset, w);
      if p.page >= |deleted| { return false; }
      var rs := deleted[p.page];
      var res, _ := BinarySearchBy(rs, r => CmpStartEnd(r, p.offset));
      found := res.Ok?;
    }

    /** Always answers like the set, and acts like it unless `p` is inside a run of members. In that
        case the rest of the run is lost and `len` no longer counts the members. */
    method Insert(p: Ptr) returns (added: bool)
      requires Valid() && IsRow(p.offset, w)
      modifies this
      ensures Valid() && Members() == AfterInsert(old(Members()), p, w)
      ensures added <==> p !in old(Members())
      ensures Members() == old(Members()) + {p} <==> !InsideRun(old(Members()), p, w)
      ensures Counted() <==> old(Counted()) && !InsideRun(old(Members()), p, w)
    {
      IsRowIff(p.offset, w);
      if p.page >= |deleted| {
        InsertNewPage(p);
        added := true;
      } else {
        added := InsertInPage(p);
      }
      InsertCounts(old(Members()), Members(), p, w);
      EffectIs(old(Members()), Members(), p, w);
    }

    method InsertNewPage(p: Ptr)
      requires Valid() && RowStart(p.offset, w) && p.page >= |deleted|
      modifies this
      ensures CanonicalPages(deleted, w) && InsertEffect(old(Members()), Members(), p, w)
      ensures p !in old(Members()) && len == old(len) + 1
    {
      ghost var before := deleted;
      for k := |deleted| to 1 + p.page
        invariant Padded(before, deleted, k) && len == old(len)
      {
        deleted := deleted + [[]];
      }
      NewPage(before, deleted, p, w);
      deleted := deleted[p.page := [Range(p.offset, p.offset)]];
      len := len + 1;
    }

    method InsertInPage(p: Ptr) returns (added: bool)
      requires Valid() && RowStart(p.offset, w) && p.page < |deleted|
      modifies this
      ensures CanonicalPages(deleted, w) && InsertEffect(old(Members()), Members(), p, w)
      ensures added <==> p !in old(Members())
      ensures len == old(len) + if added then 1 else 0
    {
      MemberAt(deleted, w, p);
      var rs';
      ghost var at;
      rs', added, at := InsertInto(deleted[p.page], p.offset, w);
      if added {
        PageAdds(deleted, rs', p, w);
        len := len + 1;
      } else {
        HeldInsert(deleted, rs', p, at, w);
      }
      deleted := deleted[p.page := rs'];
    }

    method Remove(p: Ptr) returns (removed: bool)
      requires Valid() && IsRow(p.offset, w)
      modifies this
      ensures Valid() && Members() == old(Members()) - {p}
      ensures Counted() <==> old(Counted())
      ensures removed <==> p in old(Members())
    {
      IsRowIff(p.offset, w);
      MemberAt(deleted, w, p);
      if p.page >= |deleted| { return false; }
      var rs';
      rs', removed := RemoveFrom(deleted[p.page], p.offset, w);
      if removed {
        PageLoses(deleted, rs', p, w);
        len := len - 1;
        deleted := deleted[p.page := rs'];
      }
    }

    /** The members, each once, in page and offset order. */
    function Iter(): (ps: seq<Ptr>)
      requires Valid()
      reads this
      ensures Ordered(ps) && |ps| == |Members()| && forall q :: q in ps <==> q in Members()
    {
      ListDefined(deleted, w);
      ListFromLists(deleted, w, 0);
      OrderedCounts(ListFrom(deleted, w, 0), Members());
      ListFrom(deleted, w, 0)
    }

    method Step(op: Op) returns (out: bool)
      requires Valid() && IsRow(op.p.offset, w)
      modifies this
      ensures Valid() && out == SetStep(old(Members()), op).1
      ensures Members() == TableStep(old(Members()), op, w)
      ensures Counted() <==> old(Counted()) && !Reinserts(old(Members()), op, w)
    {
      match op
      case OpInsert(p) => out := Insert(p);
      case OpRemove(p) => out := Remove(p);
      case OpContains(p) => out := Contains(p);
    }

    /** The state between two operations of a run from members `s`. */
    ghost predicate Running(s: set<Ptr>, ops: seq<Op>, outs: seq<bool>)
      reads this
    {
      && |outs| <= |ops| && Members() == TableAfter(s, ops, |outs|, w) && Answers(s, ops, outs, w)
      && (Counted() <==> NoReinsertInside(s, ops, |outs|, w))
    }

    method RunStep(ghost s: set<Ptr>, ops: seq<Op>, outs: seq<bool>) returns (outs': seq<bool>)
      requires Valid() && Running(s, ops, outs) && |outs| < |ops|
      requires forall k :: 0 <= k < |ops| ==> IsRow(ops[k].p.offset, w)
      modifies this
      ensures Valid() && Running(s, ops, outs') && |outs'| == |outs| + 1
    {
      ghost var before := Counted();
      var out := Step(ops[|outs|]);
      AnswersNext(s, ops, outs, out, w);
      HoldsNext(s, ops, |outs|, w, before, Counted());
      outs' := outs + [out];
    }

    /** Every run of operations. Each answer is the set's for the members at that moment; the table
        follows the plain set throughout, and `len` stays exact, if and only if no operation inserts
        a row inside a run. */
    method Run(ops: seq<Op>) returns (outs: seq<bool>)
      requires Valid() && Counted() && forall k :: 0 <= k < |ops| ==> IsRow(ops[k].p.offset, w)
      modifies this
      ensures Valid() && Members() == TableAfter(old(Members()), ops, |ops|, w)
      ensures |outs| == |ops| && Answers(old(Members()), ops, outs, w)
      ensures Agrees(old(Members()), ops, |ops|, w) <==> NoReinsertInside(old(Members()), ops, |ops|, w)
      ensures Counted() <==> NoReinsertInside(old(Members()), ops, |ops|, w)
    {
      ghost var s := Members();
      outs := [];
      while |outs| < |ops|
        invariant Valid() && Running(s, ops, outs)
      {
        outs := RunStep(s, ops, outs);
      }
      RunAgrees(s, ops, |ops|, w);
    }
  }
}
