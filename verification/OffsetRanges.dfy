/** Sorted runs of deleted rows within one page: the theory behind `DTPageAndOffsetRanges`. */
module OffsetRanges {

  /** A `u16` page offset. */
  type Offset = n: nat | n < 0x1_0000

  /** The offsets `start`, `start + w`, ..., `end` for rows of size `w`; both ends included. */
  datatype Range = Range(start: Offset, end: Offset)

  datatype Ordering = Less | Equal | Greater

  /** `u16` arithmetic; the preconditions say that nothing wraps. */
  function Add(a: Offset, b: Offset): Offset
    requires a + b < 0x1_0000
  {
    a + b
  }

  function Sub(a: Offset, b: Offset): Offset
    requires b <= a
  {
    a - b
  }

  function Cmp(a: Offset, b: Offset): Ordering {
    if a < b then Less else if a == b then Equal else Greater
  }

  /** `off` is where some row of size `w` starts: a multiple of `w`, by recursion. */
  predicate Aligned(off: nat, w: nat) {
    off == 0 || (0 < w <= off && Aligned(off - w, w))
  }

  lemma {:induction false} AlignedIsMultiple(off: nat, w: nat)
    requires w > 0
    ensures Aligned(off, w) <==> off % w == 0
  {
    if off >= w {
      AlignedIsMultiple(off - w, w);
      assert off % w == (off - w) % w by { ModStep(off, w); }
    }
  }

  lemma ModStep(off: nat, w: nat)
    requires 0 < w <= off
    ensures off % w == (off - w) % w
  {
    var q, r := (off - w) / w, (off - w) % w;
    assert off == (q + 1) * w + r;
    var d := off / w - (q + 1);
    assert d * w == r - off % w;
  }

  /** Row starts are at least a row apart. */
  lemma {:induction false} AlignedGap(a: nat, b: nat, w: nat)
    requires Aligned(a, w) && Aligned(b, w) && a < b
    ensures a + w <= b && Aligned(b - w, w)
  {
    if a > 0 { AlignedGap(a - w, b - w, w); }
  }

  predicate Has(rs: seq<Range>, off: nat) {
    exists i :: 0 <= i < |rs| && rs[i].start <= off <= rs[i].end
  }

  /** A row start that fits its page. */
  predicate RowStart(off: nat, w: nat) {
    Aligned(off, w) && off + w < 0x1_0000
  }

  /** The same, by the remainder. */
  predicate IsRow(off: nat, w: nat)
    requires w > 0
  {
    off % w == 0 && off + w < 0x1_0000
  }

  lemma IsRowIff(off: nat, w: nat)
    requires w > 0
    ensures IsRow(off, w) <==> RowStart(off, w)
  {
    AlignedIsMultiple(off, w);
  }

  /** Sorted, disjoint and maximally merged. */
  ghost predicate Canonical(rs: seq<Range>, w: nat) {
    && (forall i :: 0 <= i < |rs| ==> rs[i].start <= rs[i].end && RowStart(rs[i].start, w) && RowStart(rs[i].end, w))
    && (forall i, j :: 0 <= i < j < |rs| ==> rs[i].end + w < rs[j].start)
  }

  /** The comparison used by lookups. */
  function CmpStartEnd(r: Range, needle: Offset): Ordering {
    match (Cmp(r.start, needle), Cmp(r.end, needle))
    case (Less, Less) => Less
    case (Less, _) => Equal
    case (Equal, _) => Equal
    case (Greater, _) => Greater
  }

  /** What the closure of `find_range_to_insert_offset` returns and leaves in its two flags. */
  datatype Probe = Probe(ord: Ordering, extendEnd: bool, exists_: bool)

  function InsertProbe(r: Range, off: Offset, w: Offset): Probe
    requires r.end + w < 0x1_0000 && (r.start > off ==> r.start >= w)
  {
    match Cmp(r.end, off)
    case Less => Probe(if Add(r.end, w) == off then Equal else Less, true, false)
    case Equal => Probe(Equal, true, true)
    case Greater =>
      match Cmp(r.start, off)
      case Greater => if Sub(r.start, w) == off then Probe(Equal, false, false) else Probe(Greater, true, false)
      case _ => Probe(Equal, true, true)
  }

  /** The state of a page's ranges after `insert`, for each outcome of the search. */
  function AddPoint(rs: seq<Range>, i: nat, off: Offset): seq<Range>
    requires i <= |rs|
  {
    rs[..i] + [Range(off, off)] + rs[i..]
  }

  predicate JoinsNext(rs: seq<Range>, i: nat, off: Offset, w: Offset)
    requires i < |rs|
    requires i + 1 < |rs| ==> w <= rs[i + 1].start
  {
    i + 1 < |rs| && Sub(rs[i + 1].start, w) == off
  }

  function ExtendEnd(rs: seq<Range>, i: nat, off: Offset, w: Offset): seq<Range>
    requires i < |rs|
    requires i + 1 < |rs| ==> w <= rs[i + 1].start
  {
    if JoinsNext(rs, i, off, w)
    then rs[..i] + [Range(rs[i].start, rs[i + 1].end)] + rs[i + 2..]
    else rs[i := Range(rs[i].start, off)]
  }

  function ExtendStart(rs: seq<Range>, i: nat, off: Offset, w: Offset): seq<Range>
    requires i < |rs|
    requires i > 0 ==> rs[i - 1].end + w < 0x1_0000
  {
    if i > 0 && Add(rs[i - 1].end, w) == off
    then rs[..i - 1] + [Range(rs[i - 1].start, rs[i].end)] + rs[i + 1..]
    else rs[i := Range(off, rs[i].end)]
  }

  /** `rs'` holds the row starts of `rs` and `off`. */
  ghost predicate Adds(rs: seq<Range>, rs': seq<Range>, off: nat, w: nat) {
    forall o: nat :: Aligned(o, w) ==> (Has(rs', o) <==> Has(rs, o) || o == off)
  }

  /** `rs'` holds the row starts of `rs` other than those from `lo` to `hi`. */
  ghost predicate Drops(rs: seq<Range>, rs': seq<Range>, lo: nat, hi: nat, w: nat) {
    forall o: nat :: Aligned(o, w) ==> (Has(rs', o) <==> Has(rs, o) && !(lo <= o <= hi))
  }

  ghost predicate Apart(a: seq<Range>, b: seq<Range>, w: nat) {
    forall i, j :: 0 <= i < |a| && 0 <= j < |b| ==> a[i].end + w < b[j].start
  }

  lemma HasConcat(a: seq<Range>, b: seq<Range>, o: nat)
    ensures Has(a + b, o) <==> Has(a, o) || Has(b, o)
  {
    var c := a + b;
    if Has(a, o) {
      var i :| 0 <= i < |a| && a[i].start <= o <= a[i].end;
      assert c[i] == a[i];
    }
    if Has(b, o) {
      var i :| 0 <= i < |b| && b[i].start <= o <= b[i].end;
      assert c[|a| + i] == b[i];
    }
  }

  lemma HasThree(a: seq<Range>, m: seq<Range>, b: seq<Range>, o: nat)
    ensures Has(a + m + b, o) <==> Has(a, o) || Has(m, o) || Has(b, o)
  {
    HasConcat(a, m, o);
    HasConcat(a + m, b, o);
  }

  lemma CanonicalConcat(a: seq<Range>, b: seq<Range>, w: nat)
    ensures Canonical(a + b, w) <==> Canonical(a, w) && Canonical(b, w) && Apart(a, b, w)
  {
    var c := a + b;
    assert forall i :: 0 <= i < |a| ==> a[i] == c[i];
    assert forall i :: 0 <= i < |b| ==> b[i] == c[|a| + i];
    assert forall i :: |a| <= i < |c| ==> c[i] == b[i - |a|];
  }

  lemma CanonicalThree(a: seq<Range>, m: seq<Range>, b: seq<Range>, w: nat)
    ensures Canonical(a + m + b, w) <==>
            Canonical(a, w) && Canonical(m, w) && Canonical(b, w) && Apart(a, m, w) && Apart(a, b, w) && Apart(m, b, w)
  {
    CanonicalConcat(a, m, w);
    CanonicalConcat(a + m, b, w);
    var c := a + m;
    assert forall i :: 0 <= i < |a| ==> a[i] == c[i];
    assert forall i :: 0 <= i < |m| ==> m[i] == c[|a| + i];
    assert forall i :: |a| <= i < |c| ==> c[i] == m[i - |a|];
  }

  lemma HasOne(r: Range, o: nat)
    ensures Has([r], o) <==> r.start <= o <= r.end
  {
    assert [r][0] == r;
  }

  lemma HasTwo(r: Range, s: Range, o: nat)
    ensures Has([r, s], o) <==> r.start <= o <= r.end || s.start <= o <= s.end
  {
    assert [r, s][0] == r && [r, s][1] == s;
  }

  /** Replacing the middle of a page by `m'`, which holds what `m` held and `off`. */
  lemma SpliceAdds(a: seq<Range>, m: seq<Range>, m': seq<Range>, b: seq<Range>, off: nat, w: nat)
    requires Adds(m, m', off, w)
    ensures Adds(a + m + b, a + m' + b, off, w)
  {
    forall o: nat | Aligned(o, w) ensures Has(a + m' + b, o) <==> Has(a + m + b, o) || o == off {
      HasThree(a, m, b, o);
      HasThree(a, m', b, o);
    }
  }

  /** ... and which keeps clear of its neighbours. */
  lemma SpliceCanonical(a: seq<Range>, m: seq<Range>, m': seq<Range>, b: seq<Range>, w: nat)
    requires Canonical(a + m + b, w) && Canonical(m', w) && Apart(a, m', w) && Apart(m', b, w)
    ensures Canonical(a + m' + b, w)
  {
    CanonicalThree(a, m, b, w);
    CanonicalThree(a, m', b, w);
  }

  /** The neighbours of `m` as bounds on their ends. */
  lemma ApartOne(a: seq<Range>, r: Range, b: seq<Range>, w: nat)
    requires forall j :: 0 <= j < |a| ==> a[j].end + w < r.start
    requires forall j :: 0 <= j < |b| ==> r.end + w < b[j].start
    ensures Apart(a, [r], w) && Apart([r], b, w)
  {}

  lemma CanonicalOne(r: Range, w: nat)
    requires r.start <= r.end && RowStart(r.start, w) && RowStart(r.end, w)
    ensures Canonical([r], w)
  {}

  lemma AddPointAdds(rs: seq<Range>, i: nat, off: Offset, w: Offset)
    requires w > 0 && Canonical(rs, w) && RowStart(off, w) && i <= |rs|
    requires forall j :: 0 <= j < i ==> rs[j].end + w < off
    requires forall j :: i <= j < |rs| ==> off + w < rs[j].start
    ensures Canonical(AddPoint(rs, i, off), w) && Adds(rs, AddPoint(rs, i, off), off, w)
  {
    var a, p, b := rs[..i], Range(off, off), rs[i..];
    assert rs == a + [] + b;
    ApartOne(a, p, b, w);
    CanonicalOne(p, w);
    SpliceCanonical(a, [], [p], b, w);
    forall o: nat ensures Has([p], o) <==> o == off { HasOne(p, o); }
    SpliceAdds(a, [], [p], b, off, w);
  }

  /** `off` directly follows range `i` and nothing else touches it. */
  lemma GrowEndAdds(rs: seq<Range>, i: nat, off: Offset, w: Offset)
    requires w > 0 && Canonical(rs, w) && RowStart(off, w) && i < |rs| && rs[i].end + w == off
    requires forall j :: i < j < |rs| ==> off + w < rs[j].start
    ensures var rs' := rs[i := Range(rs[i].start, off)]; Canonical(rs', w) && Adds(rs, rs', off, w)
  {
    var a, r, b, grown := rs[..i], rs[i], rs[i + 1..], Range(rs[i].start, off);
    assert rs == a + [r] + b && rs[i := grown] == a + [grown] + b;
    ApartOne(a, grown, b, w);
    CanonicalOne(grown, w);
    SpliceCanonical(a, [r], [grown], b, w);
    forall o: nat | Aligned(o, w) ensures Has([grown], o) <==> Has([r], o) || o == off {
      HasOne(grown, o);
      HasOne(r, o);
      if r.end < o { AlignedGap(r.end, o, w); }
    }
    SpliceAdds(a, [r], [grown], b, off, w);
  }

  /** `off` directly precedes range `i` and nothing else touches it. */
  lemma GrowStartAdds(rs: seq<Range>, i: nat, off: Offset, w: Offset)
    requires w > 0 && Canonical(rs, w) && RowStart(off, w) && i < |rs| && off + w == rs[i].start
    requires forall j :: 0 <= j < i ==> rs[j].end + w < off
    ensures var rs' := rs[i := Range(off, rs[i].end)]; Canonical(rs', w) && Adds(rs, rs', off, w)
  {
    var a, r, b, grown := rs[..i], rs[i], rs[i + 1..], Range(off, rs[i].end);
    assert rs == a + [r] + b && rs[i := grown] == a + [grown] + b;
    ApartOne(a, grown, b, w);
    CanonicalOne(grown, w);
    SpliceCanonical(a, [r], [grown], b, w);
    forall o: nat | Aligned(o, w) ensures Has([grown], o) <==> Has([r], o) || o == off {
      HasOne(grown, o);
      HasOne(r, o);
      if o < r.start { AlignedGap(o, r.start, w); }
    }
    SpliceAdds(a, [r], [grown], b, off, w);
  }

  /** `off` fills the gap of one row between ranges `i` and `i + 1`. */
  lemma JoinAdds(rs: seq<Range>, i: nat, off: Offset, w: Offset)
    requires w > 0 && Canonical(rs, w) && i + 1 < |rs| && Aligned(off, w)
    requires rs[i].end + w == off && off + w == rs[i + 1].start
    ensures var rs' := rs[..i] + [Range(rs[i].start, rs[i + 1].end)] + rs[i + 2..];
            Canonical(rs', w) && Adds(rs, rs', off, w)
  {
    var a, r, n, b := rs[..i], rs[i], rs[i + 1], rs[i + 2..];
    var joined := Range(r.start, n.end);
    assert rs == a + [r, n] + b;
    ApartOne(a, joined, b, w);
    CanonicalOne(joined, w);
    SpliceCanonical(a, [r, n], [joined], b, w);
    forall o: nat | Aligned(o, w) ensures Has([joined], o) <==> Has([r, n], o) || o == off {
      HasOne(joined, o);
      HasTwo(r, n, o);
      if r.end < o < n.start { AlignedGap(r.end, o, w); AlignedGap(o, n.start, w); }
    }
    SpliceAdds(a, [r, n], [joined], b, off, w);
  }

  /** The nearest range on either side bounds all the others. */
  lemma NextBounds(rs: seq<Range>, i: nat, off: nat, w: nat)
    requires Canonical(rs, w) && i < |rs|
    requires i + 1 < |rs| ==> off + w < rs[i + 1].start
    ensures forall j :: i < j < |rs| ==> off + w < rs[j].start
  {
    forall j | i < j < |rs| ensures off + w < rs[j].start {
      if j > i + 1 { assert rs[i + 1].end + w < rs[j].start; }
    }
  }

  lemma PrevBounds(rs: seq<Range>, i: nat, off: nat, w: nat)
    requires Canonical(rs, w) && i < |rs|
    requires i > 0 ==> rs[i - 1].end + w < off
    ensures forall j :: 0 <= j < i ==> rs[j].end + w < off
  {
    forall j | 0 <= j < i ensures rs[j].end + w < off {
      if j < i - 1 { assert rs[j].end + w < rs[i - 1].start; }
    }
  }

  lemma NextGap(rs: seq<Range>, i: nat, off: Offset, w: Offset)
    requires w > 0 && Canonical(rs, w) && RowStart(off, w) && i + 1 < |rs| && rs[i].end + w == off
    ensures off + w <= rs[i + 1].start
  {
    AlignedGap(off, rs[i + 1].start, w);
  }

  lemma PrevGap(rs: seq<Range>, i: nat, off: Offset, w: Offset)
    requires w > 0 && Canonical(rs, w) && RowStart(off, w) && 0 < i < |rs| && off + w == rs[i].start
    ensures rs[i - 1].end + w <= off
  {
    AlignedGap(rs[i - 1].end, off, w);
  }

  lemma ExtendEndJoins(rs: seq<Range>, i: nat, off: Offset, w: Offset)
    requires w > 0 && Canonical(rs, w) && Aligned(off, w) && i + 1 < |rs|
    requires rs[i].end + w == off && off + w == rs[i + 1].start
    ensures Canonical(ExtendEnd(rs, i, off, w), w) && Adds(rs, ExtendEnd(rs, i, off, w), off, w)
  {
    JoinAdds(rs, i, off, w);
  }

  lemma ExtendEndGrows(rs: seq<Range>, i: nat, off: Offset, w: Offset)
    requires w > 0 && Canonical(rs, w) && RowStart(off, w) && i < |rs| && rs[i].end + w == off
    requires i + 1 < |rs| ==> off + w < rs[i + 1].start
    ensures Canonical(ExtendEnd(rs, i, off, w), w) && Adds(rs, ExtendEnd(rs, i, off, w), off, w)
  {
    NextBounds(rs, i, off, w);
    GrowEndAdds(rs, i, off, w);
  }

  lemma ExtendStartJoins(rs: seq<Range>, i: nat, off: Offset, w: Offset)
    requires w > 0 && Canonical(rs, w) && Aligned(off, w) && 0 < i < |rs|
    requires rs[i - 1].end + w == off && off + w == rs[i].start
    ensures Canonical(ExtendStart(rs, i, off, w), w) && Adds(rs, ExtendStart(rs, i, off, w), off, w)
  {
    JoinAdds(rs, i - 1, off, w);
  }

  lemma ExtendStartGrows(rs: seq<Range>, i: nat, off: Offset, w: Offset)
    requires w > 0 && Canonical(rs, w) && RowStart(off, w) && i < |rs| && off + w == rs[i].start
    requires i > 0 ==> rs[i - 1].end + w < off
    ensures Canonical(ExtendStart(rs, i, off, w), w) && Adds(rs, ExtendStart(rs, i, off, w), off, w)
  {
    PrevBounds(rs, i, off, w);
    GrowStartAdds(rs, i, off, w);
  }

  /** Whatever the search landed on, inserting an absent row start adds exactly it. */
  lemma ExtendEndAdds(rs: seq<Range>, i: nat, off: Offset, w: Offset)
    requires w > 0 && Canonical(rs, w) && RowStart(off, w) && !Has(rs, off) && i < |rs| && rs[i].end + w == off
    ensures i + 1 < |rs| ==> w <= rs[i + 1].start
    ensures Canonical(ExtendEnd(rs, i, off, w), w) && Adds(rs, ExtendEnd(rs, i, off, w), off, w)
  {
    if i + 1 < |rs| { NextGap(rs, i, off, w); }
    if i + 1 < |rs| && off + w == rs[i + 1].start {
      ExtendEndJoins(rs, i, off, w);
    } else {
      ExtendEndGrows(rs, i, off, w);
    }
  }

  lemma ExtendStartAdds(rs: seq<Range>, i: nat, off: Offset, w: Offset)
    requires w > 0 && Canonical(rs, w) && RowStart(off, w) && !Has(rs, off) && i < |rs| && off + w == rs[i].start
    ensures i > 0 ==> rs[i - 1].end + w < 0x1_0000
    ensures Canonical(ExtendStart(rs, i, off, w), w) && Adds(rs, ExtendStart(rs, i, off, w), off, w)
  {
    if i > 0 { PrevGap(rs, i, off, w); }
    if i > 0 && rs[i - 1].end + w == off {
      ExtendStartJoins(rs, i, off, w);
    } else {
      ExtendStartGrows(rs, i, off, w);
    }
  }

  lemma SpliceDrops(a: seq<Range>, r: Range, m: seq<Range>, b: seq<Range>, lo: nat, hi: nat, w: nat)
    requires Canonical(a + [r] + b, w) && r.start <= lo && hi <= r.end
    requires Drops([r], m, lo, hi, w)
    ensures Drops(a + [r] + b, a + m + b, lo, hi, w)
  {
    forall o: nat | Aligned(o, w) ensures Has(a + m + b, o) <==> Has(a + [r] + b, o) && !(lo <= o <= hi) {
      HasThree(a, [r], b, o);
      HasThree(a, m, b, o);
      HasOne(r, o);
      if lo <= o <= hi { OnlyHere(a, r, b, o, w); }
    }
  }

  lemma OnlyHere(a: seq<Range>, r: Range, b: seq<Range>, o: nat, w: nat)
    requires Canonical(a + [r] + b, w) && r.start <= o <= r.end
    ensures !Has(a, o) && !Has(b, o)
  {
    CanonicalThree(a, [r], b, w);
    assert [r][0] == r;
  }

  /** Ending range `i` at one of its own row starts drops everything it held beyond it. */
  lemma ShortenDrops(rs: seq<Range>, i: nat, off: Offset, w: Offset)
    requires Canonical(rs, w) && RowStart(off, w) && i < |rs| && rs[i].start <= off <= rs[i].end
    ensures var rs' := rs[i := Range(rs[i].start, off)];
            Canonical(rs', w) && Drops(rs, rs', off + 1, rs[i].end, w)
  {
    var a, r, b, short := rs[..i], rs[i], rs[i + 1..], Range(rs[i].start, off);
    assert rs == a + [r] + b && rs[i := short] == a + [short] + b;
    ApartOne(a, short, b, w);
    CanonicalOne(short, w);
    SpliceCanonical(a, [r], [short], b, w);
    forall o: nat ensures Has([short], o) <==> Has([r], o) && !(off + 1 <= o <= r.end) {
      HasOne(short, o);
      HasOne(r, o);
    }
    SpliceDrops(a, r, [short], b, off + 1, r.end, w);
  }

  /** The state of a page's ranges after `remove` of a row start that range `i` holds. */
  function CutOut(rs: seq<Range>, i: nat, off: Offset, w: Offset): seq<Range>
    requires i < |rs| && rs[i].start <= off <= rs[i].end
    requires off < rs[i].end ==> off + w < 0x1_0000
    requires rs[i].start < off ==> w <= off
  {
    var r := rs[i];
    if r.start == off && r.end == off then rs[..i] + rs[i + 1..]
    else if r.start == off then rs[i := Range(Add(off, w), r.end)]
    else if r.end == off then rs[i := Range(r.start, Sub(off, w))]
    else rs[..i] + [Range(r.start, Sub(off, w)), Range(Add(off, w), r.end)] + rs[i + 1..]
  }

  /** The ranges that replace the one `off` is cut out of. */
  function Remains(r: Range, off: Offset, w: Offset): seq<Range>
    requires r.start <= off <= r.end
    requires off < r.end ==> off + w < 0x1_0000
    requires r.start < off ==> w <= off
  {
    (if r.start < off then [Range(r.start, Sub(off, w))] else [])
    + (if off < r.end then [Range(Add(off, w), r.end)] else [])
  }

  lemma CutOutSplices(rs: seq<Range>, i: nat, off: Offset, w: Offset)
    requires i < |rs| && rs[i].start <= off <= rs[i].end
    requires off < rs[i].end ==> off + w < 0x1_0000
    requires rs[i].start < off ==> w <= off
    ensures CutOut(rs, i, off, w) == rs[..i] + Remains(rs[i], off, w) + rs[i + 1..]
  {}

  lemma CutOutDrops(rs: seq<Range>, i: nat, off: Offset, w: Offset)
    requires w > 0 && Canonical(rs, w) && RowStart(off, w) && i < |rs| && rs[i].start <= off <= rs[i].end
    ensures off < rs[i].end ==> off + w < 0x1_0000
    ensures rs[i].start < off ==> w <= off
    ensures Canonical(CutOut(rs, i, off, w), w) && Drops(rs, CutOut(rs, i, off, w), off, off, w)
  {
    var a, r, b := rs[..i], rs[i], rs[i + 1..];
    if r.start < off { AlignedGap(r.start, off, w); }
    if off < r.end { AlignedGap(off, r.end, w); }
    var m := Remains(r, off, w);
    assert rs == a + [r] + b;
    CutOutSplices(rs, i, off, w);
    RemainsCanonical(a, r, b, off, w);
    SpliceCanonical(a, [r], m, b, w);
    RemainsDrops(r, off, w);
    SpliceDrops(a, r, m, b, off, off, w);
  }

  lemma RemainsCanonical(a: seq<Range>, r: Range, b: seq<Range>, off: Offset, w: Offset)
    requires w > 0 && Canonical(a + [r] + b, w) && RowStart(off, w) && r.start <= off <= r.end
    requires off < r.end ==> off + w <= r.end && Aligned(off + w, w)
    requires r.start < off ==> r.start + w <= off && Aligned(off - w, w)
    ensures Canonical(Remains(r, off, w), w) && Apart(a, Remains(r, off, w), w) && Apart(Remains(r, off, w), b, w)
  {
    CanonicalThree(a, [r], b, w);
    assert [r][0] == r;
    RemainsInside(r, off, w);
    RemainsApart(a, r, b, Remains(r, off, w), w);
  }

  /** What remains lies inside the old range. */
  lemma RemainsInside(r: Range, off: Offset, w: Offset)
    requires w > 0 && RowStart(off, w) && RowStart(r.start, w) && RowStart(r.end, w) && r.start <= off <= r.end
    requires off < r.end ==> off + w <= r.end && Aligned(off + w, w)
    requires r.start < off ==> r.start + w <= off && Aligned(off - w, w)
    ensures Canonical(Remains(r, off, w), w)
    ensures forall k :: 0 <= k < |Remains(r, off, w)| ==>
              r.start <= Remains(r, off, w)[k].start && Remains(r, off, w)[k].end <= r.end
  {}

  lemma RemainsApart(a: seq<Range>, r: Range, b: seq<Range>, m: seq<Range>, w: nat)
    requires Apart(a, [r], w) && Apart([r], b, w)
    requires forall k :: 0 <= k < |m| ==> r.start <= m[k].start && m[k].end <= r.end
    ensures Apart(a, m, w) && Apart(m, b, w)
  {
    assert [r][0] == r;
  }

  lemma RemainsDrops(r: Range, off: Offset, w: Offset)
    requires w > 0 && RowStart(off, w) && RowStart(r.start, w) && RowStart(r.end, w) && r.start <= off <= r.end
    requires off < r.end ==> off + w <= r.end
    requires r.start < off ==> r.start + w <= off
    ensures Drops([r], Remains(r, off, w), off, off, w)
  {
    forall o: nat | Aligned(o, w) ensures Has(Remains(r, off, w), o) <==> Has([r], o) && o != off {
      HasOne(r, o);
      var left := if r.start < off then [Range(r.start, off - w)] else [];
      var right := if off < r.end then [Range(off + w, r.end)] else [];
      HasConcat(left, right, o);
      if r.start < off { HasOne(left[0], o); }
      if off < r.end { HasOne(right[0], o); }
      if o < off { AlignedGap(o, off, w); }
      if off < o { AlignedGap(off, o, w); }
    }
  }

  ghost predicate SameRows(rs: seq<Range>, ss: seq<Range>, w: nat) {
    forall o: nat :: Aligned(o, w) ==> (Has(rs, o) <==> Has(ss, o))
  }

  lemma FirstBounds(rs: seq<Range>, o: nat, w: nat)
    requires Canonical(rs, w) && Has(rs, o)
    ensures rs != [] && rs[0].start <= o && (o <= rs[0].end || rs[0].end + w < o)
  {
    var i :| 0 <= i < |rs| && rs[i].start <= o <= rs[i].end;
    if i > 0 { assert rs[0].end + w < rs[i].start; }
  }

  lemma HasFirst(rs: seq<Range>, o: nat)
    requires rs != [] && rs[0].start <= o <= rs[0].end
    ensures Has(rs, o)
  {}

  lemma {:induction false} AlignedPlus(a: nat, w: nat)
    requires w > 0 && Aligned(a, w)
    ensures Aligned(a + w, w)
  {}

  lemma FirstEndLeq(rs: seq<Range>, ss: seq<Range>, w: nat)
    requires w > 0 && Canonical(rs, w) && Canonical(ss, w) && SameRows(rs, ss, w)
    requires rs != [] && ss != [] && rs[0].start == ss[0].start
    ensures ss[0].end <= rs[0].end
  {
    if rs[0].end < ss[0].end {
      var o := rs[0].end + w;
      AlignedGap(rs[0].end, ss[0].end, w);
      AlignedPlus(rs[0].end, w);
      HasFirst(ss, o);
      FirstBounds(rs, o, w);
      assert false;
    }
  }

  lemma TailRows(rs: seq<Range>, o: nat, w: nat)
    requires Canonical(rs, w) && rs != []
    ensures Canonical(rs[1..], w)
    ensures Has(rs[1..], o) <==> Has(rs, o) && rs[0].end < o
  {
    var a, b := rs[..1], rs[1..];
    assert rs == a + b && a == [rs[0]];
    CanonicalConcat(a, b, w);
    HasConcat(a, b, o);
    HasOne(rs[0], o);
    assert a[0] == rs[0];
  }

  lemma SameEmpty(rs: seq<Range>, ss: seq<Range>, w: nat)
    requires Canonical(rs, w) && Canonical(ss, w) && SameRows(rs, ss, w)
    ensures rs == [] <==> ss == []
  {
    if rs != [] { HasFirst(rs, rs[0].start); }
    if ss != [] { HasFirst(ss, ss[0].start); }
  }

  lemma FirstStartLeq(rs: seq<Range>, ss: seq<Range>, w: nat)
    requires Canonical(rs, w) && Canonical(ss, w) && SameRows(rs, ss, w) && rs != [] && ss != []
    ensures rs[0].start <= ss[0].start
  {
    HasFirst(ss, ss[0].start);
    FirstBounds(rs, ss[0].start, w);
  }

  lemma SameFirst(rs: seq<Range>, ss: seq<Range>, w: nat)
    requires w > 0 && Canonical(rs, w) && Canonical(ss, w) && SameRows(rs, ss, w) && rs != [] && ss != []
    ensures rs[0] == ss[0]
  {
    SameRowsSym(rs, ss, w);
    FirstStartLeq(rs, ss, w);
    FirstStartLeq(ss, rs, w);
    FirstEndLeq(rs, ss, w);
    FirstEndLeq(ss, rs, w);
  }

  lemma SameRowsSym(rs: seq<Range>, ss: seq<Range>, w: nat)
    requires SameRows(rs, ss, w)
    ensures SameRows(ss, rs, w)
  {}

  lemma SameTails(rs: seq<Range>, ss: seq<Range>, w: nat)
    requires Canonical(rs, w) && Canonical(ss, w) && SameRows(rs, ss, w)
    requires rs != [] && ss != [] && rs[0] == ss[0]
    ensures Canonical(rs[1..], w) && Canonical(ss[1..], w) && SameRows(rs[1..], ss[1..], w)
  {
    forall o: nat | Aligned(o, w) ensures Has(rs[1..], o) <==> Has(ss[1..], o) {
      TailRows(rs, o, w);
      TailRows(ss, o, w);
    }
    TailRows(rs, 0, w);
    TailRows(ss, 0, w);
  }

  lemma SameHeadAndTail(rs: seq<Range>, ss: seq<Range>)
    requires rs != [] && ss != [] && rs[0] == ss[0] && rs[1..] == ss[1..]
    ensures rs == ss
  {
    assert rs == [rs[0]] + rs[1..] && ss == [ss[0]] + ss[1..];
  }

  /** A set of row starts has one canonical form. */
  lemma {:induction false} CanonicalUnique(rs: seq<Range>, ss: seq<Range>, w: nat)
    requires w > 0 && Canonical(rs, w) && Canonical(ss, w) && SameRows(rs, ss, w)
    ensures rs == ss
  {
    SameEmpty(rs, ss, w);
    if rs != [] {
      SameFirst(rs, ss, w);
      SameTails(rs, ss, w);
      CanonicalUnique(rs[1..], ss[1..], w);
      SameHeadAndTail(rs, ss);
    }
  }

  /** When `off` fills the gap between ranges `i` and `i + 1`, the search may land on either; the
      resulting ranges are the same. */
  lemma EitherNeighbour(rs: seq<Range>, i: nat, off: Offset, w: Offset)
    requires w > 0 && Canonical(rs, w) && RowStart(off, w) && i + 1 < |rs|
    requires rs[i].end + w == off && off + w == rs[i + 1].start
    ensures ExtendEnd(rs, i, off, w) == ExtendStart(rs, i + 1, off, w)
    ensures InsertProbe(rs[i], off, w) == Probe(Equal, true, false)
    ensures InsertProbe(rs[i + 1], off, w) == Probe(Equal, false, false)
  {}

  /** The row starts of one range, then of a page, in the order `iter` yields them. */
  function RangeList(lo: nat, hi: nat, w: nat): seq<nat>
    decreases hi - lo
  {
    if lo > hi || w == 0 then [] else [lo] + RangeList(lo + w, hi, w)
  }

  function PageList(rs: seq<Range>, w: nat): seq<nat> {
    if rs == [] then [] else RangeList(rs[0].start, rs[0].end, w) + PageList(rs[1..], w)
  }

  ghost predicate Increasing(s: seq<nat>) {
    forall i, j :: 0 <= i < j < |s| ==> s[i] < s[j]
  }

  lemma IncreasingConcat(a: seq<nat>, b: seq<nat>, mid: nat)
    requires Increasing(a) && Increasing(b)
    requires (forall o :: o in a ==> o <= mid) && (forall o :: o in b ==> mid < o)
    ensures Increasing(a + b)
  {
    assert forall i :: 0 <= i < |a| ==> a[i] in a;
    assert forall i :: 0 <= i < |b| ==> b[i] in b;
  }

  lemma {:induction false} RangeListRows(lo: nat, hi: nat, w: nat)
    requires w > 0 && Aligned(lo, w)
    ensures Increasing(RangeList(lo, hi, w))
    ensures forall o: nat :: o in RangeList(lo, hi, w) <==> lo <= o <= hi && Aligned(o, w)
    decreases hi - lo
  {
    if lo <= hi {
      AlignedPlus(lo, w);
      RangeListRows(lo + w, hi, w);
      var rest := RangeList(lo + w, hi, w);
      forall o: nat ensures o in [lo] + rest <==> lo <= o <= hi && Aligned(o, w) {
        if lo < o && Aligned(o, w) { AlignedGap(lo, o, w); }
      }
      IncreasingConcat([lo], rest, lo);
    }
  }

  /** A page's list is strictly increasing and holds exactly its row starts. */
  lemma {:induction false} PageListRows(rs: seq<Range>, w: nat)
    requires w > 0 && Canonical(rs, w)
    ensures Increasing(PageList(rs, w))
    ensures forall o: nat :: o in PageList(rs, w) <==> Has(rs, o) && Aligned(o, w)
  {
    if rs != [] {
      var a, b := RangeList(rs[0].start, rs[0].end, w), PageList(rs[1..], w);
      TailRows(rs, 0, w);
      PageListRows(rs[1..], w);
      RangeListRows(rs[0].start, rs[0].end, w);
      forall o: nat
        ensures o in b ==> rs[0].end < o
        ensures o in a + b <==> Has(rs, o) && Aligned(o, w)
      {
        TailRows(rs, o, w);
        if Has(rs, o) { FirstBounds(rs, o, w); }
        if rs[0].start <= o <= rs[0].end { HasFirst(rs, o); }
      }
      IncreasingConcat(a, b, rs[0].end);
    }
  }
}
