/** The raw-memory fast path of derived impls for `#[repr(C)]` structs of primitives, against the
    field-by-field path. Layout follows "The C representation" in the Type Layout chapter of the
    Rust Reference, on a little-endian target. */
module ReprC {
  import opened Options
  import opened Bsatn
  import opened Multiples
  import opened Seqs

  datatype Prim = Prim(size: nat, align: nat)

  ghost predicate ValidFields(fs: seq<Prim>) {
    forall i :: 0 <= i < |fs| ==> fs[i].align > 0
  }

  /** The least multiple of `a` that is at least `n`. */
  function RoundUp(n: nat, a: nat): (r: nat)
    requires a > 0
    ensures r % a == 0 && n <= r < n + a
  {
    MultipleOf((n + a - 1) / a, a);
    (n + a - 1) / a * a
  }

  /** No smaller multiple will do. */
  lemma RoundUpLeast(n: nat, a: nat, m: nat)
    requires a > 0 && m % a == 0 && n <= m
    ensures RoundUp(n, a) <= m
  {
    if m < RoundUp(n, a) { MultiplesApart(m, RoundUp(n, a), a); }
  }

  /** Where field `i` starts, and where the first `i` fields end. */
  function OffsetOf(fs: seq<Prim>, i: nat): (o: nat)
    requires ValidFields(fs) && i < |fs|
    ensures o % fs[i].align == 0 && EndOf(fs, i) <= o < EndOf(fs, i) + fs[i].align
  {
    RoundUp(EndOf(fs, i), fs[i].align)
  }

  function EndOf(fs: seq<Prim>, i: nat): nat
    requires ValidFields(fs) && i <= |fs|
  {
    if i == 0 then 0 else RoundUp(EndOf(fs, i - 1), fs[i - 1].align) + fs[i - 1].size
  }

  /** The greatest alignment of the first `i` fields; 1 if there are none. */
  function AlignOf(fs: seq<Prim>, i: nat): (a: nat)
    requires ValidFields(fs) && i <= |fs|
    ensures a > 0 && forall j :: 0 <= j < i ==> fs[j].align <= a
    ensures a == 1 || exists j :: 0 <= j < i && fs[j].align == a
  {
    if i == 0 then 1 else
    var a := AlignOf(fs, i - 1);
    if fs[i - 1].align > a then fs[i - 1].align else a
  }

  function SizeOf(fs: seq<Prim>): (n: nat)
    requires ValidFields(fs)
    ensures n % AlignOf(fs, |fs|) == 0 && EndOf(fs, |fs|) <= n < EndOf(fs, |fs|) + AlignOf(fs, |fs|)
  {
    RoundUp(EndOf(fs, |fs|), AlignOf(fs, |fs|))
  }

  /** The layout of "The C representation", field by field: the first field starts at 0, each other one at
      the first multiple of its alignment past the field before it, and the struct ends at the first
      multiple of the greatest alignment past the last field. */
  lemma LayoutIsC(fs: seq<Prim>, i: nat, n: nat, a: nat)
    requires ValidFields(fs) && i < |fs|
    requires a in Aligns(fs) && forall j :: 0 <= j < |fs| ==> fs[j].align <= a
    ensures OffsetOf(fs, 0) == 0
    ensures OffsetOf(fs, i) % fs[i].align == 0 && SizeOf(fs) % a == 0
    ensures i > 0 ==> OffsetOf(fs, i - 1) + fs[i - 1].size <= OffsetOf(fs, i)
    ensures i > 0 && OffsetOf(fs, i - 1) + fs[i - 1].size <= n && n % fs[i].align == 0 ==> OffsetOf(fs, i) <= n
    ensures OffsetOf(fs, |fs| - 1) + fs[|fs| - 1].size <= SizeOf(fs)
    ensures OffsetOf(fs, |fs| - 1) + fs[|fs| - 1].size <= n && n % a == 0 ==> SizeOf(fs) <= n
  {
    GreatestAlign(fs, a);
    RoundUpLeast(0, fs[0].align, 0);
    if i > 0 && EndOf(fs, i) <= n && n % fs[i].align == 0 { RoundUpLeast(EndOf(fs, i), fs[i].align, n); }
    if EndOf(fs, |fs|) <= n && n % a == 0 { RoundUpLeast(EndOf(fs, |fs|), a, n); }
  }

  function Aligns(fs: seq<Prim>): set<nat> {
    set f | f in fs :: f.align
  }

  lemma GreatestAlign(fs: seq<Prim>, a: nat)
    requires ValidFields(fs) && a in Aligns(fs) && forall j :: 0 <= j < |fs| ==> fs[j].align <= a
    ensures AlignOf(fs, |fs|) == a
  {
    var f :| f in fs && f.align == a;
    var j :| 0 <= j < |fs| && fs[j] == f;
  }

  /** Alignments are powers of two. */
  predicate IsPowerOfTwo(a: nat) {
    a == 1 || (a > 0 && a % 2 == 0 && IsPowerOfTwo(a / 2))
  }

  lemma {:induction false} PowersDivide(a: nat, b: nat)
    requires IsPowerOfTwo(a) && IsPowerOfTwo(b) && a <= b
    ensures b % a == 0
    decreases b
  {
    if a > 1 {
      PowersDivide(a / 2, b / 2);
      var q := b / 2 / (a / 2);
      assert b / 2 == q * (a / 2);
      assert b == q * a;
      MultipleOf(q, a);
    }
  }

  /** So the size is a multiple of every field's alignment, as an array of such structs needs. */
  lemma SizeAligned(fs: seq<Prim>, i: nat)
    requires ValidFields(fs) && (forall j :: 0 <= j < |fs| ==> IsPowerOfTwo(fs[j].align)) && i < |fs|
    ensures SizeOf(fs) % fs[i].align == 0
  {
    var a := AlignOf(fs, |fs|);
    assert IsPowerOfTwo(a);
    PowersDivide(fs[i].align, a);
    MultipleTrans(fs[i].align, a, SizeOf(fs));
  }

  /** A word and a byte end in three bytes of padding. */
  lemma TrailingPaddingExample()
    ensures SizeOf([Prim(4, 4), Prim(1, 1)]) == 8 && !Paddingless([Prim(4, 4), Prim(1, 1)])
  {
    var fs := [Prim(4, 4), Prim(1, 1)];
    assert EndOf(fs, 1) == 4 && EndOf(fs, 2) == 5 && AlignOf(fs, 1) == 4 && AlignOf(fs, 2) == 4;
    assert SumTo(fs, 1) == 4 && SumTo(fs, 2) == 5;
  }

  function SumTo(fs: seq<Prim>, i: nat): nat
    requires i <= |fs|
  {
    if i == 0 then 0 else SumTo(fs, i - 1) + fs[i - 1].size
  }

  /** The guard the macro evaluates at compile time. */
  predicate Paddingless(fs: seq<Prim>)
    requires ValidFields(fs)
  {
    SizeOf(fs) == SumTo(fs, |fs|)
  }

  /** Padding only accumulates. */
  lemma {:induction false} EndAtLeast(fs: seq<Prim>, i: nat, j: nat)
    requires ValidFields(fs) && i <= j <= |fs|
    ensures EndOf(fs, j) - SumTo(fs, j) >= EndOf(fs, i) - SumTo(fs, i) >= 0
    decreases j
  {
    if i < j {
      EndAtLeast(fs, i, j - 1);
    } else if i > 0 {
      EndAtLeast(fs, i - 1, i - 1);
    }
  }

  /** The guard holds exactly when every field starts where the previous ones end and nothing
      follows the last one. */
  lemma PaddinglessIff(fs: seq<Prim>)
    requires ValidFields(fs)
    ensures Paddingless(fs) <==>
            SizeOf(fs) == EndOf(fs, |fs|) && forall i :: 0 <= i < |fs| ==> OffsetOf(fs, i) == SumTo(fs, i)
  {
    EndAtLeast(fs, 0, |fs|);
    if Paddingless(fs) {
      forall i | 0 <= i < |fs| ensures OffsetOf(fs, i) == SumTo(fs, i) {
        EndAtLeast(fs, i, |fs|);
        EndAtLeast(fs, i + 1, |fs|);
      }
    } else if forall i :: 0 <= i < |fs| ==> OffsetOf(fs, i) == SumTo(fs, i) {
      if |fs| > 0 { assert OffsetOf(fs, |fs| - 1) == SumTo(fs, |fs| - 1); }
    }
  }

  /** A struct value: one unsigned bit pattern per field. */
  ghost predicate IsStruct(fs: seq<Prim>, vals: seq<nat>) {
    |vals| == |fs| && forall i :: 0 <= i < |fs| ==> vals[i] < Pow256(fs[i].size)
  }

  function FieldTypes(fs: seq<Prim>): (ts: seq<Type>)
    ensures |ts| == |fs| && forall i :: 0 <= i < |fs| ==> ts[i] == UInt(fs[i].size)
  {
    seq(|fs|, i requires 0 <= i < |fs| => UInt(fs[i].size))
  }

  function FieldValues(vals: seq<nat>): (vs: seq<Value>)
    ensures |vs| == |vals| && forall i :: 0 <= i < |vals| ==> vs[i] == VUInt(vals[i])
  {
    seq(|vals|, i requires 0 <= i < |vals| => VUInt(vals[i]))
  }

  ghost predicate FieldHolds(fs: seq<Prim>, val: nat, mem: seq<Byte>, i: nat)
    requires ValidFields(fs) && i < |fs|
  {
    var o, n := OffsetOf(fs, i), fs[i].size;
    o + n <= |mem| && mem[o..o + n] == LeBytes(val, n)
  }

  function Patterns(vs: seq<Value>): (vals: seq<nat>)
    ensures |vals| == |vs| && forall i :: 0 <= i < |vs| && vs[i].VUInt? ==> vals[i] == vs[i].n
  {
    seq(|vs|, i requires 0 <= i < |vs| => if vs[i].VUInt? then vs[i].n else 0)
  }

  /** `mem` is a memory image of the struct; padding bytes are arbitrary. */
  ghost predicate IsImage(fs: seq<Prim>, vals: seq<nat>, mem: seq<Byte>)
    requires ValidFields(fs) && |vals| == |fs|
  {
    |mem| == SizeOf(fs) && forall i :: 0 <= i < |fs| ==> FieldHolds(fs, vals[i], mem, i)
  }

  /** The bytes of each field. */
  function Chunks(fs: seq<Prim>, vals: seq<nat>): (cs: seq<seq<Byte>>)
    requires |vals| == |fs|
    ensures |cs| == |fs| && forall i :: 0 <= i < |fs| ==> cs[i] == LeBytes(vals[i], fs[i].size)
  {
    seq(|fs|, i requires 0 <= i < |fs| => LeBytes(vals[i], fs[i].size))
  }

  lemma {:induction false} ChunksLength(fs: seq<Prim>, cs: seq<seq<Byte>>, i: nat)
    requires |cs| == |fs| && (forall k :: 0 <= k < |fs| ==> |cs[k]| == fs[k].size) && i <= |fs|
    ensures |Flat(cs[..i])| == SumTo(fs, i)
  {
    if i > 0 {
      ChunksLength(fs, cs, i - 1);
      FlatNext(cs, i - 1);
    }
  }

  lemma AllChunks(fs: seq<Prim>, vals: seq<nat>)
    requires |vals| == |fs|
    ensures |Flat(Chunks(fs, vals))| == SumTo(fs, |fs|)
  {
    ChunksLength(fs, Chunks(fs, vals), |fs|);
    assert Chunks(fs, vals)[..|fs|] == Chunks(fs, vals);
  }

  lemma FieldTails(fs: seq<Prim>, vals: seq<nat>)
    requires fs != [] && |vals| == |fs|
    ensures FieldTypes(fs)[1..] == FieldTypes(fs[1..]) && FieldValues(vals)[1..] == FieldValues(vals[1..])
  {
    assert forall i :: 0 <= i < |fs| - 1 ==> FieldTypes(fs)[1..][i] == FieldTypes(fs[1..])[i];
    assert forall i :: 0 <= i < |fs| - 1 ==> FieldValues(vals)[1..][i] == FieldValues(vals[1..])[i];
  }

  lemma EncodeInteger(w: nat, n: nat)
    requires n < Pow256(w)
    ensures Encode(UInt(w), VUInt(n)) == Some(LeBytes(n, w))
  {}

  lemma FirstField(ts: seq<Type>, vs: seq<Value>, a: seq<Byte>, b: seq<Byte>)
    requires |ts| == |vs| > 0 && forall i :: 0 <= i < |vs| ==> HasType(ts[i], vs[i])
    requires Encode(ts[0], vs[0]) == Some(a) && EncodeFields(ts[1..], vs[1..]) == Some(b)
    ensures EncodeFields(ts, vs) == Some(a + b)
  {}

  lemma FirstChunk(fs: seq<Prim>, vals: seq<nat>)
    requires fs != [] && |vals| == |fs|
    ensures Flat(Chunks(fs, vals)) == LeBytes(vals[0], fs[0].size) + Flat(Chunks(fs[1..], vals[1..]))
  {
    var cs, rest := Chunks(fs, vals), Chunks(fs[1..], vals[1..]);
    assert forall i :: 0 <= i < |rest| ==> cs[1..][i] == rest[i];
    assert cs[1..] == rest;
  }

  /** The field-by-field serializer writes the fields one after the other. */
  lemma {:induction false} FieldByField(fs: seq<Prim>, vals: seq<nat>)
    requires IsStruct(fs, vals)
    ensures EncodeFields(FieldTypes(fs), FieldValues(vals)) == Some(Flat(Chunks(fs, vals)))
    decreases |fs|
  {
    if fs != [] {
      FieldByField(fs[1..], vals[1..]);
      FieldTails(fs, vals);
      EncodeInteger(fs[0].size, vals[0]);
      FirstField(FieldTypes(fs), FieldValues(vals), LeBytes(vals[0], fs[0].size), Flat(Chunks(fs[1..], vals[1..])));
      FirstChunk(fs, vals);
    }
  }

  ghost predicate SliceHolds(fs: seq<Prim>, chunk: seq<Byte>, mem: seq<Byte>, i: nat)
    requires i < |fs|
  {
    SumTo(fs, i + 1) <= |mem| && mem[SumTo(fs, i)..SumTo(fs, i + 1)] == chunk
  }

  lemma FieldAt(fs: seq<Prim>, vals: seq<nat>, mem: seq<Byte>, i: nat)
    requires ValidFields(fs) && |vals| == |fs| && Paddingless(fs) && IsImage(fs, vals, mem) && i < |fs|
    ensures SliceHolds(fs, LeBytes(vals[i], fs[i].size), mem, i)
  {
    PaddinglessIff(fs);
    assert OffsetOf(fs, i) == SumTo(fs, i);
    assert FieldHolds(fs, vals[i], mem, i);
  }

  /** Without padding, the image is the concatenation of the fields. */
  lemma {:induction false} ImagePrefix(fs: seq<Prim>, chunks: seq<seq<Byte>>, mem: seq<Byte>, i: nat)
    requires |chunks| == |fs| && i <= |fs|
    requires forall k :: 0 <= k < |fs| ==> SliceHolds(fs, chunks[k], mem, k)
    ensures SumTo(fs, i) <= |mem| && mem[..SumTo(fs, i)] == Flat(chunks[..i])
  {
    if i > 0 {
      ImagePrefix(fs, chunks, mem, i - 1);
      assert SliceHolds(fs, chunks[i - 1], mem, i - 1);
      FlatNext(chunks, i - 1);
      var a, b := SumTo(fs, i - 1), SumTo(fs, i);
      assert mem[..b] == mem[..a] + mem[a..b];
    }
  }

  /** Writing the raw bytes is the field-by-field encoding, for every struct and every image of it,
      exactly when the guard holds. */
  lemma RawSerializeIff(fs: seq<Prim>, vals: seq<nat>, mem: seq<Byte>)
    requires ValidFields(fs) && IsStruct(fs, vals) && IsImage(fs, vals, mem)
    ensures Some(mem) == EncodeFields(FieldTypes(fs), FieldValues(vals)) <==> Paddingless(fs)
  {
    var chunks := Chunks(fs, vals);
    FieldByField(fs, vals);
    AllChunks(fs, vals);
    if Paddingless(fs) {
      forall k | 0 <= k < |fs| ensures SliceHolds(fs, chunks[k], mem, k) { FieldAt(fs, vals, mem, k); }
      ImagePrefix(fs, chunks, mem, |fs|);
      assert mem[..|mem|] == mem && chunks[..|fs|] == chunks;
    }
  }

  /** `deserialize_from_bsatn` under the guard: read `size_of::<Self>()` bytes as the struct. */
  function RawDeserialize(fs: seq<Prim>, bs: seq<Byte>): DecodedAll
    requires ValidFields(fs) && Paddingless(fs)
  {
    if |bs| < SizeOf(fs) then BadAll else
    OkAll(FieldValues(FieldsIn(fs, bs[..SizeOf(fs)])), bs[SizeOf(fs)..])
  }

  /** Field `i` of a struct, read from its memory. */
  function FieldIn(fs: seq<Prim>, mem: seq<Byte>, i: nat): (val: nat)
    requires ValidFields(fs) && |mem| == SizeOf(fs) && i < |fs|
    ensures val < Pow256(fs[i].size) && FieldHolds(fs, val, mem, i)
  {
    EndMonotone(fs, i + 1, |fs|);
    var o, n := OffsetOf(fs, i), fs[i].size;
    LeCanonical(mem[o..o + n]);
    LeValue(mem[o..o + n])
  }

  function FieldsIn(fs: seq<Prim>, mem: seq<Byte>): (vals: seq<nat>)
    requires ValidFields(fs) && |mem| == SizeOf(fs)
    ensures IsStruct(fs, vals) && IsImage(fs, vals, mem)
  {
    seq(|fs|, i requires 0 <= i < |fs| => FieldIn(fs, mem, i))
  }

  lemma {:induction false} EndMonotone(fs: seq<Prim>, i: nat, j: nat)
    requires ValidFields(fs) && i <= j <= |fs|
    ensures EndOf(fs, i) <= EndOf(fs, j)
  {
    if i < j { EndMonotone(fs, i, j - 1); }
  }

  /** Reading the raw bytes agrees with the field-by-field decoder on every input, short ones
      included. */
  lemma RawDeserializeAgrees(fs: seq<Prim>, bs: seq<Byte>)
    requires ValidFields(fs) && Paddingless(fs)
    ensures RawDeserialize(fs, bs) == DecodeFields(FieldTypes(fs), bs)
  {
    if |bs| >= SizeOf(fs) {
      var mem, rest := bs[..SizeOf(fs)], bs[SizeOf(fs)..];
      assert bs == mem + rest;
      LongInput(fs, mem, rest);
    } else {
      ShortInputFails(fs, bs);
    }
  }

  lemma LongInput(fs: seq<Prim>, mem: seq<Byte>, rest: seq<Byte>)
    requires ValidFields(fs) && Paddingless(fs) && |mem| == SizeOf(fs)
    ensures DecodeFields(FieldTypes(fs), mem + rest) == OkAll(FieldValues(FieldsIn(fs, mem)), rest)
  {
    var vals := FieldsIn(fs, mem);
    RawSerializeIff(fs, vals, mem);
    UIntsRoundTrip(fs, vals, rest);
  }

  lemma UIntsRoundTrip(fs: seq<Prim>, vals: seq<nat>, rest: seq<Byte>)
    requires IsStruct(fs, vals)
    ensures EncodeFields(FieldTypes(fs), FieldValues(vals)).Some?
    ensures DecodeFields(FieldTypes(fs), EncodeFields(FieldTypes(fs), FieldValues(vals)).value + rest)
            == OkAll(FieldValues(vals), rest)
  {
    FieldByField(fs, vals);
    FieldsRoundTrip(FieldTypes(fs), FieldValues(vals), rest);
  }

  lemma IntegersEncodeTo(fs: seq<Prim>, vs: seq<Value>)
    requires |vs| == |fs| && forall i :: 0 <= i < |fs| ==> HasType(FieldTypes(fs)[i], vs[i])
    requires EncodeFields(FieldTypes(fs), vs).Some?
    ensures |EncodeFields(FieldTypes(fs), vs).value| == SumTo(fs, |fs|)
  {
    var vals := Patterns(vs);
    forall i | 0 <= i < |fs| ensures vs[i] == VUInt(vals[i]) && vals[i] < Pow256(fs[i].size) {
      assert HasType(FieldTypes(fs)[i], vs[i]);
    }
    assert vs == FieldValues(vals);
    FieldByField(fs, vals);
    AllChunks(fs, vals);
  }

  lemma ShortInputFails(fs: seq<Prim>, bs: seq<Byte>)
    requires |bs| < SumTo(fs, |fs|)
    ensures DecodeFields(FieldTypes(fs), bs) == BadAll
  {
    var d := DecodeFields(FieldTypes(fs), bs);
    if d.OkAll? {
      FieldsCanonical(FieldTypes(fs), bs);
      IntegersEncodeTo(fs, d.vs);
      assert false;
    }
  }
}
