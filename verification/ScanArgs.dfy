/** The pool of iteration buffers, and the packed arguments of a ranged index scan. */
module ScanArgs {
  import opened Options
  import opened Bsatn
  import opened HostRows
  import opened Seqs

  const DEFAULT_BUFFER_CAPACITY := ROW_ITER_CHUNK_SIZE * 2

  /** `ITER_BUFS`. `held` are the buffers taken and not dropped yet. */
  class BufPool {
    var bufs: seq<Buffer>
    ghost var held: set<Buffer>

    /** Pooled buffers are empty, distinct and held by nobody. */
    ghost predicate Valid()
      reads this, bufs, held
    {
      && (forall i, j :: 0 <= i < j < |bufs| ==> bufs[i] != bufs[j])
      && (forall i :: 0 <= i < |bufs| ==> bufs[i].Valid() && bufs[i].data == [] && bufs[i] !in held)
      && (forall b :: b in held ==> b.Valid())
    }

    /** Every buffer there is. */
    ghost function All(): set<Buffer>
      reads this
    {
      held + set b | b in bufs
    }

    constructor ()
      ensures Valid() && bufs == [] && held == {}
    {
      bufs, held := [], {};
    }

    /** The holder of a buffer may do what it likes with it. */
    twostate lemma HolderWrote(b: Buffer)
      requires old(Valid()) && bufs == old(bufs) && held == old(held) && b in held && b.Valid()
      requires forall c :: c in bufs || (c in held && c != b) ==> c.data == old(c.data) && c.cap == old(c.cap)
      ensures Valid()
    {}

    /** `IterBuf::take`. */
    method Take() returns (b: Buffer)
      requires Valid()
      modifies this
      ensures Valid() && b !in old(held) && held == old(held) + {b} && b.data == []
      ensures if old(bufs) == [] then fresh(b) && b.cap == DEFAULT_BUFFER_CAPACITY else b in old(bufs)
      ensures All() == old(All()) + {b} && (b in old(bufs) ==> All() == old(All()))
    {
      if bufs == [] {
        b := new Buffer(DEFAULT_BUFFER_CAPACITY);
      } else {
        b := bufs[|bufs| - 1];
        bufs := bufs[..|bufs| - 1];
      }
      held := held + {b};
    }

    /** `Drop for IterBuf`. */
    method Drop(b: Buffer)
      requires Valid() && b in held
      modifies this, b
      ensures Valid() && held == old(held) - {b} && bufs == old(bufs) + [b] && All() == old(All())
      ensures forall c :: c in held ==> c.data == old(c.data)
    {
      b.Clear();
      bufs, held := bufs + [b], held - {b};
    }
  }

  /** What the owners of buffers do, in any order: take one, append to the `k`th one held, drop it. */
  datatype PoolStep = TakeOne | Append(k: nat, bytes: seq<Byte>) | DropOne(k: nat)

  /** The contents each owner expects, if every buffer were new and private. */
  function Expected(steps: seq<PoolStep>, n: nat): seq<seq<Byte>>
    requires n <= |steps|
  {
    if n == 0 then [] else ExpectedStep(Expected(steps, n - 1), steps[n - 1])
  }

  function ExpectedStep(held: seq<seq<Byte>>, step: PoolStep): seq<seq<Byte>> {
    match step
    case TakeOne => held + [[]]
    case Append(k, bytes) => if k < |held| then held[k := held[k] + bytes] else held
    case DropOne(k) => if k < |held| then held[..k] + held[k + 1..] else held
  }

  ghost predicate Owns(pool: BufPool, mine: seq<Buffer>, contents: seq<seq<Byte>>)
    reads pool, mine
  {
    && |mine| == |contents| && (forall i, j :: 0 <= i < j < |mine| ==> mine[i] != mine[j])
    && (forall i :: 0 <= i < |mine| ==> mine[i] in pool.held) && (forall b :: b in pool.held ==> b in mine)
    && forall i :: 0 <= i < |mine| ==> mine[i].data == contents[i]
  }

  method TakeStep(pool: BufPool, mine: seq<Buffer>, ghost contents: seq<seq<Byte>>) returns (mine': seq<Buffer>)
    requires pool.Valid() && Owns(pool, mine, contents)
    modifies pool
    ensures pool.Valid() && Owns(pool, mine', contents + [[]]) && fresh(pool.All() - old(pool.All()))
  {
    var b := pool.Take();
    mine' := mine + [b];
  }

  method AppendStep(pool: BufPool, mine: seq<Buffer>, k: nat, bytes: seq<Byte>, ghost contents: seq<seq<Byte>>)
    requires pool.Valid() && Owns(pool, mine, contents) && k < |mine|
    modifies mine[k]
    ensures pool.Valid() && Owns(pool, mine, contents[k := contents[k] + bytes])
  {
    mine[k].Write(bytes);
  }

  method DropStep(pool: BufPool, mine: seq<Buffer>, k: nat, ghost contents: seq<seq<Byte>>) returns (mine': seq<Buffer>)
    requires pool.Valid() && Owns(pool, mine, contents) && k < |mine|
    modifies pool, mine[k]
    ensures pool.Valid() && Owns(pool, mine', contents[..k] + contents[k + 1..]) && pool.All() == old(pool.All())
  {
    pool.Drop(mine[k]);
    mine' := mine[..k] + mine[k + 1..];
    ghost var contents' := contents[..k] + contents[k + 1..];
    forall i | 0 <= i < |mine'| ensures mine'[i].data == contents'[i] && mine'[i] in pool.held {
      var j := if i < k then i else i + 1;
      assert mine'[i] == mine[j] && contents'[i] == contents[j];
    }
    forall b | b in pool.held ensures b in mine' {
      var i :| 0 <= i < |mine| && mine[i] == b;
      assert mine'[if i < k then i else i - 1] == b;
    }
  }

  method DoPoolStep(pool: BufPool, mine: seq<Buffer>, step: PoolStep, ghost contents: seq<seq<Byte>>)
    returns (mine': seq<Buffer>)
    requires pool.Valid() && Owns(pool, mine, contents)
    modifies pool, pool.All()
    ensures pool.Valid() && Owns(pool, mine', ExpectedStep(contents, step)) && fresh(pool.All() - old(pool.All()))
  {
    mine' := mine;
    match step
    case TakeOne => mine' := TakeStep(pool, mine, contents);
    case Append(k, bytes) => if k < |mine| { AppendStep(pool, mine, k, bytes, contents); }
    case DropOne(k) => if k < |mine| { mine' := DropStep(pool, mine, k, contents); }
  }

  /** In every interleaving, each held buffer has exactly what its owner wrote to it. */
  method RunPool(pool: BufPool, steps: seq<PoolStep>, n: nat) returns (mine: seq<Buffer>)
    requires pool.Valid() && pool.held == {} && n <= |steps|
    modifies pool, pool.All()
    ensures pool.Valid() && Owns(pool, mine, Expected(steps, n)) && fresh(pool.All() - old(pool.All()))
  {
    if n == 0 { return []; }
    mine := RunPool(pool, steps, n - 1);
    mine := DoPoolStep(pool, mine, steps[n - 1], Expected(steps, n - 1));
  }

  datatype Bound = Included(v: Value) | Excluded(v: Value) | Unbounded

  /** The last queried column: one value, or a range. */
  datatype Term = Single(elem: Bound) | Range(start: Bound, end: Bound)

  function BoundType(t: Type): Type {
    Sum([t, t, Product([])])
  }

  /** `Serialize for Bound`. */
  function BoundValue(b: Bound): Value {
    match b
    case Included(v) => VSum(0, v)
    case Excluded(v) => VSum(1, v)
    case Unbounded => VSum(2, VProduct([]))
  }

  /** The host's `BoundVisitor`. */
  function ToBound(v: Value): Bound {
    if v.VSum? && v.variant == 0 then Included(v.payload)
    else if v.VSum? && v.variant == 1 then Excluded(v.payload)
    else Unbounded
  }

  ghost predicate GoodBound(t: Type, b: Bound) {
    b.Unbounded? || Encodable(t, b.v)
  }

  function BoundBytes(t: Type, b: Bound): (bs: seq<Byte>)
    requires GoodBound(t, b)
    ensures Encode(BoundType(t), BoundValue(b)) == Some(bs)
  {
    assert Encodable(BoundType(t), BoundValue(b));
    ToBytes(BoundType(t), BoundValue(b))
  }

  /** The bytes of a bound: the tag 0, 1 or 2 for included, excluded and unbounded, and the value. */
  ghost predicate IsBound(t: Type, b: Bound, bs: seq<Byte>)
    requires GoodBound(t, b)
  {
    match b
    case Included(v) => bs == [0] + ToBytes(t, v)
    case Excluded(v) => bs == [1] + ToBytes(t, v)
    case Unbounded => bs == [2]
  }

  lemma BoundFormat(t: Type, b: Bound)
    requires GoodBound(t, b)
    ensures IsBound(t, b, BoundBytes(t, b))
  {
    var sum := BoundType(t);
    assert sum.variants[0] == t && sum.variants[1] == t && sum.variants[2] == Product([]);
    if b.Unbounded? {
      assert Encode(Product([]), VProduct([])) == Some([]);
      assert [2] + [] == [2];
    }
  }

  lemma BoundDecodes(t: Type, b: Bound)
    requires GoodBound(t, b)
    ensures Decode(BoundType(t), BoundBytes(t, b)) == Ok(BoundValue(b), []) && ToBound(BoundValue(b)) == b
  {
    assert Encodable(BoundType(t), BoundValue(b));
    ToBytesDecodes(BoundType(t), BoundValue(b), []);
    assert BoundBytes(t, b) + [] == BoundBytes(t, b);
  }

  function Start(term: Term): Bound {
    if term.Single? then term.elem else term.start
  }

  function End(term: Term): Bound {
    if term.Single? then term.elem else term.end
  }

  ghost predicate Prefixes(key: seq<Type>, prefix: seq<Value>) {
    |prefix| <= |key| && forall i :: 0 <= i < |prefix| ==> Encodable(key[i], prefix[i])
  }

  /** A query: values for a proper prefix of the index columns, and a term for the next one. */
  ghost predicate Query(key: seq<Type>, prefix: seq<Value>, term: Term) {
    && |prefix| < |key| && Prefixes(key, prefix)
    && GoodBound(key[|prefix|], Start(term)) && GoodBound(key[|prefix|], End(term))
  }

  /** `IndexScanRangeArgs`: one buffer, and where its parts begin. */
  datatype Args = Args(data: Buffer, prefixElems: nat, rstart: nat, rend: Option<nat>)

  ghost predicate InBounds(args: Args)
    reads args.data
  {
    && args.rstart <= |args.data.data|
    && (args.rend.Some? ==> args.rstart <= args.rend.value <= |args.data.data|)
  }

  datatype Slices = Slices(prefix: seq<Byte>, prefixElems: nat, rstart: seq<Byte>, rend: seq<Byte>)

  /** `args_for_syscall`. */
  function ArgsForSyscall(args: Args): Slices
    requires InBounds(args)
    reads args.data
  {
    var bytes := args.data.data;
    if args.rend.Some? then
      Slices(bytes[..args.rstart], args.prefixElems, bytes[args.rstart..args.rend.value], bytes[args.rend.value..])
    else
      Slices(bytes[..args.rstart], args.prefixElems, bytes[args.rstart..], bytes[args.rstart..])
  }

  datatype Bounds = Bounds(prefix: seq<Value>, start: Bound, end: Bound) | DecodeError

  /** The host's decoding of the four arguments (`range_scan_decode_bounds`). */
  function DecodeBounds(key: seq<Type>, s: Slices): Bounds {
    if s.prefixElems >= |key| then DecodeError else
    var t := BoundType(key[s.prefixElems]);
    match (DecodeFields(key[..s.prefixElems], s.prefix), Decode(t, s.rstart), Decode(t, s.rend))
    case (OkAll(vs, _), Ok(lo, _), Ok(hi, _)) => Bounds(vs, ToBound(lo), ToBound(hi))
    case _ => DecodeError
  }

  ghost function PrefixBytes(key: seq<Type>, prefix: seq<Value>, k: nat): seq<Byte>
    requires Prefixes(key, prefix) && k <= |prefix|
  {
    if k == 0 then [] else PrefixBytes(key, prefix, k - 1) + ToBytes(key[k - 1], prefix[k - 1])
  }

  lemma TakeOneMore<T>(s: seq<T>, k: nat)
    requires 0 < k <= |s|
    ensures s[..k] == s[..k - 1] + [s[k - 1]]
  {}

  /** Field-by-field decoding undoes the writes, one more field at a time. */
  lemma {:induction false} PrefixDecodes(key: seq<Type>, prefix: seq<Value>, k: nat, suffix: seq<Byte>)
    requires Prefixes(key, prefix) && k <= |prefix|
    ensures DecodeFields(key[..k], PrefixBytes(key, prefix, k) + suffix) == OkAll(prefix[..k], suffix)
  {
    if k == 0 {
      assert [] + suffix == suffix;
    } else {
      assert Encodable(key[k - 1], prefix[k - 1]);
      var last := ToBytes(key[k - 1], prefix[k - 1]);
      var whole := PrefixBytes(key, prefix, k) + suffix;
      Regroup(PrefixBytes(key, prefix, k - 1), last, suffix);
      PrefixDecodes(key, prefix, k - 1, last + suffix);
      ToBytesDecodes(key[k - 1], prefix[k - 1], suffix);
      DecodeFieldsSnoc(key[..k - 1], key[k - 1], whole, prefix[..k - 1], last + suffix, prefix[k - 1], suffix);
      TakeOneMore(key, k);
      TakeOneMore(prefix, k);
    }
  }

  lemma {:induction false} DecodeFieldsSnoc(ts: seq<Type>, t: Type, bs: seq<Byte>, vs: seq<Value>, rest: seq<Byte>,
                                            v: Value, rest': seq<Byte>)
    requires DecodeFields(ts, bs) == OkAll(vs, rest) && Decode(t, rest) == Ok(v, rest')
    ensures DecodeFields(ts + [t], bs) == OkAll(vs + [v], rest')
    decreases ts
  {
    var all := ts + [t];
    if ts == [] {
      assert all[1..] == [];
      assert DecodeFields([], rest') == OkAll([], rest');
    } else {
      assert all[0] == ts[0] && all[1..] == ts[1..] + [t];
      DecodeFieldsSnoc(ts[1..], t, Decode(ts[0], bs).rest, vs[1..], rest, v, rest');
      assert vs + [v] == [vs[0]] + (vs[1..] + [v]);
    }
  }

  lemma SlicesDecode(key: seq<Type>, prefix: seq<Value>, term: Term)
    requires Query(key, prefix, term)
    ensures DecodeBounds(key, Wanted(key, prefix, term)) == Bounds(prefix, Start(term), End(term))
  {
    PrefixDecodes(key, prefix, |prefix|, []);
    assert PrefixBytes(key, prefix, |prefix|) + [] == PrefixBytes(key, prefix, |prefix|);
    assert prefix[..|prefix|] == prefix;
    BoundDecodes(key[|prefix|], Start(term));
    BoundDecodes(key[|prefix|], End(term));
  }

  /** The prefix loop of `get_args`, into an empty buffer. */
  method WritePrefix(data: Buffer, key: seq<Type>, prefix: seq<Value>)
    requires data.Valid() && data.data == [] && Prefixes(key, prefix)
    modifies data
    ensures data.Valid() && data.data == PrefixBytes(key, prefix, |prefix|)
  {
    for k := 0 to |prefix|
      invariant data.Valid() && data.data == PrefixBytes(key, prefix, k)
    {
      data.Write(ToBytes(key[k], prefix[k]));
    }
  }

  /** `TermBound::serialize_into`. */
  method SerializeTerm(data: Buffer, t: Type, term: Term) returns (rend: Option<nat>)
    requires data.Valid() && GoodBound(t, Start(term)) && GoodBound(t, End(term))
    modifies data
    ensures data.Valid()
    ensures term.Single? ==> rend == None && data.data == old(data.data) + BoundBytes(t, term.elem)
    ensures term.Range? ==>
              && rend == Some(|old(data.data)| + |BoundBytes(t, term.start)|)
              && data.data == old(data.data) + BoundBytes(t, term.start) + BoundBytes(t, term.end)
  {
    data.Write(BoundBytes(t, Start(term)));
    rend := None;
    if term.Range? {
      rend := Some(|data.data|);
      data.Write(BoundBytes(t, End(term)));
    }
  }

  /** The slices the host should get. */
  ghost function Wanted(key: seq<Type>, prefix: seq<Value>, term: Term): Slices
    requires Query(key, prefix, term)
  {
    var t := key[|prefix|];
    Slices(PrefixBytes(key, prefix, |prefix|), |prefix|, BoundBytes(t, Start(term)), BoundBytes(t, End(term)))
  }

  /** Packing a query into an empty buffer. */
  method Pack(data: Buffer, key: seq<Type>, prefix: seq<Value>, term: Term) returns (args: Args)
    requires data.Valid() && data.data == [] && Query(key, prefix, term)
    modifies data
    ensures data.Valid() && args.data == data && InBounds(args) && ArgsForSyscall(args) == Wanted(key, prefix, term)
  {
    WritePrefix(data, key, prefix);
    var rstart := |data.data|;
    var rend := SerializeTerm(data, key[|prefix|], term);
    args := Args(data, |prefix|, rstart, rend);
  }

  /** `get_args`: the prefix values, then the bound or bounds, into a pooled buffer. The three slices
      handed to the host are exactly the three encodings, and the host decodes them to the query. */
  method GetArgs(pool: BufPool, key: seq<Type>, prefix: seq<Value>, term: Term) returns (args: Args)
    requires pool.Valid() && Query(key, prefix, term)
    modifies pool, pool.bufs
    ensures pool.Valid() && pool.held == old(pool.held) + {args.data} && args.data !in old(pool.held) && InBounds(args)
    ensures ArgsForSyscall(args) == Wanted(key, prefix, term)
    ensures var lo, hi := if term.Single? then term.elem else term.start, if term.Single? then term.elem else term.end;
      && GoodBound(key[|prefix|], lo) && IsBound(key[|prefix|], lo, ArgsForSyscall(args).rstart)
      && GoodBound(key[|prefix|], hi) && IsBound(key[|prefix|], hi, ArgsForSyscall(args).rend)
      && DecodeBounds(key, ArgsForSyscall(args)) == Bounds(prefix, lo, hi)
  {
    var data := pool.Take();
    args := Pack(data, key, prefix, term);
    SlicesDecode(key, prefix, term);
    BoundFormat(key[|prefix|], Start(term));
    BoundFormat(key[|prefix|], End(term));
  }
}
