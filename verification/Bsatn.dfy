/** The BSATN encoding that derived `Serialize` and `Deserialize` impls produce and accept. */
module Bsatn {
  import opened Multiples
  import opened Options
  import opened Seqs

  type Byte = n: nat | n < 256

  /** `UInt(w)` stands for every fixed-width primitive of `w` bytes, by its bit pattern. */
  datatype Type =
    | Bool
    | UInt(width: nat)
    | Array(elem: Type)
    | Product(fields: seq<Type>)
    | Sum(variants: seq<Type>)

  datatype Value =
    | VBool(b: bool)
    | VUInt(n: nat)
    | VArray(elems: seq<Value>)
    | VProduct(parts: seq<Value>)
    | VSum(variant: nat, payload: Value)

  datatype Decoded = Ok(v: Value, rest: seq<Byte>) | Bad
  datatype DecodedAll = OkAll(vs: seq<Value>, rest: seq<Byte>) | BadAll

  function Pow256(w: nat): nat {
    if w == 0 then 1 else 256 * Pow256(w - 1)
  }

  const MAX_LEN := 0x1_0000_0000

  predicate HasType(t: Type, v: Value)
    decreases v
  {
    match (t, v)
    case (Bool, VBool(_)) => true
    case (UInt(w), VUInt(n)) => n < Pow256(w)
    case (Array(elem), VArray(elems)) => forall i :: 0 <= i < |elems| ==> HasType(elem, elems[i])
    case (Product(fields), VProduct(parts)) =>
      |fields| == |parts| && forall i :: 0 <= i < |parts| ==> HasType(fields[i], parts[i])
    case (Sum(variants), VSum(i, payload)) => i < |variants| && HasType(variants[i], payload)
    case _ => false
  }

  /** Little-endian bytes. */
  function LeBytes(n: nat, w: nat): (bs: seq<Byte>)
    ensures |bs| == w
  {
    if w == 0 then [] else [n % 256] + LeBytes(n / 256, w - 1)
  }

  function LeValue(bs: seq<Byte>): (n: nat)
    ensures n < Pow256(|bs|)
  {
    if bs == [] then 0 else bs[0] + 256 * LeValue(bs[1..])
  }

  /** `None` is the serializer's "len too long". A variant's tag is its index `as u8`. */
  function Encode(t: Type, v: Value): Option<seq<Byte>>
    requires HasType(t, v)
    decreases v, 0
  {
    match v
    case VBool(b) => Some([if b then 1 else 0])
    case VUInt(n) => Some(LeBytes(n, t.width))
    case VArray(elems) =>
      if |elems| >= MAX_LEN then None else
      (match EncodeElems(t.elem, elems)
       case Some(bs) => Some(LeBytes(|elems|, 4) + bs)
       case None => None)
    case VProduct(parts) => EncodeFields(t.fields, parts)
    case VSum(i, payload) =>
      (match Encode(t.variants[i], payload)
       case Some(bs) => Some([i % 256] + bs)
       case None => None)
  }

  function EncodeFields(ts: seq<Type>, vs: seq<Value>): Option<seq<Byte>>
    requires |ts| == |vs| && forall i :: 0 <= i < |vs| ==> HasType(ts[i], vs[i])
    decreases vs, 1
  {
    if vs == [] then Some([]) else
    match (Encode(ts[0], vs[0]), EncodeFields(ts[1..], vs[1..]))
    case (Some(a), Some(b)) => Some(a + b)
    case _ => None
  }

  function EncodeElems(t: Type, vs: seq<Value>): Option<seq<Byte>>
    requires forall i :: 0 <= i < |vs| ==> HasType(t, vs[i])
    decreases vs, 1
  {
    if vs == [] then Some([]) else
    match (Encode(t, vs[0]), EncodeElems(t, vs[1..]))
    case (Some(a), Some(b)) => Some(a + b)
    case _ => None
  }

  function Decode(t: Type, bs: seq<Byte>): Decoded
    decreases t, 0, 0
  {
    match t
    case Bool => if bs == [] || bs[0] > 1 then Bad else Ok(VBool(bs[0] == 1), bs[1..])
    case UInt(w) => if |bs| < w then Bad else Ok(VUInt(LeValue(bs[..w])), bs[w..])
    case Array(elem) =>
      if |bs| < 4 then Bad else
      (match DecodeElems(elem, LeValue(bs[..4]), bs[4..])
       case OkAll(vs, rest) => Ok(VArray(vs), rest)
       case BadAll => Bad)
    case Product(fields) =>
      (match DecodeFields(fields, bs)
       case OkAll(vs, rest) => Ok(VProduct(vs), rest)
       case BadAll => Bad)
    case Sum(variants) =>
      if bs == [] || bs[0] >= |variants| then Bad else
      (match Decode(variants[bs[0]], bs[1..])
       case Ok(v, rest) => Ok(VSum(bs[0], v), rest)
       case Bad => Bad)
  }

  /** `visit_seq_product`: the fields in order. */
  function DecodeFields(ts: seq<Type>, bs: seq<Byte>): DecodedAll
    decreases ts, 0, 0
  {
    if ts == [] then OkAll([], bs) else
    match Decode(ts[0], bs)
    case Bad => BadAll
    case Ok(v, rest) =>
      match DecodeFields(ts[1..], rest)
      case BadAll => BadAll
      case OkAll(vs, rest') => OkAll([v] + vs, rest')
  }

  function DecodeElems(t: Type, n: nat, bs: seq<Byte>): DecodedAll
    decreases t, 1, n
  {
    if n == 0 then OkAll([], bs) else
    match Decode(t, bs)
    case Bad => BadAll
    case Ok(v, rest) =>
      match DecodeElems(t, n - 1, rest)
      case BadAll => BadAll
      case OkAll(vs, rest') => OkAll([v] + vs, rest')
  }

  /** Every variant index in the value fits the tag byte. */
  predicate SmallTags(v: Value) {
    match v
    case VArray(elems) => forall i :: 0 <= i < |elems| ==> SmallTags(elems[i])
    case VProduct(parts) => forall i :: 0 <= i < |parts| ==> SmallTags(parts[i])
    case VSum(i, payload) => i < 256 && SmallTags(payload)
    case _ => true
  }

  predicate ShortArrays(v: Value) {
    match v
    case VArray(elems) => |elems| < MAX_LEN && forall i :: 0 <= i < |elems| ==> ShortArrays(elems[i])
    case VProduct(parts) => forall i :: 0 <= i < |parts| ==> ShortArrays(parts[i])
    case VSum(_, payload) => ShortArrays(payload)
    case _ => true
  }

  lemma {:induction false} LeRoundTrip(n: nat, w: nat)
    requires n < Pow256(w)
    ensures LeValue(LeBytes(n, w)) == n
  {
    if w > 0 {
      LeRoundTrip(n / 256, w - 1);
      assert LeBytes(n, w)[1..] == LeBytes(n / 256, w - 1);
    }
  }

  lemma {:induction false} LeCanonical(bs: seq<Byte>)
    ensures LeBytes(LeValue(bs), |bs|) == bs
  {
    if bs != [] {
      LeCanonical(bs[1..]);
      assert LeValue(bs) / 256 == LeValue(bs[1..]) && LeValue(bs) % 256 == bs[0];
    }
  }

  lemma UIntRoundTrip(w: nat, n: nat, suffix: seq<Byte>)
    requires n < Pow256(w)
    ensures Decode(UInt(w), LeBytes(n, w) + suffix) == Ok(VUInt(n), suffix)
  {
    LeRoundTrip(n, w);
    var bs := LeBytes(n, w) + suffix;
    assert bs[..w] == LeBytes(n, w) && bs[w..] == suffix;
  }

  lemma ArrayRoundTrip(elem: Type, elems: seq<Value>, body: seq<Byte>, suffix: seq<Byte>)
    requires |elems| < MAX_LEN && DecodeElems(elem, |elems|, body + suffix) == OkAll(elems, suffix)
    ensures Decode(Array(elem), LeBytes(|elems|, 4) + body + suffix) == Ok(VArray(elems), suffix)
  {
    assert Pow256(4) == MAX_LEN by { assert Pow256(2) == 0x1_0000; }
    LeRoundTrip(|elems|, 4);
    var bs := LeBytes(|elems|, 4) + body + suffix;
    assert bs[..4] == LeBytes(|elems|, 4) && bs[4..] == body + suffix;
  }

  lemma SumRoundTrip(variants: seq<Type>, tag: Byte, payload: Value, body: seq<Byte>, suffix: seq<Byte>)
    requires tag < |variants| && Decode(variants[tag], body + suffix) == Ok(payload, suffix)
    ensures Decode(Sum(variants), [tag] + body + suffix) == Ok(VSum(tag, payload), suffix)
  {
    var bs := [tag] + body + suffix;
    assert bs[0] == tag && bs[1..] == body + suffix;
  }

  /** Decoding an encoding followed by anything returns the value and leaves the rest. */
  lemma {:induction false} RoundTrip(t: Type, v: Value, suffix: seq<Byte>)
    requires HasType(t, v) && Encode(t, v).Some? && SmallTags(v)
    ensures Decode(t, Encode(t, v).value + suffix) == Ok(v, suffix)
    decreases v, 0
  {
    match v
    case VBool(b) => assert (Encode(t, v).value + suffix)[1..] == suffix;
    case VUInt(n) => UIntRoundTrip(t.width, n, suffix);
    case VArray(elems) =>
      ElemsRoundTrip(t.elem, elems, suffix);
      ArrayRoundTrip(t.elem, elems, EncodeElems(t.elem, elems).value, suffix);
    case VProduct(parts) => FieldsRoundTrip(t.fields, parts, suffix);
    case VSum(i, payload) =>
      RoundTrip(t.variants[i], payload, suffix);
      SumRoundTrip(t.variants, i, payload, Encode(t.variants[i], payload).value, suffix);
  }

  lemma NextField(ts: seq<Type>, bs: seq<Byte>, v: Value, mid: seq<Byte>, vs: seq<Value>, rest: seq<Byte>)
    requires ts != [] && Decode(ts[0], bs) == Ok(v, mid) && DecodeFields(ts[1..], mid) == OkAll(vs, rest)
    ensures DecodeFields(ts, bs) == OkAll([v] + vs, rest)
  {}

  lemma NextFieldOf(ts: seq<Type>, bs: seq<Byte>, vs: seq<Value>, mid: seq<Byte>, rest: seq<Byte>)
    requires ts != [] && vs != [] && Decode(ts[0], bs) == Ok(vs[0], mid)
    requires DecodeFields(ts[1..], mid) == OkAll(vs[1..], rest)
    ensures DecodeFields(ts, bs) == OkAll(vs, rest)
  {
    NextField(ts, bs, vs[0], mid, vs[1..], rest);
    assert [vs[0]] + vs[1..] == vs;
  }

  lemma {:induction false} FieldsRoundTrip(ts: seq<Type>, vs: seq<Value>, suffix: seq<Byte>)
    requires |ts| == |vs| && forall i :: 0 <= i < |vs| ==> HasType(ts[i], vs[i]) && SmallTags(vs[i])
    requires EncodeFields(ts, vs).Some?
    ensures DecodeFields(ts, EncodeFields(ts, vs).value + suffix) == OkAll(vs, suffix)
    decreases vs, 1
  {
    if vs == [] {
      assert [] + suffix == suffix;
    } else {
      var a, b := Encode(ts[0], vs[0]).value, EncodeFields(ts[1..], vs[1..]).value;
      var bs := EncodeFields(ts, vs).value + suffix;
      assert bs == a + (b + suffix);
      RoundTrip(ts[0], vs[0], b + suffix);
      assert Decode(ts[0], bs) == Ok(vs[0], b + suffix);
      FieldsRoundTrip(ts[1..], vs[1..], suffix);
      NextFieldOf(ts, bs, vs, b + suffix, suffix);
    }
  }

  lemma NextElem(t: Type, n: nat, bs: seq<Byte>, v: Value, mid: seq<Byte>, vs: seq<Value>, rest: seq<Byte>)
    requires n > 0 && Decode(t, bs) == Ok(v, mid) && DecodeElems(t, n - 1, mid) == OkAll(vs, rest)
    ensures DecodeElems(t, n, bs) == OkAll([v] + vs, rest)
  {}

  lemma NextElemOf(t: Type, bs: seq<Byte>, vs: seq<Value>, mid: seq<Byte>, rest: seq<Byte>)
    requires vs != [] && Decode(t, bs) == Ok(vs[0], mid) && DecodeElems(t, |vs| - 1, mid) == OkAll(vs[1..], rest)
    ensures DecodeElems(t, |vs|, bs) == OkAll(vs, rest)
  {
    NextElem(t, |vs|, bs, vs[0], mid, vs[1..], rest);
    assert [vs[0]] + vs[1..] == vs;
  }

  lemma {:induction false} ElemsRoundTrip(t: Type, vs: seq<Value>, suffix: seq<Byte>)
    requires forall i :: 0 <= i < |vs| ==> HasType(t, vs[i]) && SmallTags(vs[i])
    requires EncodeElems(t, vs).Some?
    ensures DecodeElems(t, |vs|, EncodeElems(t, vs).value + suffix) == OkAll(vs, suffix)
    decreases vs, 1
  {
    if vs == [] {
      assert [] + suffix == suffix;
    } else {
      var a, b := Encode(t, vs[0]).value, EncodeElems(t, vs[1..]).value;
      var bs := EncodeElems(t, vs).value + suffix;
      assert bs == a + (b + suffix);
      RoundTrip(t, vs[0], b + suffix);
      assert Decode(t, bs) == Ok(vs[0], b + suffix);
      ElemsRoundTrip(t, vs[1..], suffix);
      NextElemOf(t, bs, vs, b + suffix, suffix);
    }
  }

  /** `v` is a value of the type, and `bs` is its encoding and `rest`. */
  ghost predicate Reencodes(t: Type, v: Value, bs: seq<Byte>, rest: seq<Byte>) {
    HasType(t, v) && SmallTags(v) && Encode(t, v).Some? && bs == Encode(t, v).value + rest
  }

  lemma UIntReencodes(w: nat, bs: seq<Byte>)
    requires |bs| >= w
    ensures Reencodes(UInt(w), VUInt(LeValue(bs[..w])), bs, bs[w..])
  {
    LeCanonical(bs[..w]);
    assert bs == bs[..w] + bs[w..];
  }

  lemma ArrayReencodes(elem: Type, vs: seq<Value>, bs: seq<Byte>, rest: seq<Byte>)
    requires |bs| >= 4 && |vs| == LeValue(bs[..4])
    requires forall i :: 0 <= i < |vs| ==> HasType(elem, vs[i]) && SmallTags(vs[i])
    requires EncodeElems(elem, vs).Some? && bs[4..] == EncodeElems(elem, vs).value + rest
    ensures Reencodes(Array(elem), VArray(vs), bs, rest)
  {
    assert Pow256(4) == MAX_LEN by { assert Pow256(2) == 0x1_0000; }
    LeCanonical(bs[..4]);
    assert bs == bs[..4] + bs[4..];
  }

  lemma SumReencodes(variants: seq<Type>, payload: Value, bs: seq<Byte>, rest: seq<Byte>)
    requires bs != [] && bs[0] < |variants| && Reencodes(variants[bs[0]], payload, bs[1..], rest)
    ensures Reencodes(Sum(variants), VSum(bs[0], payload), bs, rest)
  {
    assert bs == [bs[0]] + bs[1..];
  }

  /** Whatever decodes is a value of the type, and the bytes consumed are its only encoding. */
  lemma {:induction false} DecodeIsCanonical(t: Type, bs: seq<Byte>)
    requires Decode(t, bs).Ok?
    ensures Reencodes(t, Decode(t, bs).v, bs, Decode(t, bs).rest)
    decreases t, 0, 0
  {
    match t
    case Bool => assert bs == [bs[0]] + bs[1..];
    case UInt(w) => UIntReencodes(w, bs);
    case Array(elem) =>
      ElemsCanonical(elem, LeValue(bs[..4]), bs[4..]);
      var d := DecodeElems(elem, LeValue(bs[..4]), bs[4..]);
      ArrayReencodes(elem, d.vs, bs, d.rest);
    case Product(fields) => FieldsCanonical(fields, bs);
    case Sum(variants) =>
      DecodeIsCanonical(variants[bs[0]], bs[1..]);
      var d := Decode(variants[bs[0]], bs[1..]);
      SumReencodes(variants, d.v, bs, d.rest);
  }

  lemma FieldsReencode(ts: seq<Type>, vs: seq<Value>, bs: seq<Byte>, mid: seq<Byte>, rest: seq<Byte>)
    requires |ts| == |vs| > 0 && forall i :: 0 <= i < |vs| ==> HasType(ts[i], vs[i])
    requires Reencodes(ts[0], vs[0], bs, mid)
    requires EncodeFields(ts[1..], vs[1..]).Some? && mid == EncodeFields(ts[1..], vs[1..]).value + rest
    ensures EncodeFields(ts, vs).Some? && bs == EncodeFields(ts, vs).value + rest
  {}

  lemma ElemsReencode(t: Type, vs: seq<Value>, bs: seq<Byte>, mid: seq<Byte>, rest: seq<Byte>)
    requires vs != [] && forall i :: 0 <= i < |vs| ==> HasType(t, vs[i])
    requires Reencodes(t, vs[0], bs, mid)
    requires EncodeElems(t, vs[1..]).Some? && mid == EncodeElems(t, vs[1..]).value + rest
    ensures EncodeElems(t, vs).Some? && bs == EncodeElems(t, vs).value + rest
  {}

  lemma {:induction false} FieldsCanonical(ts: seq<Type>, bs: seq<Byte>)
    requires DecodeFields(ts, bs).OkAll?
    ensures var d := DecodeFields(ts, bs);
      && |d.vs| == |ts| && (forall i :: 0 <= i < |ts| ==> HasType(ts[i], d.vs[i]) && SmallTags(d.vs[i]))
      && EncodeFields(ts, d.vs).Some? && bs == EncodeFields(ts, d.vs).value + d.rest
    decreases ts, 0, 0
  {
    if ts != [] {
      DecodeIsCanonical(ts[0], bs);
      var d := Decode(ts[0], bs);
      FieldsCanonical(ts[1..], d.rest);
      var e := DecodeFields(ts[1..], d.rest);
      var all := [d.v] + e.vs;
      assert all[1..] == e.vs;
      forall i | 0 <= i < |ts| ensures HasType(ts[i], all[i]) && SmallTags(all[i]) {
        if i > 0 { assert ts[i] == ts[1..][i - 1] && all[i] == e.vs[i - 1]; }
      }
      FieldsReencode(ts, all, bs, d.rest, e.rest);
    }
  }

  lemma {:induction false} ElemsCanonical(t: Type, n: nat, bs: seq<Byte>)
    requires DecodeElems(t, n, bs).OkAll?
    ensures var d := DecodeElems(t, n, bs);
      && |d.vs| == n && (forall i :: 0 <= i < n ==> HasType(t, d.vs[i]) && SmallTags(d.vs[i]))
      && EncodeElems(t, d.vs).Some? && bs == EncodeElems(t, d.vs).value + d.rest
    decreases t, 1, n
  {
    if n > 0 {
      DecodeIsCanonical(t, bs);
      var d := Decode(t, bs);
      ElemsCanonical(t, n - 1, d.rest);
      var e := DecodeElems(t, n - 1, d.rest);
      var all := [d.v] + e.vs;
      assert all[1..] == e.vs;
      forall i | 0 <= i < n ensures HasType(t, all[i]) && SmallTags(all[i]) {
        if i > 0 { assert all[i] == e.vs[i - 1]; }
      }
      ElemsReencode(t, all, bs, d.rest, e.rest);
    }
  }

  /** The round trip holds of exactly the values whose variant indices fit the tag byte. */
  lemma RoundTripIff(t: Type, v: Value, suffix: seq<Byte>)
    requires HasType(t, v) && Encode(t, v).Some?
    ensures Decode(t, Encode(t, v).value + suffix) == Ok(v, suffix) <==> SmallTags(v)
  {
    if SmallTags(v) {
      RoundTrip(t, v, suffix);
    } else if Decode(t, Encode(t, v).value + suffix).Ok? {
      DecodeIsCanonical(t, Encode(t, v).value + suffix);
    }
  }

  /** The last variant of a sum of 257 has tag 0, and comes back as the first. */
  lemma WrappedTagExample()
    ensures var t, v := Sum(seq(257, _ => Product([]))), VSum(256, VProduct([]));
      && HasType(t, v) && Encode(t, v) == Some([0]) && Decode(t, [0]) == Ok(VSum(0, VProduct([])), [])
  {
    var t, v := Sum(seq(257, _ => Product([]))), VSum(256, VProduct([]));
    assert t.variants[256] == Product([]) && t.variants[0] == Product([]);
    assert Encode(Product([]), VProduct([])) == Some([]);
    assert [0] + [] == [0] && [0][1..] == [];
    assert Decode(Product([]), []) == Ok(VProduct([]), []);
  }

  /** No sum in the type has more than 256 variants. */
  predicate SmallSums(t: Type) {
    match t
    case Array(elem) => SmallSums(elem)
    case Product(fields) => forall i :: 0 <= i < |fields| ==> SmallSums(fields[i])
    case Sum(variants) => |variants| <= 256 && forall i :: 0 <= i < |variants| ==> SmallSums(variants[i])
    case _ => true
  }

  lemma {:induction false} SmallSumsSmallTags(t: Type, v: Value)
    requires SmallSums(t) && HasType(t, v)
    ensures SmallTags(v)
    decreases v
  {
    match v
    case VArray(elems) =>
      forall i | 0 <= i < |elems| ensures SmallTags(elems[i]) { SmallSumsSmallTags(t.elem, elems[i]); }
    case VProduct(parts) =>
      forall i | 0 <= i < |parts| ensures SmallTags(parts[i]) { SmallSumsSmallTags(t.fields[i], parts[i]); }
    case VSum(i, payload) => SmallSumsSmallTags(t.variants[i], payload);
    case _ =>
  }

  /** Encodings are self-delimiting: no two values share one, and none is a prefix of another. */
  lemma PrefixFree(t: Type, v: Value, w: Value, s: seq<Byte>, r: seq<Byte>)
    requires HasType(t, v) && HasType(t, w) && SmallTags(v) && SmallTags(w)
    requires Encode(t, v).Some? && Encode(t, w).Some?
    requires Encode(t, v).value + s == Encode(t, w).value + r
    ensures v == w && s == r
  {
    RoundTrip(t, v, s);
    RoundTrip(t, w, r);
  }

  /** Encoding fails only on an array of 2^32 elements or more. */
  lemma {:induction false} EncodeDefined(t: Type, v: Value)
    requires HasType(t, v)
    ensures Encode(t, v).Some? <==> ShortArrays(v)
    decreases v, 0
  {
    match v
    case VArray(elems) => ElemsDefined(t.elem, elems);
    case VProduct(parts) => FieldsDefined(t.fields, parts);
    case VSum(i, payload) => EncodeDefined(t.variants[i], payload);
    case _ =>
  }

  lemma {:induction false} FieldsDefined(ts: seq<Type>, vs: seq<Value>)
    requires |ts| == |vs| && forall i :: 0 <= i < |vs| ==> HasType(ts[i], vs[i])
    ensures EncodeFields(ts, vs).Some? <==> forall i :: 0 <= i < |vs| ==> ShortArrays(vs[i])
    decreases vs, 1
  {
    if vs != [] {
      EncodeDefined(ts[0], vs[0]);
      FieldsDefined(ts[1..], vs[1..]);
      assert forall i :: 0 < i < |vs| ==> vs[i] == vs[1..][i - 1];
    }
  }

  lemma {:induction false} ElemsDefined(t: Type, vs: seq<Value>)
    requires forall i :: 0 <= i < |vs| ==> HasType(t, vs[i])
    ensures EncodeElems(t, vs).Some? <==> forall i :: 0 <= i < |vs| ==> ShortArrays(vs[i])
    decreases vs, 1
  {
    if vs != [] {
      EncodeDefined(t, vs[0]);
      ElemsDefined(t, vs[1..]);
      assert forall i :: 0 < i < |vs| ==> vs[i] == vs[1..][i - 1];
    }
  }

  /** Types whose values take no bytes at all. */
  predicate ZeroSized(t: Type) {
    match t
    case UInt(w) => w == 0
    case Product(fields) => forall i :: 0 <= i < |fields| ==> ZeroSized(fields[i])
    case _ => false
  }

  lemma {:induction false} EmptyEncoding(t: Type, v: Value)
    requires HasType(t, v) && Encode(t, v).Some?
    ensures Encode(t, v).value == [] <==> ZeroSized(t)
    decreases v, 0
  {
    if v.VProduct? { EmptyFields(t.fields, v.parts); }
  }

  lemma {:induction false} EmptyFields(ts: seq<Type>, vs: seq<Value>)
    requires |ts| == |vs| && forall i :: 0 <= i < |vs| ==> HasType(ts[i], vs[i])
    requires EncodeFields(ts, vs).Some?
    ensures EncodeFields(ts, vs).value == [] <==> forall i :: 0 <= i < |ts| ==> ZeroSized(ts[i])
    decreases vs, 1
  {
    if vs != [] {
      EmptyEncoding(ts[0], vs[0]);
      EmptyFields(ts[1..], vs[1..]);
      assert forall i :: 0 < i < |ts| ==> ts[i] == ts[1..][i - 1];
    }
  }

  lemma DivideTwice(n: nat, p: nat)
    requires p > 0
    ensures n / 256 / p == n / (256 * p)
  {
    var q, r := n / 256 / p, n / 256 % p;
    assert n / 256 == q * p + r;
    assert n == q * (256 * p) + (256 * r + n % 256);
    DivideOnce(n, 256 * p, q, 256 * r + n % 256);
  }

  /** Byte `i` is the digit of 256 to the `i`. */
  lemma {:induction false} LeByteAt(n: nat, w: nat, i: nat)
    requires i < w
    ensures Pow256(i) > 0 && LeBytes(n, w)[i] == n / Pow256(i) % 256
    decreases i
  {
    if i > 0 {
      LeByteAt(n / 256, w - 1, i - 1);
      DivideTwice(n, Pow256(i - 1));
    }
  }

  /** The encodings one by one. */
  ghost function Encodings(ts: seq<Type>, vs: seq<Value>): (es: seq<seq<Byte>>)
    requires |ts| == |vs| && forall i :: 0 <= i < |vs| ==> HasType(ts[i], vs[i]) && Encode(ts[i], vs[i]).Some?
    ensures |es| == |vs| && forall i :: 0 <= i < |vs| ==> Encode(ts[i], vs[i]) == Some(es[i])
  {
    seq(|vs|, i requires 0 <= i < |vs| => Encode(ts[i], vs[i]).value)
  }

  lemma {:induction false} FieldsFormat(ts: seq<Type>, vs: seq<Value>)
    requires |ts| == |vs| && forall i :: 0 <= i < |vs| ==> HasType(ts[i], vs[i])
    requires EncodeFields(ts, vs).Some?
    ensures forall i :: 0 <= i < |vs| ==> Encode(ts[i], vs[i]).Some?
    ensures EncodeFields(ts, vs).value == Flat(Encodings(ts, vs))
    decreases vs
  {
    if vs != [] {
      FieldsFormat(ts[1..], vs[1..]);
      assert forall i :: 0 < i < |vs| ==> vs[i] == vs[1..][i - 1] && ts[i] == ts[1..][i - 1];
      assert Encodings(ts, vs)[1..] == Encodings(ts[1..], vs[1..]);
    }
  }

  lemma {:induction false} ElemsFormat(t: Type, vs: seq<Value>)
    requires (forall i :: 0 <= i < |vs| ==> HasType(t, vs[i])) && EncodeElems(t, vs).Some?
    ensures EncodeFields(seq(|vs|, _ => t), vs) == EncodeElems(t, vs)
    decreases vs
  {
    if vs != [] {
      ElemsFormat(t, vs[1..]);
      assert seq(|vs|, _ => t)[1..] == seq(|vs| - 1, _ => t);
    }
  }

  /** `bs` is the number in little-endian order. */
  ghost predicate LittleEndian(bs: seq<Byte>, n: nat) {
    forall i :: 0 <= i < |bs| ==> Pow256(i) > 0 && bs[i] == n / Pow256(i) % 256
  }

  lemma LeBytesLittleEndian(n: nat, w: nat)
    ensures LittleEndian(LeBytes(n, w), n)
  {
    forall i | 0 <= i < w ensures Pow256(i) > 0 && LeBytes(n, w)[i] == n / Pow256(i) % 256 { LeByteAt(n, w, i); }
  }

  /** The format itself: a boolean is the byte 0 or 1, a number its little-endian bytes, an array its
      length in four of them and its elements, a product its fields in order, a variant its index and its
      payload. */
  ghost predicate InFormat(t: Type, v: Value, bs: seq<Byte>)
    requires HasType(t, v)
  {
    match v
    case VBool(b) => bs == [if b then 1 else 0]
    case VUInt(n) => |bs| == t.width && LittleEndian(bs, n)
    case VArray(elems) =>
      && |bs| >= 4 && LittleEndian(bs[..4], |elems|)
      && (forall i :: 0 <= i < |elems| ==> Encode(t.elem, elems[i]).Some?)
      && bs[4..] == Flat(Encodings(seq(|elems|, _ => t.elem), elems))
    case VProduct(parts) =>
      && (forall i :: 0 <= i < |parts| ==> Encode(t.fields[i], parts[i]).Some?)
      && bs == Flat(Encodings(t.fields, parts))
    case VSum(i, payload) => |bs| >= 1 && bs[0] == i % 256 && Encode(t.variants[i], payload) == Some(bs[1..])
  }

  lemma EncodeFormat(t: Type, v: Value)
    requires HasType(t, v) && Encode(t, v).Some?
    ensures InFormat(t, v, Encode(t, v).value)
  {
    match v
    case VBool(_) =>
    case VUInt(n) => LeBytesLittleEndian(n, t.width);
    case VArray(elems) =>
      LeBytesLittleEndian(|elems|, 4);
      ElemsFormat(t.elem, elems);
      FieldsFormat(seq(|elems|, _ => t.elem), elems);
      assert Encode(t, v).value[..4] == LeBytes(|elems|, 4);
    case VProduct(parts) => FieldsFormat(t.fields, parts);
    case VSum(i, payload) => assert Encode(t, v).value[1..] == Encode(t.variants[i], payload).value;
  }

  /** Values of a type that serialize, to something that decodes to them again. */
  ghost predicate Encodable(t: Type, v: Value) {
    HasType(t, v) && SmallTags(v) && ShortArrays(v)
  }

  function ToBytes(t: Type, v: Value): (bs: seq<Byte>)
    requires Encodable(t, v)
    ensures Encode(t, v) == Some(bs)
  {
    EncodeDefined(t, v);
    Encode(t, v).value
  }

  lemma ToBytesDecodes(t: Type, v: Value, suffix: seq<Byte>)
    requires Encodable(t, v)
    ensures Decode(t, ToBytes(t, v) + suffix) == Ok(v, suffix)
  {
    EncodeDefined(t, v);
    RoundTrip(t, v, suffix);
  }
}
