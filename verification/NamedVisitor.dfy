/** The two product visitors a derived `Deserialize` emits: fields in declared order, and fields by
    name in any order. */
module NamedVisitor {
  import opened Options
  import opened Seqs

  /** One incoming field. `value` is `None` if it does not deserialize at the field's type. */
  datatype Entry<+V> = Entry(name: string, value: Option<V>)

  datatype Error =
    | UnknownField(name: string)
    | DuplicateField(index: nat)
    | MissingField(index: nat)
    | InvalidLength(index: nat)
    | BadValue

  datatype Result<+T> = Ok(value: T) | Err(error: Error)

  function Names<V>(input: seq<Entry<V>>): (names: seq<string>)
    ensures |names| == |input| && forall i :: 0 <= i < |input| ==> names[i] == input[i].name
  {
    seq(|input|, i requires 0 <= i < |input| => input[i].name)
  }

  /** The generated `match name`: the first arm that fits, or the number of fields. */
  function FieldIdent(fields: seq<string>, name: string): (k: nat)
    ensures k <= |fields| && (k < |fields| ==> fields[k] == name)
    ensures forall j :: 0 <= j < k ==> fields[j] != name
  {
    if fields == [] || fields[0] == name then 0
    else 1 + FieldIdent(fields[1..], name)
  }

  /** Every one of the first `n` elements is there and deserializes. */
  predicate GoodUpTo<V>(input: seq<Option<V>>, n: nat) {
    n <= |input| && forall i :: 0 <= i < n ==> input[i].Some?
  }

  /** `visit_seq_product`: element `i` becomes field `i`. Elements beyond the last field are not read.
      The error is that of the first field that cannot be filled. */
  function VisitSeq<V>(n: nat, input: seq<Option<V>>): (r: Result<seq<V>>)
    ensures r.Ok? <==> GoodUpTo(input, n)
    ensures r.Ok? ==> |r.value| == n && forall i :: 0 <= i < n ==> input[i] == Some(r.value[i])
    ensures forall i :: r == Err(InvalidLength(i)) <==> i == |input| < n && GoodUpTo(input, i)
    ensures r == Err(BadValue) <==> exists i :: 0 <= i < n && GoodUpTo(input, i) && i < |input| && input[i].None?
    ensures r.Err? ==> r.error.InvalidLength? || r.error.BadValue?
  {
    if n == 0 then Ok([]) else
    match VisitSeq(n - 1, input)
    case Err(e) => Err(e)
    case Ok(vs) =>
      if |input| < n then Err(InvalidLength(n - 1))
      else if input[n - 1].None? then Err(BadValue)
      else Ok(vs + [input[n - 1].value])
  }

  /** The incoming names are the declared ones in some order, and every value is good. */
  ghost predicate Complete<V>(fields: seq<string>, input: seq<Entry<V>>) {
    multiset(Names(input)) == multiset(fields) && forall i :: 0 <= i < |input| ==> input[i].value.Some?
  }

  /** The incoming value for a name, and all of them in declared order. */
  function ValueFor<V>(input: seq<Entry<V>>, name: string): Option<V> {
    if input == [] then None
    else if input[|input| - 1].name == name then input[|input| - 1].value
    else ValueFor(input[..|input| - 1], name)
  }

  function InDeclaredOrder<V>(fields: seq<string>, input: seq<Entry<V>>): (vs: seq<Option<V>>)
    ensures |vs| == |fields| && forall k :: 0 <= k < |fields| ==> vs[k] == ValueFor(input, fields[k])
  {
    seq(|fields|, k requires 0 <= k < |fields| => ValueFor(input, fields[k]))
  }

  /** What the loop keeps: the entries so far name distinct fields, and field `k` holds the value
      of the entry that names it, unless an earlier field has the same name. */
  ghost predicate Filled<V>(fields: seq<string>, input: seq<Entry<V>>, slots: seq<Option<V>>) {
    && |slots| == |fields|
    && (forall i :: 0 <= i < |input| ==> input[i].name in fields && input[i].value.Some?)
    && NoDup(Names(input))
    && (forall k :: 0 <= k < |slots| ==>
          slots[k] == if IsFirst(fields, k) then ValueFor(input, fields[k]) else None)
  }

  ghost predicate IsFirst(fields: seq<string>, k: nat)
    requires k < |fields|
  {
    forall j :: 0 <= j < k ==> fields[j] != fields[k]
  }

  lemma {:induction false} ValueForNamed<V>(input: seq<Entry<V>>, name: string)
    requires forall i :: 0 <= i < |input| ==> input[i].value.Some?
    ensures ValueFor(input, name).Some? <==> name in Names(input)
  {
    if input != [] {
      var front := input[..|input| - 1];
      ValueForNamed(front, name);
      assert Names(input) == Names(front) + [input[|input| - 1].name];
    }
  }

  /** With distinct names, the value for a name is that of the entry of that name. */
  lemma {:induction false} ValueForEntry<V>(input: seq<Entry<V>>, i: nat)
    requires NoDup(Names(input)) && i < |input|
    ensures ValueFor(input, input[i].name) == input[i].value
    decreases |input|
  {
    var front := input[..|input| - 1];
    assert Names(input) == Names(front) + [input[|input| - 1].name];
    if i < |front| {
      assert Names(input)[i] != Names(input)[|front|];
      ValueForEntry(front, i);
    }
  }

  lemma FilledStep<V>(fields: seq<string>, before: seq<Entry<V>>, e: Entry<V>, slots: seq<Option<V>>, k: nat)
    requires Filled(fields, before, slots) && e.value.Some?
    requires k < |fields| && fields[k] == e.name && IsFirst(fields, k) && slots[k].None?
    ensures Filled(fields, before + [e], slots[k := e.value])
  {
    var after := before + [e];
    var slots' := slots[k := e.value];
    assert after[..|before|] == before;
    ValueForNamed(before, e.name);
    assert e.name !in Names(before);
    assert Names(after) == Names(before) + [e.name];
    forall j | 0 <= j < |slots'|
      ensures slots'[j] == if IsFirst(fields, j) then ValueFor(after, fields[j]) else None
    {
      assert ValueFor(after, fields[j]) == if e.name == fields[j] then e.value else ValueFor(before, fields[j]);
    }
  }

  /** What is wrong with entry `n`, the entries before it being in order. */
  ghost function Offence<V>(fields: seq<string>, input: seq<Entry<V>>, n: nat): Option<Error>
    requires n < |input|
  {
    var e := input[n];
    if e.name !in fields then Some(UnknownField(e.name))
    else if e.name in Names(input)[..n] then Some(DuplicateField(FieldIdent(fields, e.name)))
    else if e.value.None? then Some(BadValue)
    else None
  }

  /** The first entry with something wrong, and what it is. */
  ghost predicate FirstOffence<V>(fields: seq<string>, input: seq<Entry<V>>, e: Error) {
    exists n :: 0 <= n < |input| && Offence(fields, input, n) == Some(e)
                && forall i :: 0 <= i < n ==> Offence(fields, input, i) == None
  }

  ghost predicate Inoffensive<V>(fields: seq<string>, input: seq<Entry<V>>, n: nat)
    requires n <= |input|
  {
    forall i :: 0 <= i < n ==> Offence(fields, input, i) == None
  }

  lemma FilledInoffensive<V>(fields: seq<string>, input: seq<Entry<V>>, n: nat, slots: seq<Option<V>>)
    requires n <= |input| && Filled(fields, input[..n], slots)
    ensures Inoffensive(fields, input, n)
  {
    NoDupPrefix(input, n);
    var names := Names(input)[..n];
    forall i | 0 <= i < n ensures Offence(fields, input, i) == None {
      assert input[..n][i] == input[i] && names[i] == input[i].name;
      assert Names(input)[..i] == names[..i];
    }
  }

  lemma TakenSlot<V>(fields: seq<string>, input: seq<Entry<V>>, n: nat, slots: seq<Option<V>>, k: nat)
    requires n < |input| && Filled(fields, input[..n], slots)
    requires k < |fields| && fields[k] == input[n].name && IsFirst(fields, k)
    ensures slots[k].Some? <==> input[n].name in Names(input)[..n]
  {
    ValueForNamed(input[..n], input[n].name);
    NoDupPrefix(input, n);
  }

  lemma NoDupPrefix<V>(input: seq<Entry<V>>, n: nat)
    requires n <= |input|
    ensures Names(input[..n]) == Names(input)[..n]
  {}

  lemma StopsAt<V>(fields: seq<string>, input: seq<Entry<V>>, n: nat, e: Error)
    requires n < |input| && Inoffensive(fields, input, n) && Offence(fields, input, n) == Some(e)
    ensures FirstOffence(fields, input, e) && !Inoffensive(fields, input, |input|)
  {}

  /** One turn of the loop: the field that entry `n` fills, or what is wrong with it. */
  method Examine<V>(fields: seq<string>, input: seq<Entry<V>>, n: nat, slots: seq<Option<V>>) returns (r: Result<nat>)
    requires n < |input| && Filled(fields, input[..n], slots)
    ensures r.Err? ==> Offence(fields, input, n) == Some(r.error)
    ensures r.Ok? ==> r.value < |slots| && Filled(fields, input[..n + 1], slots[r.value := input[n].value])
  {
    var e := input[n];
    var ident := FieldIdent(fields, e.name);
    if ident == |fields| { return Err(UnknownField(e.name)); }
    TakenSlot(fields, input, n, slots, ident);
    if slots[ident].Some? { return Err(DuplicateField(ident)); }
    if e.value.None? { return Err(BadValue); }
    FilledStep(fields, input[..n], e, slots, ident);
    assert input[..n + 1] == input[..n] + [e];
    r := Ok(ident);
  }

  /** The `while let` loop of `visit_named_product`: it stops at the first entry that is unknown, repeated
      or bad, in this order. */
  method CollectNamed<V>(fields: seq<string>, input: seq<Entry<V>>) returns (r: Result<seq<Option<V>>>)
    ensures r.Ok? <==> Inoffensive(fields, input, |input|)
    ensures r.Ok? ==> Filled(fields, input, r.value)
    ensures r.Err? ==> FirstOffence(fields, input, r.error)
  {
    var slots: seq<Option<V>> := seq(|fields|, _ => None);
    for n := 0 to |input|
      invariant Filled(fields, input[..n], slots)
    {
      FilledInoffensive(fields, input, n, slots);
      var ident := Examine(fields, input, n, slots);
      if ident.Err? {
        StopsAt(fields, input, n, ident.error);
        return Err(ident.error);
      }
      slots := slots[ident.value := input[n].value];
    }
    assert input[..|input|] == input;
    FilledInoffensive(fields, input, |input|, slots);
    r := Ok(slots);
  }

  /** The construction of the struct from the filled fields. */
  method Build<V>(slots: seq<Option<V>>) returns (r: Result<seq<V>>)
    ensures r.Ok? ==> |r.value| == |slots| && forall k :: 0 <= k < |slots| ==> slots[k] == Some(r.value[k])
    ensures r.Err? ==> r.error.MissingField? && r.error.index < |slots| && slots[r.error.index].None?
                       && forall j :: 0 <= j < r.error.index ==> slots[j].Some?
  {
    var vals: seq<V> := [];
    for k := 0 to |slots|
      invariant |vals| == k && forall j :: 0 <= j < k ==> slots[j] == Some(vals[j])
    {
      if slots[k].None? { return Err(MissingField(k)); }
      vals := vals + [slots[k].value];
    }
    r := Ok(vals);
  }

  /** `visit_named_product`: succeeds exactly on a permutation of the declared fields, and then gives
      each field the value of the entry that names it, which is what the positional visitor builds from
      the same values in declared order. Otherwise the error is that of the first entry with something
      wrong, or of the first field without an entry. */
  method VisitNamed<V>(fields: seq<string>, input: seq<Entry<V>>) returns (r: Result<seq<V>>)
    ensures r.Ok? <==> NoDup(fields) && Complete(fields, input)
    ensures r.Ok? ==> r == VisitSeq(|fields|, InDeclaredOrder(fields, input))
    ensures r.Ok? ==> forall i, k :: 0 <= i < |input| && 0 <= k < |fields| && fields[k] == input[i].name ==>
                        k < |r.value| && input[i].value == Some(r.value[k])
    ensures r.Err? ==> !r.error.InvalidLength?
    ensures r.Err? && !r.error.MissingField? ==> FirstOffence(fields, input, r.error)
    ensures r.Err? && r.error.UnknownField? ==> r.error.name in Names(input) && r.error.name !in fields
    ensures r.Err? && r.error.DuplicateField? ==>
              r.error.index < |fields| && multiset(Names(input))[fields[r.error.index]] >= 2
    ensures r.Err? && r.error.MissingField? ==>
              && r.error.index < |fields| && Inoffensive(fields, input, |input|)
              && (forall j :: 0 <= j < r.error.index ==> fields[j] in Names(input))
              && (NoDup(fields) ==> fields[r.error.index] !in Names(input))
  {
    var collected := CollectNamed(fields, input);
    if collected.Err? {
      OffenceIncomplete(fields, input, collected.error);
      return Err(collected.error);
    }
    r := Build(collected.value);
    if r.Ok? {
      AllFilled(fields, input, collected.value);
      Positional(collected.value, r.value);
      EachEntry(fields, input, collected.value);
    } else {
      MissingIncomplete(fields, input, collected.value, r.error.index);
    }
  }

  lemma Positional<V>(slots: seq<Option<V>>, vals: seq<V>)
    requires |vals| == |slots| && forall k :: 0 <= k < |slots| ==> slots[k] == Some(vals[k])
    ensures VisitSeq(|slots|, slots) == Ok(vals)
  {
    assert VisitSeq(|slots|, slots).value == vals;
  }

  lemma EntryValue<V>(fields: seq<string>, input: seq<Entry<V>>, slots: seq<Option<V>>, i: nat, k: nat)
    requires NoDup(Names(input)) && slots == InDeclaredOrder(fields, input)
    requires i < |input| && k < |fields| && fields[k] == input[i].name
    ensures input[i].value == slots[k]
  {
    ValueForEntry(input, i);
  }

  lemma EachEntry<V>(fields: seq<string>, input: seq<Entry<V>>, slots: seq<Option<V>>)
    requires NoDup(Names(input)) && slots == InDeclaredOrder(fields, input)
    ensures forall i, k :: 0 <= i < |input| && 0 <= k < |fields| && fields[k] == input[i].name ==>
              input[i].value == slots[k]
  {
    forall i, k | 0 <= i < |input| && 0 <= k < |fields| && fields[k] == input[i].name
      ensures input[i].value == slots[k]
    {
      EntryValue(fields, input, slots, i, k);
    }
  }

  lemma OffenceIncomplete<V>(fields: seq<string>, input: seq<Entry<V>>, e: Error)
    requires FirstOffence(fields, input, e)
    ensures !(NoDup(fields) && Complete(fields, input)) && !e.MissingField? && !e.InvalidLength?
    ensures e.UnknownField? ==> e.name in Names(input) && e.name !in fields
    ensures e.DuplicateField? ==> e.index < |fields| && multiset(Names(input))[fields[e.index]] >= 2
  {
    var n :| 0 <= n < |input| && Offence(fields, input, n) == Some(e);
    if input[n].name !in fields {
      UnknownIncomplete(fields, input, n);
    } else if input[n].name in Names(input)[..n] {
      DuplicateIncomplete(fields, input, n);
    }
  }

  lemma UnknownIncomplete<V>(fields: seq<string>, input: seq<Entry<V>>, n: nat)
    requires n < |input| && input[n].name !in fields
    ensures !Complete(fields, input) && input[n].name in Names(input)
  {
    assert Names(input)[n] in multiset(Names(input));
    assert input[n].name !in multiset(fields);
  }

  lemma DuplicateIncomplete<V>(fields: seq<string>, input: seq<Entry<V>>, n: nat)
    requires n < |input| && input[n].name in Names(input)[..n]
    ensures multiset(Names(input))[input[n].name] >= 2 && !(NoDup(fields) && Complete(fields, input))
  {
    var names := Names(input);
    var i :| 0 <= i < n && names[i] == names[n];
    TwiceIn(names, i, n);
    if NoDup(fields) { OnceIn(fields, names[n]); }
  }

  lemma MissingIncomplete<V>(fields: seq<string>, input: seq<Entry<V>>, slots: seq<Option<V>>, k: nat)
    requires Filled(fields, input, slots) && k < |fields| && slots[k].None?
    requires forall j :: 0 <= j < k ==> slots[j].Some?
    ensures forall j :: 0 <= j < k ==> fields[j] in Names(input)
    ensures NoDup(fields) ==> fields[k] !in Names(input)
    ensures !(NoDup(fields) && Complete(fields, input))
  {
    forall j | 0 <= j < k ensures fields[j] in Names(input) { ValueForNamed(input, fields[j]); }
    if NoDup(fields) {
      ValueForNamed(input, fields[k]);
      assert fields[k] in multiset(fields) && fields[k] !in multiset(Names(input));
    }
  }

  lemma AllFilled<V>(fields: seq<string>, input: seq<Entry<V>>, slots: seq<Option<V>>)
    requires Filled(fields, input, slots) && forall k :: 0 <= k < |slots| ==> slots[k].Some?
    ensures NoDup(fields) && Complete(fields, input) && slots == InDeclaredOrder(fields, input)
  {
    var names := Names(input);
    forall i, j | 0 <= i < j < |fields| ensures fields[i] != fields[j] {
      assert IsFirst(fields, j);
    }
    forall x ensures multiset(names)[x] == multiset(fields)[x] {
      OnceIn(names, x);
      OnceIn(fields, x);
      ValueForNamed(input, x);
    }
  }
}
