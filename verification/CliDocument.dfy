/** Loading and saving the CLI configuration as a TOML document (`Config::doc` and the readers).
    Saving edits the document that was loaded, so that comments, formatting and unknown keys stay. */
module CliDocument {
  import opened Options
  import opened CliServers
  import opened Seqs

  const DEFAULT_SERVER_KEY := "default_server"
  const WEB_SESSION_TOKEN_KEY := "web_session_token"
  const SPACETIMEDB_TOKEN_KEY := "spacetimedb_token"
  const SERVER_CONFIGS_KEY := "server_configs"
  const NICKNAME_KEY := "nickname"
  const HOST_KEY := "host"
  const PROTOCOL_KEY := "protocol"
  const ECDSA_PUBLIC_KEY := "ecdsa_public_key"

  /** A string value with its formatting and comments, or any other kind of value. */
  datatype Item = Str(s: string, decor: nat) | OtherItem(id: nat)

  type Table = map<string, Item>

  datatype DocItem = Plain(item: Item) | Tables(tables: seq<Table>)

  type Document = map<string, DocItem>

  datatype Config = Config(
    default_: Option<string>,
    servers: seq<Server>,
    webToken: Option<string>,
    dbToken: Option<string>)

  datatype Result<+T> = Ok(value: T) | Err

  const NO_DECOR := 0

  /** `copy_value_with_decor`: a new string keeps the old string's formatting. */
  function CopyWithDecor(old_: Option<Item>, s: string): Item {
    if old_.Some? && old_.value.Str? then Str(s, old_.value.decor) else Str(s, NO_DECOR)
  }

  function Get<T>(m: map<string, T>, k: string): Option<T> {
    if k in m then Some(m[k]) else None
  }

  /** `set_table_opt_value`. */
  function SetOpt(t: Table, k: string, v: Option<string>): Table {
    if v.Some? then t[k := CopyWithDecor(Get(t, k), v.value)] else t - {k}
  }

  /** `set_opt_value`. */
  function SetDocOpt(d: Document, k: string, v: Option<string>): Document {
    if v.None? then d - {k} else
    d[k := Plain(CopyWithDecor(if k in d && d[k].Plain? then Some(d[k].item) else None, v.value))]
  }

  function ReadOptStr(t: Table, k: string): Result<Option<string>> {
    if k !in t then Ok(None) else if t[k].Str? then Ok(Some(t[k].s)) else Err
  }

  function ReadDocOptStr(d: Document, k: string): Result<Option<string>> {
    if k !in d then Ok(None) else if d[k].Plain? && d[k].item.Str? then Ok(Some(d[k].item.s)) else Err
  }

  /** `TryFrom<&Table> for ServerConfig`. */
  function ReadServer(t: Table): Result<Server> {
    match (ReadOptStr(t, NICKNAME_KEY), ReadOptStr(t, HOST_KEY), ReadOptStr(t, PROTOCOL_KEY),
           ReadOptStr(t, ECDSA_PUBLIC_KEY))
    case (Ok(nick), Ok(Some(host)), Ok(Some(protocol)), Ok(key)) => Ok(Server(nick, host, protocol, key))
    case _ => Err
  }

  function ReadServers(ts: seq<Table>): Result<seq<Server>> {
    if ts == [] then Ok([]) else
    match (ReadServers(ts[..|ts| - 1]), ReadServer(ts[|ts| - 1]))
    case (Ok(ss), Ok(s)) => Ok(ss + [s])
    case _ => Err
  }

  /** `TryFrom<&DocumentMut> for RawConfig`. */
  function ReadConfig(d: Document): Result<Config> {
    match (ReadDocOptStr(d, DEFAULT_SERVER_KEY), ReadDocOptStr(d, WEB_SESSION_TOKEN_KEY),
           ReadDocOptStr(d, SPACETIMEDB_TOKEN_KEY))
    case (Ok(default_), Ok(web), Ok(db)) =>
      if SERVER_CONFIGS_KEY !in d then Ok(Config(default_, [], web, db))
      else if d[SERVER_CONFIGS_KEY].Plain? then Err
      else (match ReadServers(d[SERVER_CONFIGS_KEY].tables)
            case Ok(ss) => Ok(Config(default_, ss, web, db))
            case Err => Err)
    case _ => Err
  }

  /** `ServerConfig::update_table`. */
  function UpdateTable(t: Table, s: Server): Table {
    SetOpt(SetOpt(SetOpt(SetOpt(t, NICKNAME_KEY, s.nickname), HOST_KEY, Some(s.host)), PROTOCOL_KEY, Some(s.protocol)),
           ECDSA_PUBLIC_KEY, s.key)
  }

  lemma KeysDiffer()
    ensures NICKNAME_KEY != HOST_KEY && NICKNAME_KEY != PROTOCOL_KEY && NICKNAME_KEY != ECDSA_PUBLIC_KEY
    ensures HOST_KEY != PROTOCOL_KEY && HOST_KEY != ECDSA_PUBLIC_KEY && PROTOCOL_KEY != ECDSA_PUBLIC_KEY
    ensures DEFAULT_SERVER_KEY != WEB_SESSION_TOKEN_KEY && DEFAULT_SERVER_KEY != SPACETIMEDB_TOKEN_KEY
    ensures DEFAULT_SERVER_KEY != SERVER_CONFIGS_KEY && WEB_SESSION_TOKEN_KEY != SPACETIMEDB_TOKEN_KEY
    ensures WEB_SESSION_TOKEN_KEY != SERVER_CONFIGS_KEY && SPACETIMEDB_TOKEN_KEY != SERVER_CONFIGS_KEY
  {
    assert NICKNAME_KEY[0] == 'n' && HOST_KEY[0] == 'h' && PROTOCOL_KEY[0] == 'p' && ECDSA_PUBLIC_KEY[0] == 'e';
    assert DEFAULT_SERVER_KEY[0] == 'd' && WEB_SESSION_TOKEN_KEY[0] == 'w';
    assert SPACETIMEDB_TOKEN_KEY[1] == 'p' && SERVER_CONFIGS_KEY[1] == 'e';
    assert SPACETIMEDB_TOKEN_KEY[0] == 's' && SERVER_CONFIGS_KEY[0] == 's';
  }

  /** The string a table holds under a key. */
  function StrAt(t: Table, k: string): Option<string> {
    if k in t && t[k].Str? then Some(t[k].s) else None
  }

  /** The table has the server's fields under their keys, and no key for a field that is missing. */
  ghost predicate HasFields(t: Table, s: Server) {
    && StrAt(t, "host") == Some(s.host) && StrAt(t, "protocol") == Some(s.protocol)
    && StrAt(t, "nickname") == s.nickname && (s.nickname.None? ==> "nickname" !in t)
    && StrAt(t, "ecdsa_public_key") == s.key && (s.key.None? ==> "ecdsa_public_key" !in t)
  }

  /** A table reads as a server if and only if it has its fields. */
  lemma ReadServerIff(t: Table, s: Server)
    ensures ReadServer(t) == Ok(s) <==> HasFields(t, s)
  {}

  /** An updated table reads as the server, whatever it held. It keeps its other keys, and the
      formatting of the strings that are replaced. */
  lemma UpdateTableReads(t: Table, s: Server)
    ensures ReadServer(UpdateTable(t, s)) == Ok(s) && HasFields(UpdateTable(t, s), s)
    ensures forall k :: k !in {"nickname", "host", "protocol", "ecdsa_public_key"} ==>
              Get(UpdateTable(t, s), k) == Get(t, k)
    ensures forall k :: k in t && t[k].Str? && k in UpdateTable(t, s) ==>
              UpdateTable(t, s)[k].Str? && UpdateTable(t, s)[k].decor == t[k].decor
  {
    KeysDiffer();
    ReadServerIff(UpdateTable(t, s), s);
  }

  /** The name a table is matched by: its nickname, else its host. */
  function TableKey(t: Table): string
    requires ReadServer(t).Ok?
  {
    NickOrHost(ReadServer(t).value)
  }

  ghost predicate DistinctKeys(ss: seq<Server>) {
    forall i, j :: 0 <= i < j < |ss| ==> NickOrHost(ss[i]) != NickOrHost(ss[j])
  }

  /** The hash map of servers by name: of servers that share a name, the last is left. */
  function IndexOf(ss: seq<Server>): map<string, Server> {
    if ss == [] then map[] else IndexOf(ss[..|ss| - 1])[NickOrHost(ss[|ss| - 1]) := ss[|ss| - 1]]
  }

  /** Server `i` is the last one called `k`. */
  ghost predicate LastNamed(ss: seq<Server>, i: nat, k: string) {
    i < |ss| && NickOrHost(ss[i]) == k && forall j :: i < j < |ss| ==> NickOrHost(ss[j]) != k
  }

  lemma LastNamedNext(ss: seq<Server>, i: nat, k: string)
    requires ss != []
    ensures var n := |ss| - 1;
      LastNamed(ss, i, k) <==> if NickOrHost(ss[n]) == k then i == n else LastNamed(ss[..n], i, k)
  {}

  /** The map holds, under each name, the last server of that name. */
  lemma {:induction false} IndexOfLast(ss: seq<Server>, k: string) returns (i: nat)
    ensures k in IndexOf(ss) <==> i < |ss|
    ensures k in IndexOf(ss) ==> LastNamed(ss, i, k) && IndexOf(ss)[k] == ss[i]
    ensures k !in IndexOf(ss) ==> forall j :: 0 <= j < |ss| ==> NickOrHost(ss[j]) != k
  {
    i := |ss|;
    if ss != [] {
      var n := |ss| - 1;
      if NickOrHost(ss[n]) == k {
        i := n;
      } else {
        var j := IndexOfLast(ss[..n], k);
        LastNamedNext(ss, j, k);
        i := if j < n then j else |ss|;
      }
    }
  }

  ghost predicate Indexes(m: map<string, Server>, ss: seq<Server>) {
    && (forall k :: k in m ==> NickOrHost(m[k]) == k && m[k] in ss)
    && (forall i :: 0 <= i < |ss| ==> NickOrHost(ss[i]) in m)
  }

  lemma {:induction false} IndexOfIndexes(ss: seq<Server>)
    ensures Indexes(IndexOf(ss), ss)
  {
    if ss != [] { IndexOfIndexes(ss[..|ss| - 1]); }
  }

  /** With distinct names every server is found under its own. */
  lemma IndexOfDistinct(ss: seq<Server>, i: nat)
    requires DistinctKeys(ss) && i < |ss|
    ensures NickOrHost(ss[i]) in IndexOf(ss) && IndexOf(ss)[NickOrHost(ss[i])] == ss[i]
  {
    IndexOfIndexes(ss);
    var j :| 0 <= j < |ss| && ss[j] == IndexOf(ss)[NickOrHost(ss[i])];
  }

  /** `all` is what is still in the map and what has been moved out of it, nothing twice. */
  ghost predicate Moved(all: map<string, Server>, m: map<string, Server>, out: seq<Server>) {
    && (forall k :: k in m ==> k in all && m[k] == all[k])
    && (forall i :: 0 <= i < |out| ==>
          NickOrHost(out[i]) in all && all[NickOrHost(out[i])] == out[i] && NickOrHost(out[i]) !in m)
    && (forall k :: k in all ==> k in m || exists i :: 0 <= i < |out| && NickOrHost(out[i]) == k)
    && DistinctKeys(out)
  }

  lemma MoveOne(all: map<string, Server>, m: map<string, Server>, out: seq<Server>, k: string)
    requires (forall x :: x in all ==> NickOrHost(all[x]) == x) && Moved(all, m, out) && k in m
    ensures Moved(all, m - {k}, out + [m[k]])
  {
    var out' := out + [m[k]];
    forall x | x in all ensures x in m - {k} || exists i :: 0 <= i < |out'| && NickOrHost(out'[i]) == x {
      if x == k {
        assert NickOrHost(out'[|out|]) == x;
      } else if x !in m {
        var i :| 0 <= i < |out| && NickOrHost(out[i]) == x;
        assert NickOrHost(out'[i]) == x;
      }
    }
  }

  method IndexServers(ss: seq<Server>) returns (m: map<string, Server>)
    ensures m == IndexOf(ss)
  {
    m := map[];
    for i := 0 to |ss|
      invariant m == IndexOf(ss[..i])
    {
      assert ss[..i + 1][..i] == ss[..i];
      m := m[NickOrHost(ss[i]) := ss[i]];
    }
    assert ss[..|ss|] == ss;
  }

  lemma MovedHolds(ss: seq<Server>, all: map<string, Server>, out: seq<Server>, i: nat)
    requires Indexes(all, ss) && Moved(all, map[], out) && DistinctKeys(ss) && i < |ss|
    ensures ss[i] in out
  {
    var k := NickOrHost(ss[i]);
    assert k in all;
    var j :| 0 <= j < |out| && NickOrHost(out[j]) == k;
    assert all[NickOrHost(out[j])] in ss;
    var i' :| 0 <= i' < |ss| && ss[i'] == out[j];
    assert i == i';
  }

  lemma SharedNameLost(ss: seq<Server>, out: seq<Server>, i: nat, j: nat)
    requires DistinctKeys(out) && i < j < |ss| && NickOrHost(ss[i]) == NickOrHost(ss[j])
    ensures multiset(out) != multiset(ss)
  {
    OnceIn(out, ss[i]);
    if ss[i] == ss[j] {
      TwiceIn(ss, i, j);
    } else {
      assert ss[i] in multiset(ss) && ss[j] in multiset(ss);
      assert !(ss[i] in out && ss[j] in out);
    }
  }

  /** Everything has been moved out: each name once, and all of them only if they were distinct. */
  lemma AllMoved(ss: seq<Server>, all: map<string, Server>, out: seq<Server>)
    requires Indexes(all, ss) && Moved(all, map[], out)
    ensures multiset(out) == multiset(ss) <==> DistinctKeys(ss)
  {
    if DistinctKeys(ss) {
      forall x | x in ss ensures x in out {
        var i :| 0 <= i < |ss| && ss[i] == x;
        MovedHolds(ss, all, out, i);
      }
      forall x | x in out ensures x in ss {
        assert all[NickOrHost(x)] == x;
      }
      SameElements(out, ss);
    } else {
      var i, j :| 0 <= i < j < |ss| && NickOrHost(ss[i]) == NickOrHost(ss[j]);
      SharedNameLost(ss, out, i, j);
    }
  }

  ghost predicate HasKey(ts: seq<Table>, k: string) {
    exists i :: 0 <= i < |ts| && ReadServer(ts[i]).Ok? && TableKey(ts[i]) == k
  }

  /** The old tables whose name is still in use, in their old order, each updated from the server of its
      own name. Of tables that share a name the first is kept. */
  ghost function KeptTables(old_: seq<Table>, all: map<string, Server>): seq<Table> {
    if old_ == [] then [] else
    var front, t := old_[..|old_| - 1], old_[|old_| - 1];
    if ReadServer(t).Ok? && TableKey(t) in all && !HasKey(front, TableKey(t))
    then KeptTables(front, all) + [UpdateTable(t, all[TableKey(t)])]
    else KeptTables(front, all)
  }

  lemma HasKeyNext(ts: seq<Table>, n: nat, k: string)
    requires n < |ts|
    ensures HasKey(ts[..n + 1], k) <==> HasKey(ts[..n], k) || (ReadServer(ts[n]).Ok? && TableKey(ts[n]) == k)
  {
    var a, b := ts[..n], ts[..n + 1];
    assert b == a + [ts[n]];
    if HasKey(a, k) {
      var i :| 0 <= i < |a| && ReadServer(a[i]).Ok? && TableKey(a[i]) == k;
      assert b[i] == a[i];
    }
    if ReadServer(ts[n]).Ok? && TableKey(ts[n]) == k { assert b[n] == ts[n]; }
  }

  /** Tables with distinct names that all are still in use are all kept, where they are. */
  lemma {:induction false} KeptAll(old_: seq<Table>, all: map<string, Server>)
    requires forall i :: 0 <= i < |old_| ==> ReadServer(old_[i]).Ok? && TableKey(old_[i]) in all
    requires forall i, j :: 0 <= i < j < |old_| ==> TableKey(old_[i]) != TableKey(old_[j])
    ensures |KeptTables(old_, all)| == |old_|
    ensures forall i :: 0 <= i < |old_| ==> KeptTables(old_, all)[i] == UpdateTable(old_[i], all[TableKey(old_[i])])
  {
    if old_ != [] {
      KeptAll(old_[..|old_| - 1], all);
      assert !HasKey(old_[..|old_| - 1], TableKey(old_[|old_| - 1]));
    }
  }

  /** `out` is the kept tables, and then new ones for servers that had none. */
  ghost predicate InOrder(old_: seq<Table>, all: map<string, Server>, out: seq<Table>) {
    KeptTables(old_, all) <= out && NewFrom(old_, all, out, |KeptTables(old_, all)|)
  }

  ghost predicate NewFrom(old_: seq<Table>, all: map<string, Server>, out: seq<Table>, n: nat) {
    forall i :: n <= i < |out| ==> IsNew(old_, all, out[i])
  }

  lemma NewFromPush(old_: seq<Table>, all: map<string, Server>, out: seq<Table>, n: nat, k: string)
    requires NewFrom(old_, all, out, n) && k in all && !HasKey(old_, k)
    ensures NewFrom(old_, all, out + [UpdateTable(map[], all[k])], n)
  {
    assert IsNew(old_, all, UpdateTable(map[], all[k]));
  }

  ghost predicate IsNew(old_: seq<Table>, all: map<string, Server>, t: Table) {
    exists k :: k in all && !HasKey(old_, k) && t == UpdateTable(map[], all[k])
  }

  lemma ReadServersPush(ts: seq<Table>, t: Table, ss: seq<Server>, s: Server)
    requires ReadServers(ts) == Ok(ss) && ReadServer(t) == Ok(s)
    ensures ReadServers(ts + [t]) == Ok(ss + [s])
  {
    assert (ts + [t])[..|ts|] == ts;
  }

  /** A state of the merge: `out` is written, the servers in `m` are not yet. */
  ghost predicate Merging(all: map<string, Server>, m: map<string, Server>, out: seq<Table>) {
    && (forall x :: x in all ==> NickOrHost(all[x]) == x) && ReadServers(out).Ok?
    && Moved(all, m, ReadServers(out).value)
  }

  lemma MergeStep(all: map<string, Server>, m: map<string, Server>, out: seq<Table>, t: Table, k: string)
    requires Merging(all, m, out) && k in m
    ensures Merging(all, m - {k}, out + [UpdateTable(t, m[k])])
  {
    var kept := ReadServers(out).value;
    MoveOne(all, m, kept, k);
    UpdateTableReads(t, m[k]);
    ReadServersPush(out, UpdateTable(t, m[k]), kept, m[k]);
  }

  /** Exactly the servers without an old table among `ts` are not yet written. */
  ghost predicate Remaining(all: map<string, Server>, m: map<string, Server>, ts: seq<Table>) {
    m.Keys <= all.Keys && forall k :: k in all ==> (k in m <==> !HasKey(ts, k))
  }

  lemma RemainingNext(all: map<string, Server>, m: map<string, Server>, ts: seq<Table>, n: nat)
    requires n < |ts| && Remaining(all, m, ts[..n]) && ReadServer(ts[n]).Ok?
    ensures Remaining(all, m - {TableKey(ts[n])}, ts[..n + 1])
  {
    forall k | k in all ensures k in m - {TableKey(ts[n])} <==> !HasKey(ts[..n + 1], k) { HasKeyNext(ts, n, k); }
  }

  lemma KeptNext(all: map<string, Server>, m: map<string, Server>, ts: seq<Table>, n: nat)
    requires n < |ts| && Remaining(all, m, ts[..n]) && ReadServer(ts[n]).Ok? && forall k :: k in m ==> m[k] == all[k]
    ensures var k := TableKey(ts[n]);
      KeptTables(ts[..n + 1], all) == KeptTables(ts[..n], all) + if k in m then [UpdateTable(ts[n], m[k])] else []
  {
    assert ts[..n + 1][..n] == ts[..n];
  }

  /** The first half of the merge in `Config::doc`: update the tables that still have a server, and
      drop the others. */
  method KeepTables(old_: seq<Table>, all: map<string, Server>) returns (m: map<string, Server>, out: seq<Table>)
    requires forall i :: 0 <= i < |old_| ==> ReadServer(old_[i]).Ok?
    requires forall x :: x in all ==> NickOrHost(all[x]) == x
    ensures Merging(all, m, out) && Remaining(all, m, old_) && out == KeptTables(old_, all)
  {
    m, out := all, [];
    for i := 0 to |old_|
      invariant Merging(all, m, out) && Remaining(all, m, old_[..i]) && out == KeptTables(old_[..i], all)
    {
      var k := TableKey(old_[i]);
      KeptNext(all, m, old_, i);
      RemainingNext(all, m, old_, i);
      if k in m {
        MergeStep(all, m, out, old_[i], k);
        out, m := out + [UpdateTable(old_[i], m[k])], m - {k};
      } else {
        assert m - {k} == m;
      }
    }
    assert old_[..|old_|] == old_;
  }

  /** The second half: the remaining servers, in the hash map's arbitrary order. */
  method AppendRest(all: map<string, Server>, rest: map<string, Server>, old_: seq<Table>, first: seq<Table>)
    returns (out: seq<Table>)
    requires Merging(all, rest, first) && Remaining(all, rest, old_)
    ensures Merging(all, map[], out) && first <= out && NewFrom(old_, all, out, |first|)
  {
    var m := rest;
    out := first;
    while m.Keys != {}
      invariant Merging(all, m, out) && first <= out && m.Keys <= rest.Keys && NewFrom(old_, all, out, |first|)
      decreases m.Keys
    {
      var k :| k in m.Keys;
      MergeStep(all, m, out, map[], k);
      NewFromPush(old_, all, out, |first|, k);
      out, m := out + [UpdateTable(map[], m[k])], m - {k};
    }
    assert m == map[];
  }

  method MergeTables(old_: seq<Table>, ss: seq<Server>) returns (out: seq<Table>)
    requires forall i :: 0 <= i < |old_| ==> ReadServer(old_[i]).Ok?
    ensures ReadServers(out).Ok? && InOrder(old_, IndexOf(ss), out)
    ensures multiset(ReadServers(out).value) == multiset(ss) <==> DistinctKeys(ss)
  {
    var all := IndexServers(ss);
    IndexOfIndexes(ss);
    var m;
    m, out := KeepTables(old_, all);
    out := AppendRest(all, m, old_, out);
    AllMoved(ss, all, ReadServers(out).value);
  }

  /** Table `i` is that of server `i`. */
  ghost predicate Own(old_: seq<Table>, ss: seq<Server>) {
    |old_| == |ss| && forall i :: 0 <= i < |old_| ==> IsOwn(old_[i], ss[i])
  }

  ghost predicate IsOwn(t: Table, s: Server) {
    ReadServer(t).Ok? && TableKey(t) == NickOrHost(s)
  }

  lemma OwnKept(old_: seq<Table>, ss: seq<Server>)
    requires Own(old_, ss) && DistinctKeys(ss)
    ensures |KeptTables(old_, IndexOf(ss))| == |old_|
    ensures forall i :: 0 <= i < |old_| ==> KeptTables(old_, IndexOf(ss))[i] == UpdateTable(old_[i], ss[i])
  {
    forall i | 0 <= i < |ss|
      ensures IsOwn(old_[i], ss[i]) && NickOrHost(ss[i]) in IndexOf(ss) && IndexOf(ss)[NickOrHost(ss[i])] == ss[i]
    {
      IndexOfDistinct(ss, i);
    }
    KeptAll(old_, IndexOf(ss));
  }

  lemma NoneNew(old_: seq<Table>, ss: seq<Server>, t: Table)
    requires Own(old_, ss)
    ensures !IsNew(old_, IndexOf(ss), t)
  {
    IndexOfIndexes(ss);
    forall k | k in IndexOf(ss) ensures HasKey(old_, k) {
      var i :| 0 <= i < |ss| && ss[i] == IndexOf(ss)[k];
      assert IsOwn(old_[i], ss[i]);
    }
  }

  /** Tables merged with their own servers, one for each, are those tables, updated in place. */
  lemma OwnTables(old_: seq<Table>, ss: seq<Server>, out: seq<Table>)
    requires Own(old_, ss) && DistinctKeys(ss) && InOrder(old_, IndexOf(ss), out)
    ensures |out| == |old_| && forall i :: 0 <= i < |out| ==> out[i] == UpdateTable(old_[i], ss[i])
  {
    OwnKept(old_, ss);
    if |out| > |old_| {
      NoneNew(old_, ss, out[|old_|]);
      assert false;
    }
  }

  /** `as_table` for every server. */
  method NewTables(ss: seq<Server>) returns (out: seq<Table>)
    ensures ReadServers(out) == Ok(ss)
    ensures |out| == |ss| && forall i :: 0 <= i < |ss| ==> out[i] == UpdateTable(map[], ss[i])
  {
    out := [];
    for i := 0 to |ss|
      invariant ReadServers(out) == Ok(ss[..i])
      invariant |out| == i && forall j :: 0 <= j < i ==> out[j] == UpdateTable(map[], ss[j])
    {
      UpdateTableReads(map[], ss[i]);
      ReadServersPush(out, UpdateTable(map[], ss[i]), ss[..i], ss[i]);
      assert ss[..i] + [ss[i]] == ss[..i + 1];
      out := out + [UpdateTable(map[], ss[i])];
    }
    assert ss[..|ss|] == ss;
  }

  lemma {:induction false} ReadServersAll(ts: seq<Table>)
    requires ReadServers(ts).Ok?
    ensures forall i :: 0 <= i < |ts| ==> ReadServer(ts[i]).Ok?
  {
    if ts != [] { ReadServersAll(ts[..|ts| - 1]); }
  }

  function SetTokens(d: Document, c: Config): Document {
    SetDocOpt(SetDocOpt(SetDocOpt(d, DEFAULT_SERVER_KEY, c.default_), WEB_SESSION_TOKEN_KEY, c.webToken),
              SPACETIMEDB_TOKEN_KEY, c.dbToken)
  }

  ghost predicate IsOwnKey(k: string) {
    k == DEFAULT_SERVER_KEY || k == WEB_SESSION_TOKEN_KEY || k == SPACETIMEDB_TOKEN_KEY || k == SERVER_CONFIGS_KEY
  }

  function DocStrAt(d: Document, k: string): Option<string> {
    if k in d && d[k].Plain? && d[k].item.Str? then Some(d[k].item.s) else None
  }

  /** The document has the default and the tokens under their keys, and no key for one that is missing. */
  ghost predicate HasTokens(d: Document, c: Config) {
    && DocStrAt(d, "default_server") == c.default_ && (c.default_.None? ==> "default_server" !in d)
    && DocStrAt(d, "web_session_token") == c.webToken && (c.webToken.None? ==> "web_session_token" !in d)
    && DocStrAt(d, "spacetimedb_token") == c.dbToken && (c.dbToken.None? ==> "spacetimedb_token" !in d)
  }

  /** Strings that stay keep their formatting. */
  ghost predicate KeepsFormat(d: Document, d': Document) {
    forall k :: k in d && d[k].Plain? && d[k].item.Str? && k in d' && d'[k].Plain? ==>
      d'[k].item.Str? && d'[k].item.decor == d[k].item.decor
  }

  lemma SetTokensReads(d: Document, c: Config)
    ensures var d' := SetTokens(d, c);
      && HasTokens(d', c) && KeepsFormat(d, d')
      && Get(d', SERVER_CONFIGS_KEY) == Get(d, SERVER_CONFIGS_KEY)
      && forall k :: !IsOwnKey(k) ==> Get(d', k) == Get(d, k)
  {
    KeysDiffer();
  }

  /** Every table reads as a server, in order. */
  ghost predicate HoldServers(ts: seq<Table>, ss: seq<Server>) {
    |ts| == |ss| && forall i :: 0 <= i < |ts| ==> HasFields(ts[i], ss[i])
  }

  lemma {:induction false} ReadServersIff(ts: seq<Table>, ss: seq<Server>)
    ensures ReadServers(ts) == Ok(ss) <==> HoldServers(ts, ss)
    decreases |ts|
  {
    if ts != [] && ss != [] {
      var n := |ts| - 1;
      ReadServersIff(ts[..n], ss[..|ss| - 1]);
      ReadServerIff(ts[n], ss[|ss| - 1]);
      assert ss == ss[..|ss| - 1] + [ss[|ss| - 1]];
    }
  }

  /** A document loads as a configuration if and only if it has the default and the tokens as strings or
      not at all, and an array of tables with the servers' fields, or none. */
  lemma ReadConfigIff(d: Document, c: Config)
    ensures ReadConfig(d) == Ok(c) <==>
            && HasTokens(d, c)
            && if "server_configs" !in d then c.servers == []
               else d["server_configs"].Tables? && HoldServers(d["server_configs"].tables, c.servers)
  {
    if "server_configs" in d && d["server_configs"].Tables? {
      ReadServersIff(d["server_configs"].tables, c.servers);
    }
  }

  /** The document holds the configuration with servers `kept`, and all other keys of `d`. */
  ghost predicate Saved(d: Document, d': Document, c: Config, kept: seq<Server>) {
    && ReadConfig(d') == Ok(Config(c.default_, kept, c.webToken, c.dbToken))
    && HasTokens(d', c) && KeepsFormat(d, d')
    && forall k :: !IsOwnKey(k) ==> Get(d', k) == Get(d, k)
  }

  lemma SavedWith(d: Document, c: Config, ts: seq<Table>, kept: seq<Server>)
    requires ReadServers(ts) == Ok(kept)
    ensures Saved(d, SetTokens(d, c)[SERVER_CONFIGS_KEY := Tables(ts)], c, kept)
  {
    SetTokensReads(d, c);
    KeysDiffer();
  }

  lemma SavedWithout(d: Document, c: Config)
    ensures Saved(d, SetTokens(d, c) - {SERVER_CONFIGS_KEY}, c, [])
  {
    SetTokensReads(d, c);
    KeysDiffer();
  }

  function TablesIn(d: Document): seq<Table> {
    if SERVER_CONFIGS_KEY in d && d[SERVER_CONFIGS_KEY].Tables? then d[SERVER_CONFIGS_KEY].tables else []
  }

  /** `Config::doc`. Reading the saved document back gives the same default and tokens, and the same
      servers up to order, exactly when no two servers share their nickname-or-host, or there was no
      table array to merge into. Keys that are not the CLI's own are untouched, and so is the order of
      the tables that stay. */
  method Save(d: Document, c: Config) returns (d': Document)
    requires ReadConfig(d).Ok?
    ensures ReadConfig(d').Ok? && Saved(d, d', c, ReadConfig(d').value.servers)
    ensures multiset(ReadConfig(d').value.servers) == multiset(c.servers) <==>
            DistinctKeys(c.servers) || SERVER_CONFIGS_KEY !in d
    ensures SERVER_CONFIGS_KEY !in d ==> ReadConfig(d').value.servers == c.servers
    ensures SERVER_CONFIGS_KEY in d && c.servers != [] ==>
              InOrder(TablesIn(d), IndexOf(c.servers), TablesIn(d'))
  {
    d' := SetTokens(d, c);
    SetTokensReads(d, c);
    if c.servers == [] {
      SavedWithout(d, c);
      return d' - {SERVER_CONFIGS_KEY};
    }
    if SERVER_CONFIGS_KEY in d' && d'[SERVER_CONFIGS_KEY].Tables? {
      ReadServersAll(d'[SERVER_CONFIGS_KEY].tables);
      var merged := MergeTables(d'[SERVER_CONFIGS_KEY].tables, c.servers);
      SavedWith(d, c, merged, ReadServers(merged).value);
      d' := d'[SERVER_CONFIGS_KEY := Tables(merged)];
    } else {
      var fresh_ := NewTables(c.servers);
      SavedWith(d, c, fresh_, c.servers);
      d' := d'[SERVER_CONFIGS_KEY := Tables(fresh_)];
    }
  }

  /** What `find_server` returns. */
  function Lookup(ss: seq<Server>, name: string): (found: Option<Server>)
    ensures found.Some? <==> InUse(ss, name)
    ensures found.Some? ==> found.value in ss && NamedBy(found.value, name)
  {
    var i := FirstNamed(ss, name);
    if i < |ss| then Some(ss[i]) else None
  }

  lemma UnambiguousOne(ss: seq<Server>, s: Server, t: Server, name: string)
    requires Unambiguous(ss) && s in ss && t in ss && NamedBy(s, name) && NamedBy(t, name)
    ensures s == t
  {
    var i :| 0 <= i < |ss| && ss[i] == s;
    var j :| 0 <= j < |ss| && ss[j] == t;
  }

  /** With unambiguous names, the order of the servers does not show in any lookup. */
  lemma LookupAnyOrder(a: seq<Server>, b: seq<Server>, name: string)
    requires Unambiguous(a) && multiset(a) == multiset(b)
    ensures Lookup(a, name) == Lookup(b, name)
  {
    assert forall x :: x in a <==> x in multiset(a);
    assert forall x :: x in b <==> x in multiset(b);
    if Lookup(a, name).Some? && Lookup(b, name).Some? {
      UnambiguousOne(a, Lookup(a, name).value, Lookup(b, name).value, name);
    }
    if InUse(b, name) {
      var i :| 0 <= i < |b| && NamedBy(b[i], name);
      assert b[i] in a;
    }
    if InUse(a, name) {
      var i :| 0 <= i < |a| && NamedBy(a[i], name);
      assert a[i] in b;
    }
  }

  lemma UnambiguousKeys(ss: seq<Server>)
    requires Unambiguous(ss)
    ensures DistinctKeys(ss)
  {
    forall i, j | 0 <= i < j < |ss| ensures NickOrHost(ss[i]) != NickOrHost(ss[j]) {
      assert NamedBy(ss[i], NickOrHost(ss[i]));
    }
  }

  const BARE_TABLE: Table := map[HOST_KEY := Str("h", NO_DECOR), PROTOCOL_KEY := Str("http", NO_DECOR)]
  const BARE_SERVER := Server(None, "h", "http", None)

  lemma BareTableReads()
    ensures ReadServer(BARE_TABLE) == Ok(BARE_SERVER)
  {
    KeysDiffer();
  }

  lemma ReadTwice(t: Table, s: Server)
    requires ReadServer(t) == Ok(s)
    ensures ReadServers([t, t]) == Ok([s, s])
  {
    ReadServersPush([], t, [], s);
    assert [] + [t] == [t] && [] + [s] == [s];
    ReadServersPush([t], t, [s], s);
    assert [t] + [t] == [t, t] && [s] + [s] == [s, s];
  }

  lemma TablesOnly(ts: seq<Table>, ss: seq<Server>)
    requires ReadServers(ts) == Ok(ss)
    ensures ReadConfig(map[SERVER_CONFIGS_KEY := Tables(ts)]) == Ok(Config(None, ss, None, None))
  {
    KeysDiffer();
  }

  /** A document whose two servers share a host: saving what it holds over it keeps one of them. */
  lemma SharedHostExample()
    ensures var d, ss := map[SERVER_CONFIGS_KEY := Tables([BARE_TABLE, BARE_TABLE])], [BARE_SERVER, BARE_SERVER];
      SERVER_CONFIGS_KEY in d && ReadConfig(d) == Ok(Config(None, ss, None, None)) && !DistinctKeys(ss)
  {
    BareTableReads();
    ReadTwice(BARE_TABLE, BARE_SERVER);
    TablesOnly([BARE_TABLE, BARE_TABLE], [BARE_SERVER, BARE_SERVER]);
    var ss := [BARE_SERVER, BARE_SERVER];
    assert NickOrHost(ss[0]) == NickOrHost(ss[1]);
  }

  /** Saving an unambiguous configuration over any loaded document and loading it again: every lookup
      answers as before. */
  method SaveAndLoad(d: Document, c: Config) returns (loaded: Config)
    requires ReadConfig(d).Ok? && Unambiguous(c.servers)
    ensures loaded.default_ == c.default_ && loaded.webToken == c.webToken && loaded.dbToken == c.dbToken
    ensures multiset(loaded.servers) == multiset(c.servers)
    ensures forall name :: Lookup(loaded.servers, name) == Lookup(c.servers, name)
  {
    UnambiguousKeys(c.servers);
    var d' := Save(d, c);
    loaded := ReadConfig(d').value;
    forall name ensures Lookup(loaded.servers, name) == Lookup(c.servers, name) {
      LookupAnyOrder(c.servers, loaded.servers, name);
    }
  }
}
