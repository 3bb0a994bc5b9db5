/** The CLI's saved server configurations (`RawConfig`): a registry in which a string, taken as a
    nickname or a host, should name one server, and a default stored as such a string. */
module CliServers {
  import opened Options

  datatype Server = Server(nickname: Option<string>, host: string, protocol: string, key: Option<string>)

  predicate NamedBy(s: Server, name: string) {
    s.nickname == Some(name) || s.host == name
  }

  function NickOrHost(s: Server): (name: string)
    ensures s.nickname == Some(name) || (s.nickname.None? && name == s.host)
  {
    match s.nickname
    case Some(nick) => nick
    case None => s.host
  }

  predicate InUse(ss: seq<Server>, name: string) {
    exists i :: 0 <= i < |ss| && NamedBy(ss[i], name)
  }

  /** `nick_or_host_or_url_is`; `urlHost` is the host part of a URL, and any other string itself. */
  predicate NickOrHostOrUrlIs(s: Server, name: string, urlHost: string -> string) {
    s.nickname == Some(name) || s.host == name || s.host == urlHost(name)
  }

  /** No string names two servers. */
  ghost predicate Unambiguous(ss: seq<Server>) {
    forall i, j, name :: 0 <= i < j < |ss| && NamedBy(ss[i], name) ==> !NamedBy(ss[j], name)
  }

  /** Server `i` is what `find_server(name)` finds. */
  ghost predicate Finds(ss: seq<Server>, name: string, i: nat) {
    i < |ss| && NamedBy(ss[i], name) && forall j :: 0 <= j < i ==> !NamedBy(ss[j], name)
  }

  datatype Edited = Edited(nickname: Option<string>, host: Option<string>, protocol: Option<string>) | Refused

  function EditedServer(s: Server, nick: Option<string>, host: Option<string>, protocol: Option<string>): Server {
    Server(if nick.Some? then nick else s.nickname,
           if host.Some? then host.value else s.host,
           if protocol.Some? then protocol.value else s.protocol,
           s.key)
  }

  /** By the fields: all nicknames differ, all hosts differ, and no nickname is another server's host. */
  lemma UnambiguousIff(ss: seq<Server>)
    ensures Unambiguous(ss) <==>
            forall i, j :: 0 <= i < |ss| && 0 <= j < |ss| && i != j ==>
              && ss[i].host != ss[j].host && ss[i].nickname != Some(ss[j].host)
              && (ss[i].nickname.Some? ==> ss[i].nickname != ss[j].nickname)
  {
    if Unambiguous(ss) {
      forall i, j | 0 <= i < |ss| && 0 <= j < |ss| && i != j
        ensures ss[i].host != ss[j].host && ss[i].nickname != Some(ss[j].host)
        ensures ss[i].nickname.Some? ==> ss[i].nickname != ss[j].nickname
      {
        assert NamedBy(ss[i], ss[i].host) && NamedBy(ss[j], ss[j].host);
        if ss[i].nickname.Some? { assert NamedBy(ss[i], ss[i].nickname.value); }
      }
    }
  }

  lemma AddKeeps(ss: seq<Server>, s: Server)
    requires Unambiguous(ss) && !InUse(ss, s.host) && (s.nickname.Some? ==> !InUse(ss, s.nickname.value))
    ensures Unambiguous(ss + [s])
  {}

  lemma RemoveKeeps(ss: seq<Server>, i: nat)
    requires Unambiguous(ss) && i < |ss|
    ensures Unambiguous(ss[..i] + ss[i + 1..])
  {}

  lemma EditKeeps(ss: seq<Server>, i: nat, nick: Option<string>, host: Option<string>, protocol: Option<string>)
    requires Unambiguous(ss) && i < |ss|
    requires (nick.Some? ==> !InUse(ss, nick.value)) && (host.Some? ==> !InUse(ss, host.value))
    ensures Unambiguous(ss[i := EditedServer(ss[i], nick, host, protocol)])
  {
    var ss' := ss[i := EditedServer(ss[i], nick, host, protocol)];
    forall a, b, name | 0 <= a < b < |ss'| && NamedBy(ss'[a], name) ensures !NamedBy(ss'[b], name) {
      assert a != i ==> NamedBy(ss[a], name);
    }
  }

  /** Both identifiers change, and the default is stored as the nickname that goes away. */
  ghost predicate LosesDefault(s: Server, nick: Option<string>, host: Option<string>, default_: Option<string>) {
    nick.Some? && host.Some? && default_.Some? && s.nickname == default_ && s.host != default_.value
  }

  const LOCAL := Server(Some("local"), "127.0.0.1:3000", "http", None)
  const MAINCLOUD := Server(Some("maincloud"), "maincloud.spacetimedb.com", "https", None)

  lemma InitialState()
    ensures Unambiguous([LOCAL, MAINCLOUD]) && InUse([LOCAL, MAINCLOUD], "local")
  {
    assert NamedBy([LOCAL, MAINCLOUD][0], "local");
    assert |"local"| == 5 && |"127.0.0.1:3000"| == 14 && |"maincloud"| == 9 && |"maincloud.spacetimedb.com"| == 25;
  }

  class RawConfig {
    var defaultServer: Option<string>
    var servers: seq<Server>

    /** The default, if set, names a saved server. */
    ghost predicate DefaultResolves()
      reads this
    {
      defaultServer.Some? ==> InUse(servers, defaultServer.value)
    }

    function State(): Registry
      reads this
    {
      Registry(defaultServer, servers)
    }

    /** `new_with_localhost`. */
    constructor ()
      ensures Unambiguous(servers) && DefaultResolves()
      ensures defaultServer == LOCAL.nickname && servers == [LOCAL, MAINCLOUD]
    {
      defaultServer, servers := LOCAL.nickname, [LOCAL, MAINCLOUD];
      new;
      InitialState();
    }

    method FindServer(name: string) returns (idx: Option<nat>)
      ensures idx.Some? <==> InUse(servers, name)
      ensures idx.Some? ==> Finds(servers, name, idx.value)
    {
      for i := 0 to |servers|
        invariant forall j :: 0 <= j < i ==> !NamedBy(servers[j], name)
      {
        if NamedBy(servers[i], name) { return Some(i); }
      }
      idx := None;
    }

    method AddServer(host: string, protocol: string, key: Option<string>, nickname: Option<string>) returns (ok: bool)
      modifies this
      ensures old(Unambiguous(servers)) ==> Unambiguous(servers)
      ensures defaultServer == old(defaultServer)
      ensures ok <==> !InUse(old(servers), host) && (nickname.Some? ==> !InUse(old(servers), nickname.value))
      ensures servers == if ok then old(servers) + [Server(nickname, host, protocol, key)] else old(servers)
      ensures old(DefaultResolves()) ==> DefaultResolves()
    {
      if nickname.Some? {
        var taken := FindServer(nickname.value);
        if taken.Some? { return false; }
      }
      var same := FindServer(host);
      if same.Some? { return false; }
      if Unambiguous(servers) { AddKeeps(servers, Server(nickname, host, protocol, key)); }
      servers := servers + [Server(nickname, host, protocol, key)];
      assert forall i :: 0 <= i < |old(servers)| ==> servers[i] == old(servers)[i];
      ok := true;
    }

    method SetDefaultServer(name: string) returns (ok: bool)
      modifies `defaultServer
      ensures ok <==> InUse(servers, name)
      ensures defaultServer == if ok then Some(name) else old(defaultServer)
      ensures ok || old(DefaultResolves()) ==> DefaultResolves()
    {
      var found := FindServer(name);
      if found.None? { return false; }
      defaultServer := Some(name);
      ok := true;
    }

    method Position(name: string, urlHost: string -> string) returns (idx: Option<nat>)
      ensures idx.Some? <==> exists i :: 0 <= i < |servers| && NickOrHostOrUrlIs(servers[i], name, urlHost)
      ensures idx.Some? ==> idx.value < |servers| && NickOrHostOrUrlIs(servers[idx.value], name, urlHost)
      ensures idx.Some? ==> forall j :: 0 <= j < idx.value ==> !NickOrHostOrUrlIs(servers[j], name, urlHost)
    {
      for i := 0 to |servers|
        invariant forall j :: 0 <= j < i ==> !NickOrHostOrUrlIs(servers[j], name, urlHost)
      {
        if NickOrHostOrUrlIs(servers[i], name, urlHost) { return Some(i); }
      }
      idx := None;
    }

    /** Removes the first match. The default goes with the server it names. */
    method RemoveServer(name: string, urlHost: string -> string) returns (ok: bool, ghost at: nat)
      modifies this
      ensures old(Unambiguous(servers)) ==> Unambiguous(servers)
      ensures old(DefaultResolves()) ==> DefaultResolves()
      ensures ok <==> exists s :: s in old(servers) && (s.nickname == Some(name) || s.host in {name, urlHost(name)})
      ensures !ok ==> servers == old(servers) && defaultServer == old(defaultServer)
      ensures ok ==> at < |old(servers)| && NickOrHostOrUrlIs(old(servers)[at], name, urlHost)
                     && (forall j :: 0 <= j < at ==> !NickOrHostOrUrlIs(old(servers)[j], name, urlHost))
                     && servers == old(servers)[..at] + old(servers)[at + 1..]
      ensures ok && old(defaultServer).Some? ==>
                var gone, d := old(servers)[at], old(defaultServer).value;
                defaultServer == if gone.nickname == Some(d) || gone.host in {d, urlHost(d)} then None
                                 else old(defaultServer)
      ensures ok && old(defaultServer).None? ==> defaultServer.None?
    {
      at := 0;
      var found := Position(name, urlHost);
      assert forall s :: s in servers && (s.nickname == Some(name) || s.host in {name, urlHost(name)}) ==>
               NickOrHostOrUrlIs(s, name, urlHost);
      if found.None? { return false, 0; }
      var idx := found.value;
      at := idx;
      var cfg := servers[idx];
      if Unambiguous(servers) { RemoveKeeps(servers, idx); }
      ghost var before := servers;
      servers := servers[..idx] + servers[idx + 1..];
      if defaultServer.Some? && NickOrHostOrUrlIs(cfg, defaultServer.value, urlHost) {
        defaultServer := None;
      } else if defaultServer.Some? && InUse(before, defaultServer.value) {
        StillInUse(before, idx, defaultServer.value);
      }
      ok := true;
    }

    /** `edit_server`. Names stay unambiguous whatever is edited. The default keeps naming the server
        it named, under its new name, if and only if the edit does not lose it. */
    method EditServer(server: string, nick: Option<string>, host: Option<string>, protocol: Option<string>)
      returns (result: Edited, ghost at: nat)
      modifies this
      ensures old(Unambiguous(servers)) ==> Unambiguous(servers)
      ensures result.Edited? <==> InUse(old(servers), server) && (nick.Some? ==> !InUse(old(servers), nick.value))
                                  && (host.Some? ==> !InUse(old(servers), host.value))
      ensures result.Refused? ==> servers == old(servers) && defaultServer == old(defaultServer)
      ensures result.Edited? ==> Finds(old(servers), server, at) && |servers| == |old(servers)|
                                 && forall i :: 0 <= i < |servers| && i != at ==> servers[i] == old(servers)[i]
      ensures result.Edited? ==>
                var was, now := old(servers)[at], servers[at];
                && now.nickname == (if nick.Some? then nick else was.nickname)
                && now.host == (if host.Some? then host.value else was.host)
                && now.protocol == (if protocol.Some? then protocol.value else was.protocol) && now.key == was.key
      ensures result.Edited? ==>
                var was := old(servers)[at];
                && result.nickname == (if nick.Some? then was.nickname else None)
                && result.host == (if host.Some? then Some(was.host) else None)
                && result.protocol == (if protocol.Some? then Some(was.protocol) else None)
      ensures result.Edited? ==>
                var was := old(servers)[at];
                defaultServer == if host.Some? && old(defaultServer) == Some(was.host) then host
                                 else if host.None? && nick.Some? && was.nickname.Some?
                                         && old(defaultServer) == was.nickname then nick
                                 else old(defaultServer)
      ensures old(Unambiguous(servers) && DefaultResolves()) && result.Edited? ==>
                (DefaultResolves() <==> !LosesDefault(old(servers)[at], nick, host, old(defaultServer)))
      ensures old(Unambiguous(servers) && DefaultResolves()) && result.Edited? && DefaultResolves() ==>
                FollowsDefault(old(servers), old(defaultServer), servers, defaultServer)
    {
      at := 0;
      result := Refused;
      if nick.Some? {
        var other := FindServer(nick.value);
        if other.Some? { return; }
      }
      if host.Some? {
        var other := FindServer(host.value);
        if other.Some? { return; }
      }
      var found := FindServer(server);
      if found.None? { return; }
      var idx := found.value;
      at := idx;
      var cfg := servers[idx];
      EditEffect(servers, idx, nick, host, protocol, defaultServer);
      result := Replaced(cfg, nick, host, protocol);
      servers := servers[idx := EditedServer(cfg, nick, host, protocol)];
      defaultServer := DefaultAfterEdit(defaultServer, result, nick, host);
    }
  }

  datatype Op =
    | Add(host: string, protocol: string, key: Option<string>, nickname: Option<string>)
    | Remove(name: string)
    | SetDefault(name: string)
    | Edit(server: string, nick: Option<string>, newHost: Option<string>, newProtocol: Option<string>)

  /** The registry as a value, and what each operation makes of it. */
  datatype Registry = Registry(default_: Option<string>, servers: seq<Server>)

  function FirstNamed(ss: seq<Server>, name: string): (i: nat)
    ensures i < |ss| <==> InUse(ss, name)
    ensures i <= |ss| && (i < |ss| ==> Finds(ss, name, i))
  {
    if ss == [] || NamedBy(ss[0], name) then 0 else
    assert forall k :: 0 < k < |ss| ==> ss[k] == ss[1..][k - 1];
    1 + FirstNamed(ss[1..], name)
  }

  function FirstMatch(ss: seq<Server>, name: string, urlHost: string -> string): (i: nat)
    ensures i <= |ss| && (i < |ss| ==> NickOrHostOrUrlIs(ss[i], name, urlHost))
    ensures forall j :: 0 <= j < i ==> !NickOrHostOrUrlIs(ss[j], name, urlHost)
  {
    if ss == [] || NickOrHostOrUrlIs(ss[0], name, urlHost) then 0 else 1 + FirstMatch(ss[1..], name, urlHost)
  }

  /** New identifiers must not be in use. */
  predicate Free(ss: seq<Server>, nick: Option<string>, host: Option<string>) {
    (nick.Some? ==> !InUse(ss, nick.value)) && (host.Some? ==> !InUse(ss, host.value))
  }

  function After(s: Registry, op: Op, urlHost: string -> string): Registry {
    var ss := s.servers;
    match op
    case Add(host, protocol, key, nickname) =>
      if Free(ss, nickname, Some(host)) then s.(servers := ss + [Server(nickname, host, protocol, key)]) else s
    case Remove(name) =>
      var i := FirstMatch(ss, name, urlHost);
      if i == |ss| then s else
      Registry(if s.default_.Some? && NickOrHostOrUrlIs(ss[i], s.default_.value, urlHost) then None else s.default_,
            ss[..i] + ss[i + 1..])
    case SetDefault(name) => if InUse(ss, name) then s.(default_ := Some(name)) else s
    case Edit(server, nick, host, protocol) =>
      var i := FirstNamed(ss, server);
      if i == |ss| || !Free(ss, nick, host) then s else
      Registry(DefaultAfterEdit(s.default_, Replaced(ss[i], nick, host, protocol), nick, host),
            ss[i := EditedServer(ss[i], nick, host, protocol)])
  }

  /** The state after the first `n` operations of a run from the initial configuration. */
  function StateAfter(ops: seq<Op>, n: nat, urlHost: string -> string): Registry
    requires n <= |ops|
  {
    if n == 0 then Registry(LOCAL.nickname, [LOCAL, MAINCLOUD])
    else After(StateAfter(ops, n - 1, urlHost), ops[n - 1], urlHost)
  }

  ghost predicate Resolves(s: Registry) {
    s.default_.Some? ==> InUse(s.servers, s.default_.value)
  }

  /** The operation is an edit that goes through and loses the default. */
  ghost predicate Loses(s: Registry, op: Op) {
    && op.Edit? && InUse(s.servers, op.server) && Free(s.servers, op.nick, op.newHost)
    && LosesDefault(s.servers[FirstNamed(s.servers, op.server)], op.nick, op.newHost, s.default_)
  }

  lemma AfterUnambiguous(s: Registry, op: Op, urlHost: string -> string)
    requires Unambiguous(s.servers)
    ensures Unambiguous(After(s, op, urlHost).servers)
  {
    var ss := s.servers;
    match op
    case Add(host, protocol, key, nickname) =>
      if Free(ss, nickname, Some(host)) { AddKeeps(ss, Server(nickname, host, protocol, key)); }
    case Remove(name) =>
      var i := FirstMatch(ss, name, urlHost);
      if i < |ss| { RemoveKeeps(ss, i); }
    case SetDefault(_) =>
    case Edit(server, nick, host, protocol) =>
      var i := FirstNamed(ss, server);
      if i < |ss| && Free(ss, nick, host) { EditKeeps(ss, i, nick, host, protocol); }
  }

  lemma AfterResolves(s: Registry, op: Op, urlHost: string -> string)
    requires Unambiguous(s.servers) && Resolves(s)
    ensures Resolves(After(s, op, urlHost)) <==> !Loses(s, op)
  {
    var ss := s.servers;
    match op
    case Add(host, protocol, key, nickname) =>
      if s.default_.Some? { StaysInUse(ss, Server(nickname, host, protocol, key), s.default_.value); }
    case Remove(name) =>
      var i := FirstMatch(ss, name, urlHost);
      if i < |ss| && s.default_.Some? && !NamedBy(ss[i], s.default_.value) { StillInUse(ss, i, s.default_.value); }
    case SetDefault(_) =>
    case Edit(server, nick, host, protocol) =>
      var i := FirstNamed(ss, server);
      if i < |ss| && Free(ss, nick, host) { EditDefault(ss, i, nick, host, protocol, s.default_); }
  }

  lemma {:induction false} RunUnambiguous(ops: seq<Op>, n: nat, urlHost: string -> string)
    requires n <= |ops|
    ensures Unambiguous(StateAfter(ops, n, urlHost).servers)
  {
    if n == 0 {
      InitialState();
    } else {
      RunUnambiguous(ops, n - 1, urlHost);
      AfterUnambiguous(StateAfter(ops, n - 1, urlHost), ops[n - 1], urlHost);
    }
  }

  /** The default named a server, or was not set, before and after each of the first `n` operations. */
  ghost predicate AlwaysResolves(ops: seq<Op>, n: nat, urlHost: string -> string)
    requires n <= |ops|
  {
    Resolves(StateAfter(ops, n, urlHost)) && (n > 0 ==> AlwaysResolves(ops, n - 1, urlHost))
  }

  /** None of the first `n` operations is an edit that loses the default of that moment. */
  ghost predicate NeverLoses(ops: seq<Op>, n: nat, urlHost: string -> string)
    requires n <= |ops|
  {
    n > 0 ==> !Loses(StateAfter(ops, n - 1, urlHost), ops[n - 1]) && NeverLoses(ops, n - 1, urlHost)
  }

  lemma StepResolves(ops: seq<Op>, n: nat, urlHost: string -> string)
    requires 0 < n <= |ops| && Resolves(StateAfter(ops, n - 1, urlHost))
    ensures Resolves(StateAfter(ops, n, urlHost)) <==> !Loses(StateAfter(ops, n - 1, urlHost), ops[n - 1])
  {
    RunUnambiguous(ops, n - 1, urlHost);
    AfterResolves(StateAfter(ops, n - 1, urlHost), ops[n - 1], urlHost);
  }

  /** Over every run, the default resolves throughout if and only if no edit loses it. */
  lemma {:induction false} RunResolves(ops: seq<Op>, n: nat, urlHost: string -> string)
    requires n <= |ops|
    ensures AlwaysResolves(ops, n, urlHost) <==> NeverLoses(ops, n, urlHost)
  {
    if n == 0 {
      InitialState();
    } else {
      RunResolves(ops, n - 1, urlHost);
      if Resolves(StateAfter(ops, n - 1, urlHost)) { StepResolves(ops, n, urlHost); }
    }
  }

  /** Edits that change the nickname or the host, but not both, never lose it. */
  lemma {:induction false} OneIdentifierResolves(ops: seq<Op>, n: nat, urlHost: string -> string)
    requires n <= |ops| && forall k :: 0 <= k < n && ops[k].Edit? ==> ops[k].nick.None? || ops[k].newHost.None?
    ensures NeverLoses(ops, n, urlHost) && AlwaysResolves(ops, n, urlHost)
  {
    if n > 0 { OneIdentifierResolves(ops, n - 1, urlHost); }
    RunResolves(ops, n, urlHost);
  }

  method ApplyEdit(c: RawConfig, op: Op, urlHost: string -> string)
    requires op.Edit?
    modifies c
    ensures c.State() == After(old(c.State()), op, urlHost)
  {
    ghost var ss := c.servers;
    var result, at := c.EditServer(op.server, op.nick, op.newHost, op.newProtocol);
    if result.Edited? {
      assert FirstNamed(ss, op.server) == at;
      assert c.servers == ss[at := EditedServer(ss[at], op.nick, op.newHost, op.newProtocol)];
    }
  }

  method Apply(c: RawConfig, op: Op, urlHost: string -> string)
    modifies c
    ensures c.State() == After(old(c.State()), op, urlHost)
  {
    match op
    case Add(host, protocol, key, nickname) => var _ := c.AddServer(host, protocol, key, nickname);
    case Remove(name) => var _, _ := c.RemoveServer(name, urlHost);
    case SetDefault(name) => var _ := c.SetDefaultServer(name);
    case Edit(_, _, _, _) => ApplyEdit(c, op, urlHost);
  }

  /** Every run of the registry itself, from the initial configuration: it follows the states above,
      no string names two servers, and unless an edit lost it the default, if set, names exactly one. */
  method Run(ops: seq<Op>, urlHost: string -> string) returns (c: RawConfig)
    ensures fresh(c) && c.State() == StateAfter(ops, |ops|, urlHost) && Unambiguous(c.servers)
    ensures NeverLoses(ops, |ops|, urlHost) && c.defaultServer.Some? ==>
              exists i :: 0 <= i < |c.servers| && NamedBy(c.servers[i], c.defaultServer.value)
                          && forall j :: 0 <= j < |c.servers| && NamedBy(c.servers[j], c.defaultServer.value) ==> j == i
  {
    c := new RawConfig();
    for n := 0 to |ops|
      invariant fresh(c) && c.State() == StateAfter(ops, n, urlHost)
    {
      Apply(c, ops[n], urlHost);
    }
    RunUnambiguous(ops, |ops|, urlHost);
    RunResolves(ops, |ops|, urlHost);
  }

  lemma StaysInUse(ss: seq<Server>, s: Server, name: string)
    requires InUse(ss, name)
    ensures InUse(ss + [s], name)
  {
    var i :| 0 <= i < |ss| && NamedBy(ss[i], name);
    assert (ss + [s])[i] == ss[i];
  }

  /** Renaming the default server of the initial configuration and moving its host in one edit leaves the
      default naming nothing. */
  lemma LostDefaultExample(urlHost: string -> string)
    ensures var op := Edit("local", Some("dev"), Some("localhost:3000"), None);
            var s := After(StateAfter([], 0, urlHost), op, urlHost);
            s.default_ == Some("local") && !InUse(s.servers, "local")
  {
    var s := StateAfter([], 0, urlHost);
    InitialState();
    assert |"local"| == 5 && |"dev"| == 3 && |"localhost:3000"| == 14 && |"127.0.0.1:3000"| == 14;
    assert |"maincloud"| == 9 && |"maincloud.spacetimedb.com"| == 25;
    assert "localhost:3000"[0] == 'l' && "127.0.0.1:3000"[0] == '1';
    assert NamedBy(s.servers[0], "local") && FirstNamed(s.servers, "local") == 0;
    forall i | 0 <= i < |s.servers| ensures !NamedBy(s.servers[i], "dev") && !NamedBy(s.servers[i], "localhost:3000") {}
  }

  lemma StillInUse(ss: seq<Server>, i: nat, name: string)
    requires i < |ss| && InUse(ss, name) && !NamedBy(ss[i], name)
    ensures InUse(ss[..i] + ss[i + 1..], name)
  {
    var k :| 0 <= k < |ss| && NamedBy(ss[k], name);
    var rest := ss[..i] + ss[i + 1..];
    assert k < i ==> rest[k] == ss[k];
    assert k > i ==> rest[k - 1] == ss[k];
  }

  /** The replaced values `edit_server` reports. */
  function Replaced(s: Server, nick: Option<string>, host: Option<string>, protocol: Option<string>): Edited {
    Edited(if nick.Some? then s.nickname else None,
           if host.Some? then Some(s.host) else None,
           if protocol.Some? then Some(s.protocol) else None)
  }

  /** The `if let ... else if let` chain at the end of `edit_server`. */
  function DefaultAfterEdit(default_: Option<string>, old_: Edited, nick: Option<string>, host: Option<string>)
    : Option<string>
    requires old_.Edited? && (old_.host.Some? ==> host.Some?) && (old_.nickname.Some? ==> nick.Some?)
  {
    if default_.None? then None
    else if old_.host.Some? then (if default_ == old_.host then host else default_)
    else if old_.nickname.Some? then (if default_ == old_.nickname then nick else default_)
    else default_
  }

  /** The default names the same position before and after. */
  ghost predicate FollowsDefault(ss: seq<Server>, d: Option<string>, ss': seq<Server>, d': Option<string>) {
    && (d.None? <==> d'.None?) && |ss| == |ss'|
    && (d.Some? ==> forall i :: 0 <= i < |ss| ==> (NamedBy(ss[i], d.value) <==> NamedBy(ss'[i], d'.value)))
  }

  lemma EditDefault(ss: seq<Server>, i: nat, nick: Option<string>, host: Option<string>, protocol: Option<string>,
                    d: Option<string>)
    requires Unambiguous(ss) && i < |ss| && (d.Some? ==> InUse(ss, d.value))
    requires (nick.Some? ==> !InUse(ss, nick.value)) && (host.Some? ==> !InUse(ss, host.value))
    ensures var ss' := ss[i := EditedServer(ss[i], nick, host, protocol)];
            var d' := DefaultAfterEdit(d, Replaced(ss[i], nick, host, protocol), nick, host);
            && ((d'.Some? ==> InUse(ss', d'.value)) <==> !LosesDefault(ss[i], nick, host, d))
            && (!LosesDefault(ss[i], nick, host, d) ==> FollowsDefault(ss, d, ss', d'))
  {
    if d.Some? {
      var ss' := ss[i := EditedServer(ss[i], nick, host, protocol)];
      var d' := DefaultAfterEdit(d, Replaced(ss[i], nick, host, protocol), nick, host);
      var k :| 0 <= k < |ss| && NamedBy(ss[k], d.value);
      if LosesDefault(ss[i], nick, host, d) {
        assert k == i && d' == d;
        forall j | 0 <= j < |ss'| ensures !NamedBy(ss'[j], d.value) {}
      } else {
        forall j | 0 <= j < |ss| ensures NamedBy(ss[j], d.value) <==> NamedBy(ss'[j], d'.value) {
          if d' != d { assert k == i; }
        }
        assert NamedBy(ss'[k], d'.value);
      }
    }
  }

  lemma EditEffect(ss: seq<Server>, i: nat, nick: Option<string>, host: Option<string>, protocol: Option<string>,
                   d: Option<string>)
    requires i < |ss| && Free(ss, nick, host)
    ensures var ss' := ss[i := EditedServer(ss[i], nick, host, protocol)];
            var d' := DefaultAfterEdit(d, Replaced(ss[i], nick, host, protocol), nick, host);
            Unambiguous(ss) ==>
              && Unambiguous(ss')
              && ((d.Some? ==> InUse(ss, d.value)) ==>
                    && ((d'.Some? ==> InUse(ss', d'.value)) <==> !LosesDefault(ss[i], nick, host, d))
                    && (!LosesDefault(ss[i], nick, host, d) ==> FollowsDefault(ss, d, ss', d')))
  {
    if Unambiguous(ss) {
      EditKeeps(ss, i, nick, host, protocol);
      if d.Some? ==> InUse(ss, d.value) { EditDefault(ss, i, nick, host, protocol, d); }
    }
  }
}
