/** The listener table of the gateway and its hot-reload loop (server/src/server.rs, main_async). */
module HotReload {
  import opened Prelude

  datatype Protocol = Http | Https

  /** A server section of the configuration, with what building it would give. `settings` stands
      for everything the listener does not bind to. */
  datatype Server = Server(name: string, enabled: bool, ip: string, port: nat, protocol: Protocol,
                           tunnel: Option<string>, settings: string, tlsBuilds: bool, stackBuilds: bool)

  type Token = nat

  /** A running listener: its cancellation token and the section it was last configured with. */
  datatype Listener = Listener(token: Token, config: Server)

  type Table = map<string, Listener>

  predicate SameBinding(a: Server, b: Server) {
    a.ip == b.ip && a.port == b.port && a.protocol == b.protocol && a.tunnel == b.tunnel
  }

  /** The dry run of one section passes. */
  predicate Builds(s: Server) {
    && (s.protocol == Https || s.tunnel.Some? ==> s.tlsBuilds)
    && s.stackBuilds
  }

  /** Every enabled section passes its dry run. */
  ghost predicate DryRunPasses(servers: seq<Server>) {
    forall i :: 0 <= i < |servers| && servers[i].enabled ==> Builds(servers[i])
  }

  /** The enabled sections by name; a later one replaces an earlier one of the same name. */
  function Enabled(servers: seq<Server>): map<string, Server> {
    if |servers| == 0 then map[]
    else
      var last := servers[|servers| - 1];
      var before := Enabled(servers[..|servers| - 1]);
      if last.enabled then before[last.name := last] else before
  }

  /** The sections that startup runs: enabled, and their service stack builds. */
  function Startable(servers: seq<Server>): seq<Server> {
    if |servers| == 0 then []
    else
      var last := servers[|servers| - 1];
      Startable(servers[..|servers| - 1]) + if last.enabled && last.stackBuilds then [last] else []
  }

  ghost predicate DistinctNames(servers: seq<Server>) {
    forall i, j :: 0 <= i < j < |servers| ==> servers[i].name != servers[j].name
  }

  function Tokens(table: Table): set<Token> {
    set name | name in table :: table[name].token
  }

  ghost predicate Injective(table: Table) {
    forall a, b :: a in table && b in table && table[a].token == table[b].token ==> a == b
  }

  ghost predicate Below(tokens: set<Token>, bound: Token) {
    forall t :: t in tokens ==> t < bound
  }

  /** Tokens are issued once; no two names share one; and every listener in the table runs and
      serves the section it is listed with. */
  ghost predicate Coherent(active: Table, spawned: set<Token>, cancelled: set<Token>, nextToken: Token, serving: map<Token, Server>) {
    && Below(spawned, nextToken)
    && cancelled <= spawned
    && Injective(active)
    && Tokens(active) <= spawned - cancelled
    && (forall name :: name in active ==> active[name].config.name == name)
    && Served(active, serving)
  }

  /** Startup runs the section: it is enabled and its stack builds. */
  predicate Starts(s: Server) {
    s.enabled && s.stackBuilds
  }

  /** `s` is the last section of its name that startup runs. */
  ghost predicate IsLastStarted(servers: seq<Server>, name: string, s: Server) {
    exists i :: && 0 <= i < |servers| && servers[i] == s && Starts(s) && s.name == name
                && forall j :: i < j < |servers| && Starts(servers[j]) ==> servers[j].name != name
  }

  /** Every listener of the table was started as the last section of its name. */
  ghost predicate RunsLast(active: Table, servers: seq<Server>) {
    forall name :: name in active ==> IsLastStarted(servers, name, active[name].config)
  }

  lemma LastAfter(active: Table, servers: seq<Server>, i: nat, token: Token)
    requires i < |servers| && RunsLast(active, servers[..i])
    ensures var s := servers[i];
            RunsLast(if Starts(s) then active[s.name := Listener(token, s)] else active, servers[..i + 1])
    ensures Starts(servers[i]) <==> servers[i].enabled && servers[i].stackBuilds
  {
    var s, all := servers[i], servers[..i + 1];
    var active' := if Starts(s) then active[s.name := Listener(token, s)] else active;
    forall name | name in active' ensures IsLastStarted(all, name, active'[name].config) {
      if Starts(s) && name == s.name {
        assert all[i] == s;
      } else {
        var k :| && 0 <= k < i && servers[..i][k] == active[name].config && Starts(active[name].config) && active[name].config.name == name
                 && forall j :: k < j < i && Starts(servers[..i][j]) ==> servers[..i][j].name != name;
        assert all[k] == servers[..i][k];
        forall j | k < j < i + 1 && Starts(all[j]) ensures all[j].name != name {
          assert j < i ==> all[j] == servers[..i][j];
        }
      }
    }
  }

  /** The sections startup runs, in their order: where each stands in the configuration. */
  lemma StartableIs(servers: seq<Server>) returns (at: seq<nat>)
    ensures PositionsOf(servers, |servers|, Startable(servers), at)
  {
    assert servers[..|servers|] == servers;
    at := StartableUpTo(servers, |servers|);
  }

  /** `at` lists, in order, the positions below `n` of the sections startup runs, and `started` is what
      stands there. */
  ghost predicate PositionsOf(servers: seq<Server>, n: nat, started: seq<Server>, at: seq<nat>)
    requires n <= |servers|
  {
    && |at| == |started|
    && (forall k :: 0 <= k < |at| ==> at[k] < n && started[k] == servers[at[k]] && Starts(servers[at[k]]))
    && (forall j, k :: 0 <= j < k < |at| ==> at[j] < at[k])
    && (forall i: nat :: i < n && Starts(servers[i]) ==> i in at)
  }

  lemma {:induction false} StartableUpTo(servers: seq<Server>, n: nat) returns (at: seq<nat>)
    requires n <= |servers|
    ensures PositionsOf(servers, n, Startable(servers[..n]), at)
  {
    if n == 0 {
      at := [];
    } else {
      var before := StartableUpTo(servers, n - 1);
      var started := Startable(servers[..n - 1]);
      assert servers[..n][..n - 1] == servers[..n - 1];
      at := before + if Starts(servers[n - 1]) then [n - 1] else [];
      assert Startable(servers[..n]) == started + if Starts(servers[n - 1]) then [servers[n - 1]] else [];
      hide Startable, Starts;
      PositionsNext(servers, n, started, before);
    }
  }

  lemma PositionsNext(servers: seq<Server>, n: nat, started: seq<Server>, at: seq<nat>)
    requires 0 < n <= |servers| && PositionsOf(servers, n - 1, started, at)
    ensures PositionsOf(servers, n, started + (if Starts(servers[n - 1]) then [servers[n - 1]] else []),
                        at + (if Starts(servers[n - 1]) then [n - 1] else []))
  {
    hide Starts;
    var at' := at + (if Starts(servers[n - 1]) then [n - 1] else []);
    forall i: nat | i < n && Starts(servers[i]) ensures i in at' {
      if i < n - 1 { assert i in at; }
    }
  }

  /** What a configuration reload runs: the last enabled section of each name. */
  lemma {:induction false} EnabledIs(servers: seq<Server>, name: string)
    ensures name in Enabled(servers) <==> exists i :: 0 <= i < |servers| && servers[i].enabled && servers[i].name == name
    ensures name in Enabled(servers) ==>
              exists i :: && 0 <= i < |servers| && servers[i] == Enabled(servers)[name] && servers[i].enabled && servers[i].name == name
                          && forall j :: i < j < |servers| && servers[j].enabled ==> servers[j].name != name
  {
    if |servers| == 0 {
    } else {
      var n := |servers| - 1;
      var init := servers[..n];
      EnabledIs(init, name);
      if servers[n].enabled && servers[n].name == name {
        assert servers[n] == Enabled(servers)[name];
      } else if name in Enabled(init) {
        var i :| && 0 <= i < n && init[i] == Enabled(init)[name] && init[i].enabled && init[i].name == name
                 && forall j :: i < j < n && init[j].enabled ==> init[j].name != name;
        assert servers[i] == init[i];
        forall j | i < j < |servers| && servers[j].enabled ensures servers[j].name != name {
          assert j < n ==> servers[j] == init[j];
        }
      }
    }
  }

  /** What the two tests of a reload ask, written out: a dry run passes when every enabled section's
      stack builds, and its TLS configuration where it needs one; a listener is kept when address,
      port, protocol and tunnel are those it has. */
  lemma ReloadTests(servers: seq<Server>, before: Table, built: map<string, Server>, name: string)
    ensures DryRunPasses(servers) <==>
            forall i :: 0 <= i < |servers| && servers[i].enabled ==>
              servers[i].stackBuilds && (servers[i].protocol == Https || servers[i].tunnel.Some? ==> servers[i].tlsBuilds)
    ensures Keeps(before, built, name) <==>
            && name in before && name in built
            && before[name].config.ip == built[name].ip && before[name].config.port == built[name].port
            && before[name].config.protocol == built[name].protocol && before[name].config.tunnel == built[name].tunnel
  {
  }

  ghost predicate RunsAs(active: Table, built: map<string, Server>) {
    active.Keys == built.Keys && forall name :: name in active ==> active[name].config == built[name]
  }

  /** The table runs what the last applied reload enables or, with none applied, what startup runs. */
  ghost predicate RunsLatest(active: Table, initial: seq<Server>, reloads: seq<seq<Server>>) {
    if |reloads| == 0 then active.Keys == Names(Startable(initial)) && RunsLast(active, initial)
    else
      var n := |reloads| - 1;
      if DryRunPasses(reloads[n]) then RunsAs(active, Enabled(reloads[n])) else RunsLatest(active, initial, reloads[..n])
  }

  lemma NoneYet(active: Table, initial: seq<Server>, none: seq<seq<Server>>)
    requires |none| == 0 && active.Keys == Names(Startable(initial)) && RunsLast(active, initial)
    ensures RunsLatest(active, initial, none)
  {
  }

  lemma LatestNext(before: Table, active: Table, initial: seq<Server>, reloads: seq<seq<Server>>, last: seq<Server>)
    requires RunsLatest(before, initial, reloads)
    requires if DryRunPasses(last) then RunsAs(active, Enabled(last)) else active == before
    ensures RunsLatest(active, initial, reloads + [last])
  {
    hide DryRunPasses, Enabled;
    assert (reloads + [last])[..|reloads|] == reloads;
  }

  lemma ListedRun(active: Table, spawned: set<Token>, cancelled: set<Token>, nextToken: Token, serving: map<Token, Server>)
    requires Coherent(active, spawned, cancelled, nextToken, serving)
    ensures Tokens(active) <= spawned - cancelled
  {
  }

  class Gateway {
    var active: Table
    var spawned: set<Token>
    var cancelled: set<Token>
    var nextToken: Token
    /** What each listener's swappable service stack was last built from. */
    var serving: map<Token, Server>

    /** The tokens whose listeners still run. */
    function Running(): set<Token>
      reads this
    {
      spawned - cancelled
    }

    ghost predicate Consistent()
      reads this
    {
      Coherent(active, spawned, cancelled, nextToken, serving)
    }

    /** Nothing runs outside the table. */
    ghost predicate Exact()
      reads this
    {
      Consistent() && Running() == Tokens(active)
    }

    constructor ()
      ensures Exact() && active == map[] && spawned == {} && cancelled == {}
    {
      active, spawned, cancelled, nextToken, serving := map[], {}, {}, 0, map[];
    }

    /** Starts a listener under a new token and puts it in `table`. */
    method Spawn(table: Table, server: Server) returns (table': Table)
      modifies this`spawned, this`nextToken, this`serving
      ensures nextToken == old(nextToken) + 1 && spawned == old(spawned) + {old(nextToken)}
      ensures serving == old(serving)[old(nextToken) := server]
      ensures table' == table[server.name := Listener(old(nextToken), server)]
    {
      var token := nextToken;
      nextToken := nextToken + 1;
      spawned := spawned + {token};
      serving := serving[token := server];
      table' := table[server.name := Listener(token, server)];
    }

    /** Startup runs every enabled section whose stack builds. What it leaves is exact, with no
        listener outside the table, exactly when the names of those sections are distinct. */
    method Startup(servers: seq<Server>)
      requires Exact() && active == map[]
      modifies this
      ensures Consistent() && cancelled == old(cancelled)
      ensures Exact() <==> DistinctNames(Startable(servers))
      ensures active.Keys == Names(Startable(servers))
      ensures RunsLast(active, servers)
    {
      hide DistinctNames, Startable, Names, Coherent, Tokens, Starts;
      var i := 0;
      StartableUnfolds(servers, 0);
      while i < |servers|
        invariant 0 <= i <= |servers| && Consistent() && cancelled == old(cancelled)
        invariant active.Keys == Names(Startable(servers[..i]))
        invariant Exact() <==> DistinctNames(Startable(servers[..i]))
        invariant RunsLast(active, servers[..i])
      {
        StartableUnfolds(servers, i + 1);
        LastAfter(active, servers, i, nextToken);
        hide RunsLast;
        var server := servers[i];
        i := i + 1;
        if !server.enabled { continue; }
        if !server.stackBuilds { continue; }
        StartOne(active, spawned, cancelled, nextToken, serving, server);
        active := Spawn(active, server);
      }
      assert servers[..i] == servers;
    }

    /** The dry-run pass: changes nothing, and collects the sections to run. */
    method DryRun(servers: seq<Server>) returns (built: map<string, Server>, errors: seq<string>)
      ensures errors == [] <==> DryRunPasses(servers)
      ensures errors == [] ==> built == Enabled(servers)
    {
      built, errors := map[], [];
      for i := 0 to |servers|
        invariant errors == [] <==> DryRunPasses(servers[..i])
        invariant errors == [] ==> built == Enabled(servers[..i])
      {
        assert servers[..i + 1][..i] == servers[..i];
        var server := servers[i];
        if !server.enabled { continue; }
        if server.protocol == Https || server.tunnel.Some? {
          if !server.tlsBuilds {
            errors := errors + [server.name];
            assert !Builds(servers[..i + 1][i]);
            continue;
          }
        }
        if server.stackBuilds {
          built := built[server.name := server];
        } else {
          errors := errors + [server.name];
          assert !Builds(servers[..i + 1][i]);
        }
      }
      assert servers[..|servers|] == servers;
    }

    /** The apply pass: takes over the listeners whose binding is unchanged, starts the others. */
    method TakeOverOrStart(built: map<string, Server>) returns (next: Table)
      requires Consistent() && forall name :: name in built ==> built[name].name == name
      modifies this`active, this`spawned, this`nextToken, this`serving
      ensures Applied(old(active), built, built.Keys, active, next, old(nextToken))
      ensures spawned == old(spawned) + Fresh(next, old(nextToken))
      ensures Below(spawned, nextToken)
      ensures Served(next, serving)
    {
      hide Applied, Fresh, Served, Coherent, Tokens, Injective;
      next := map[];
      var todo := built.Keys;
      ghost var before, base := active, nextToken;
      ApplyNothing(before, built, base, spawned, cancelled, serving);
      assert built.Keys - todo == {};
      while todo != {}
        invariant todo <= built.Keys && nextToken >= base
        invariant Applied(before, built, built.Keys - todo, active, next, base)
        invariant Below(Tokens(next), nextToken) && Below(spawned, nextToken)
        invariant spawned == old(spawned) + Fresh(next, base)
        invariant Served(next, serving)
        decreases todo
      {
        var name :| name in todo;
        ghost var done := built.Keys - todo;
        assert built.Keys - (todo - {name}) == done + {name};
        LeftAt(before, built, done, active, next, base, name);
        var server := built[name];
        if name !in active || !SameBinding(active[name].config, server) {
          AddStarted(before, built, done, active, next, base, name, nextToken, serving);
          next := Spawn(next, server);
        } else {
          var listener := active[name];
          AddKept(before, built, done, active, next, base, name, serving);
          active := active - {name};
          serving := serving[listener.token := server];
          next := next[name := Listener(listener.token, server)];
        }
        todo := todo - {name};
      }
      assert built.Keys - {} == built.Keys;
    }

    /** Cancels whatever is left in the table. */
    method Drain()
      modifies this`active, this`cancelled
      ensures active == map[] && cancelled == old(cancelled) + Tokens(old(active))
    {
      while active != map[]
        invariant cancelled + Tokens(active) == old(cancelled) + Tokens(old(active))
        decreases active.Keys
      {
        var name :| name in active;
        TokensRemove(active, name);
        cancelled := cancelled + {active[name].token};
        active := active - {name};
      }
    }

    /** One reload. A failed dry run changes nothing. A successful one leaves exactly the enabled
        sections running, keeps a listener's token exactly when its address, port, protocol and
        tunnel are unchanged, issues a new one otherwise, cancels every other listener of the
        table, and leaves running outside the table what ran there before. */
    method Reload(servers: seq<Server>) returns (ok: bool)
      requires Consistent()
      modifies this
      ensures Consistent()
      ensures ok <==> DryRunPasses(servers)
      ensures !ok ==> unchanged(this)
      ensures ok ==> active.Keys == Enabled(servers).Keys
      ensures ok ==> forall name :: name in active ==>
                && active[name].config == Enabled(servers)[name]
                && (if Keeps(old(active), Enabled(servers), name) then active[name].token == old(active)[name].token
                    else active[name].token !in old(spawned))
      ensures ok ==> cancelled == old(cancelled) + (Tokens(old(active)) - Tokens(active))
      ensures Running() - Tokens(active) == old(Running() - Tokens(active))
      ensures old(Exact()) ==> Exact()
    {
      var built, errors := DryRun(servers);
      if errors != [] {
        return false;
      }
      EnabledNames(servers);
      hide Applied, Fresh, Served, Tokens, Injective, DryRunPasses, Enabled;
      ghost var before, base, issued := active, nextToken, spawned;
      var next := TakeOverOrStart(built);
      TokensAfter(before, built, active, next, base, issued);
      Drain();
      active := next;
      return true;
    }

    /** Startup and any number of reloads: whatever the reloads are, and however many have been made,
        the running listeners are exactly those of the table if and only if the sections run at
        startup had distinct names. */
    method Serve(initial: seq<Server>, reloads: seq<seq<Server>>)
      requires Exact() && active == map[]
      modifies this
      ensures Consistent()
      ensures Exact() <==> DistinctNames(Startable(initial))
      ensures RunsLatest(active, initial, reloads)
    {
      hide DistinctNames, Startable, DryRunPasses, Enabled, RunsLast, RunsLatest, Names, Coherent, Tokens;
      Startup(initial);
      NoneYet(active, initial, reloads[..0]);
      for i := 0 to |reloads|
        invariant Consistent()
        invariant Exact() <==> DistinctNames(Startable(initial))
        invariant RunsLatest(active, initial, reloads[..i])
      {
        ListedRun(active, spawned, cancelled, nextToken, serving);
        NothingOutside(Running(), Tokens(active));
        ghost var before := active;
        var ok := Reload(reloads[i]);
        ListedRun(active, spawned, cancelled, nextToken, serving);
        NothingOutside(Running(), Tokens(active));
        assert reloads[..i + 1] == reloads[..i] + [reloads[i]];
        LatestNext(before, active, initial, reloads[..i], reloads[i]);
      }
      assert reloads[..|reloads|] == reloads;
    }

    /** The life of the gateway: startup, reloads, shutdown. Nothing outlives the shutdown if and only
        if the sections run at startup had distinct names. */
    method RunUntilShutdown(initial: seq<Server>, reloads: seq<seq<Server>>)
      requires Exact() && active == map[]
      modifies this
      ensures Running() == {} <==> DistinctNames(Startable(initial))
    {
      hide DistinctNames, Startable;
      Serve(initial, reloads);
      NothingOutside(Running(), Tokens(active));
      ghost var outside := Running() - Tokens(active);
      Drain();
      assert Running() == outside;
    }
  }

  /** Two enabled sections of one name, whatever else is in them. */
  lemma SameNameTwice(a: Server, b: Server)
    requires a.name == b.name && a.enabled && b.enabled && a.stackBuilds && b.stackBuilds
    ensures Startable([a, b]) == [a, b] && !DistinctNames(Startable([a, b]))
  {
    assert [a, b][..1] == [a] && [a][..0] == [];
    assert Startable([a]) == [a];
    assert [a, b][0].name == [a, b][1].name;
  }

  /** They both start; the first is not in the table, and no reload and no shutdown stops it. */
  method SecondOfName(a: Server, b: Server, reloads: seq<seq<Server>>) returns (g: Gateway)
    requires a.name == b.name && a.enabled && b.enabled && a.stackBuilds && b.stackBuilds
    ensures fresh(g) && g.Running() != {}
  {
    SameNameTwice(a, b);
    g := new Gateway();
    g.RunUntilShutdown([a, b], reloads);
  }

  lemma NothingOutside(running: set<Token>, listed: set<Token>)
    requires listed <= running
    ensures running == listed <==> running - listed == {}
  {
    if running - listed == {} {
      assert forall t :: t in running ==> t in listed || t in running - listed;
    }
  }

  function Names(servers: seq<Server>): set<string> {
    set s | s in servers :: s.name
  }

  /** The tokens of `table` issued from `base` on. */
  function Fresh(table: Table, base: Token): set<Token> {
    set name | name in table && table[name].token >= base :: table[name].token
  }

  ghost predicate Served(table: Table, serving: map<Token, Server>) {
    forall name :: name in table ==> table[name].token in serving && serving[table[name].token] == table[name].config
  }

  /** The listener of `name` can be kept. */
  predicate Keeps(before: Table, built: map<string, Server>, name: string) {
    name in before && name in built && SameBinding(before[name].config, built[name])
  }

  /** The apply pass after the sections `done`, starting from the table `before`. */
  ghost predicate Applied(before: Table, built: map<string, Server>, done: set<string>, left: Table, next: Table, base: Token) {
    && left == (map n | n in before && !(n in done && Keeps(before, built, n)) :: before[n])
    && next.Keys == done <= built.Keys
    && Injective(next)
    && forall n :: n in done ==>
         && next[n].config == built[n]
         && (if Keeps(before, built, n) then next[n].token == before[n].token else next[n].token >= base)
  }

  lemma ApplyNothing(before: Table, built: map<string, Server>, base: Token, spawned: set<Token>, cancelled: set<Token>,
                     serving: map<Token, Server>)
    requires Coherent(before, spawned, cancelled, base, serving)
    ensures Applied(before, built, {}, before, map[], base)
    ensures Tokens(map[]) == {} && Fresh(map[], base) == {} && Served(map[], serving)
    ensures Below(spawned, base) && Injective(before) && Below(Tokens(before), base)
  {
  }

  /** A section not yet done finds its old listener where it was. */
  lemma LeftAt(before: Table, built: map<string, Server>, done: set<string>, left: Table, next: Table, base: Token, name: string)
    requires Applied(before, built, done, left, next, base) && name !in done
    ensures name in left <==> name in before
    ensures name in left ==> left[name] == before[name]
  {
  }

  lemma TokenListed(table: Table, name: string)
    requires name in table
    ensures table[name].token in Tokens(table)
  {
  }

  lemma AppliedStarted(before: Table, built: map<string, Server>, done: set<string>, left: Table, next: Table, base: Token,
                       name: string, token: Token)
    requires Applied(before, built, done, left, next, base) && name in built && name !in done
    requires !Keeps(before, built, name) && token >= base && Below(Tokens(next), token)
    ensures Applied(before, built, done + {name}, left, next[name := Listener(token, built[name])], base)
  {
    forall n | n in next ensures next[n].token < token {
      TokenListed(next, n);
    }
    hide Tokens, Keeps;
  }

  lemma AddStarted(before: Table, built: map<string, Server>, done: set<string>, left: Table, next: Table, base: Token,
                   name: string, token: Token, serving: map<Token, Server>)
    requires Applied(before, built, done, left, next, base) && name in built && name !in done
    requires !Keeps(before, built, name) && token >= base && Served(next, serving) && Below(Tokens(next), token)
    ensures var next' := next[name := Listener(token, built[name])];
            && Applied(before, built, done + {name}, left, next', base)
            && Fresh(next', base) == Fresh(next, base) + {token}
            && Served(next', serving[token := built[name]])
            && Below(Tokens(next'), token + 1)
  {
    AppliedStarted(before, built, done, left, next, base, name, token);
    assert name !in next;
    hide Applied, Keeps;
    forall n | n in next ensures next[n].token < token {
      TokenListed(next, n);
    }
    FreshAdded(next, base, name, Listener(token, built[name]));
  }

  /** Adding a listener under a free name. */
  lemma FreshAdded(table: Table, base: Token, name: string, l: Listener)
    requires name !in table
    ensures Fresh(table[name := l], base) == if l.token >= base then Fresh(table, base) + {l.token} else Fresh(table, base)
    ensures Tokens(table[name := l]) == Tokens(table) + {l.token}
  {
    var table' := table[name := l];
    assert table'[name].token == l.token;
    forall t | t in Fresh(table, base) ensures t in Fresh(table', base) {
      var n :| n in table && table[n].token >= base && table[n].token == t;
      assert n in table' && table'[n].token == t;
    }
    forall t | t in Tokens(table) ensures t in Tokens(table') {
      var n :| n in table && table[n].token == t;
      assert n in table' && table'[n].token == t;
    }
  }

  lemma AppliedKept(before: Table, built: map<string, Server>, done: set<string>, left: Table, next: Table, base: Token, name: string)
    requires Applied(before, built, done, left, next, base) && name in built && name !in done
    requires Keeps(before, built, name) && Injective(before) && Below(Tokens(before), base)
    ensures Applied(before, built, done + {name}, left - {name}, next[name := Listener(before[name].token, built[name])], base)
    ensures name !in next && forall n :: n in next ==> next[n].token != before[name].token
  {
    TokenListed(before, name);
    hide Tokens, SameBinding;
  }

  lemma AddKept(before: Table, built: map<string, Server>, done: set<string>, left: Table, next: Table, base: Token,
                name: string, serving: map<Token, Server>)
    requires Applied(before, built, done, left, next, base) && name in built && name !in done
    requires Keeps(before, built, name) && Injective(before) && Served(next, serving) && Below(Tokens(before), base)
    ensures var next' := next[name := Listener(before[name].token, built[name])];
            && Applied(before, built, done + {name}, left - {name}, next', base)
            && Fresh(next', base) == Fresh(next, base)
            && Served(next', serving[before[name].token := built[name]])
            && Tokens(next') == Tokens(next) + {before[name].token} && before[name].token < base
  {
    AppliedKept(before, built, done, left, next, base, name);
    TokenListed(before, name);
    hide Applied, Injective, SameBinding;
    FreshAdded(next, base, name, Listener(before[name].token, built[name]));
  }

  lemma TokensRemove(table: Table, name: string)
    requires name in table
    ensures Tokens(table) == Tokens(table - {name}) + {table[name].token}
  {
    forall t | t in Tokens(table) && t != table[name].token ensures t in Tokens(table - {name}) {
      var n :| n in table && table[n].token == t;
      assert n in table - {name};
    }
  }

  /** What is drained and what runs after the apply pass. */
  lemma TokensAfter(before: Table, built: map<string, Server>, left: Table, next: Table, base: Token, issued: set<Token>)
    requires Applied(before, built, built.Keys, left, next, base) && Injective(before)
    requires Below(issued, base) && Tokens(before) <= issued
    ensures Tokens(left) == Tokens(before) - Tokens(next)
    ensures Fresh(next, base) <= Tokens(next) <= Tokens(before) + Fresh(next, base)
    ensures Fresh(next, base) !! issued
    ensures Injective(next) && next.Keys == built.Keys
    ensures forall name :: name in next ==>
              && next[name].config == built[name]
              && (if Keeps(before, built, name) then next[name].token == before[name].token else next[name].token !in issued)
  {
    forall n | n in before ensures before[n].token in Tokens(before) {
      TokenListed(before, n);
    }
    forall t | t in Tokens(next) ensures t in Tokens(before) + Fresh(next, base) {
      var n :| n in next && next[n].token == t;
      assert Keeps(before, built, n) ==> before[n].token == t;
    }
    forall t | t in Tokens(left) ensures t in Tokens(before) - Tokens(next) {
      var n :| n in left && left[n].token == t;
      NotTakenOver(before, built, left, next, base, n);
    }
    forall t | t in Tokens(before) - Tokens(next) ensures t in Tokens(left) {
      var n :| n in before && before[n].token == t;
      if n in next { TokenListed(next, n); }
      assert n in left;
    }
  }

  lemma NotTakenOver(before: Table, built: map<string, Server>, left: Table, next: Table, base: Token, name: string)
    requires Applied(before, built, built.Keys, left, next, base) && Injective(before) && name in left
    requires Below(Tokens(before), base)
    ensures name in before && before[name] == left[name] && left[name].token !in Tokens(next)
  {
    TokenListed(before, name);
    forall m | m in next ensures next[m].token != left[name].token {
      if Keeps(before, built, m) { TokenListed(before, m); }
    }
  }

  lemma {:induction false} EnabledNames(servers: seq<Server>)
    ensures forall name :: name in Enabled(servers) ==> Enabled(servers)[name].name == name
  {
    if |servers| == 0 {
    } else {
      EnabledNames(servers[..|servers| - 1]);
    }
  }

  lemma StartableUnfolds(servers: seq<Server>, n: nat)
    requires n <= |servers|
    ensures n == 0 ==> Startable(servers[..n]) == [] && DistinctNames(Startable(servers[..n])) && Names(Startable(servers[..n])) == {}
    ensures n > 0 ==>
              var before, after, last := Startable(servers[..n - 1]), Startable(servers[..n]), servers[n - 1];
              if last.enabled && last.stackBuilds
              then Names(after) == Names(before) + {last.name}
                   && (DistinctNames(after) <==> DistinctNames(before) && last.name !in Names(before))
              else after == before
  {
    if n > 0 {
      assert servers[..n][..n - 1] == servers[..n - 1];
      var before, after, last := Startable(servers[..n - 1]), Startable(servers[..n]), servers[n - 1];
      if last.enabled && last.stackBuilds {
        assert after == before + [last];
        AddName(before, last);
      }
    }
  }

  lemma AddName(before: seq<Server>, last: Server)
    ensures Names(before + [last]) == Names(before) + {last.name}
    ensures DistinctNames(before + [last]) <==> DistinctNames(before) && last.name !in Names(before)
  {
    var after := before + [last];
    var n := |before|;
    assert after[n] == last;
    forall name | name in Names(before) + {last.name} ensures name in Names(after) {
      if name in Names(before) {
        var s :| s in before && s.name == name;
        assert s in after;
      } else {
        assert last in after;
      }
    }
    if last.name in Names(before) {
      var s :| s in before && s.name == last.name;
      var i :| 0 <= i < n && before[i] == s;
      assert after[i].name == after[n].name;
    } else if DistinctNames(before) {
      forall i, j | 0 <= i < j < |after| ensures after[i].name != after[j].name {
        assert after[i] == before[i] && before[i].name in Names(before);
      }
    } else {
      assert forall i :: 0 <= i < n ==> after[i] == before[i];
    }
  }

  /** A listener under a new token: the table is exact afterwards exactly when it was before and the
      name was free. */
  lemma StartOne(active: Table, spawned: set<Token>, cancelled: set<Token>, token: Token, serving: map<Token, Server>, server: Server)
    requires Coherent(active, spawned, cancelled, token, serving)
    ensures var active' := active[server.name := Listener(token, server)];
            && Coherent(active', spawned + {token}, cancelled, token + 1, serving[token := server])
            && (spawned + {token} - cancelled == Tokens(active') <==> spawned - cancelled == Tokens(active) && server.name !in active)
  {
    var name, active' := server.name, active[server.name := Listener(token, server)];
    forall n | n in active ensures active[n].token in spawned - cancelled && active[n].token != token {
      TokenListed(active, n);
    }
    TokenListed(active', name);
    forall t | t in Tokens(active) && (name in active ==> t != active[name].token) ensures t in Tokens(active') {
      var n :| n in active && active[n].token == t;
      TokenListed(active', n);
    }
    assert spawned + {token} - cancelled == (spawned - cancelled) + {token};
    if name in active {
      assert active[name].token !in Tokens(active');
    } else {
      assert Tokens(active') == Tokens(active) + {token};
      assert token !in Tokens(active);
    }
  }
}
