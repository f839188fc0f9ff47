/** The relay's SNI routing table under concurrent control connections (relay-server/src/main.rs).
    A connection's task is cut at every operation on the shared table and on the generation
    counter; the pieces of unboundedly many tasks run in any order. */
module RelayRegistry {
  import opened Prelude

  type Sni = string

  /** Some DNS name of the client certificate is the requested one, ignoring case. */
  predicate Authorised(sans: seq<string>, sni: Sni) {
    exists i :: 0 <= i < |sans| && ToLower(sans[i]) == ToLower(sni)
  }

  datatype Route = Route(generation: nat)

  /** Where a control connection's task stands. */
  datatype Phase =
    | Cleared(sni: Sni)                       // authorised, and no healthy tunnel was seen
    | Numbered(sni: Sni, generation: nat)     // holds a generation, not yet in the table
    | Registered(sni: Sni, generation: nat)   // inserted, driver loop running or just left
    | Ended

  /** A connection, with the DNS names of its certificate. */
  datatype Connection = Connection(sans: seq<string>, phase: Phase)

  datatype State = State(tunnels: map<Sni, Route>, nextGeneration: nat, connections: map<nat, Connection>)

  datatype Step =
    | Clear(id: nat, sans: seq<string>, requested: string, healthy: bool)
    | Number(id: nat)
    | Insert(id: nat)
    | Remove(id: nat)

  const INIT := State(map[], 1, map[])

  function SetPhase(s: State, id: nat, phase: Phase): State
    requires id in s.connections
  {
    s.(connections := s.connections[id := s.connections[id].(phase := phase)])
  }

  /** One step; a step its connection is not at changes nothing. `healthy` says whether the tunnel
      found in the table, if any, still answers. */
  function Apply(s: State, step: Step): State {
    match step
    case Clear(id, sans, requested, healthy) =>
      var sni := ToLower(requested);
      if id in s.connections || !Authorised(sans, sni) || (sni in s.tunnels && healthy) then s
      else s.(connections := s.connections[id := Connection(sans, Cleared(sni))])
    case Number(id) =>
      if id in s.connections && s.connections[id].phase.Cleared? then
        SetPhase(s, id, Numbered(s.connections[id].phase.sni, s.nextGeneration)).(nextGeneration := s.nextGeneration + 1)
      else s
    case Insert(id) =>
      if id in s.connections && s.connections[id].phase.Numbered? then
        var p := s.connections[id].phase;
        SetPhase(s, id, Registered(p.sni, p.generation)).(tunnels := s.tunnels[p.sni := Route(p.generation)])
      else s
    case Remove(id) =>
      if id in s.connections && s.connections[id].phase.Registered? then
        var p := s.connections[id].phase;
        var kept := if p.sni in s.tunnels && s.tunnels[p.sni].generation == p.generation then s.tunnels - {p.sni} else s.tunnels;
        SetPhase(s, id, Ended).(tunnels := kept)
      else s
  }

  function Exec(steps: seq<Step>): State {
    if |steps| == 0 then INIT else Apply(Exec(steps[..|steps| - 1]), steps[|steps| - 1])
  }

  // -------------------------------------------------------------------------- invariant

  /** Connection `id` was given generation `g` and has not ended. */
  ghost predicate Holds(s: State, id: nat, g: nat) {
    && id in s.connections
    && (s.connections[id].phase.Numbered? || s.connections[id].phase.Registered?)
    && s.connections[id].phase.generation == g
  }

  /** Connection `id` has put the entry of `sni` in the table and not yet run its removal. */
  ghost predicate Owns(s: State, id: nat, sni: Sni, g: nat) {
    id in s.connections && s.connections[id].phase == Registered(sni, g)
  }

  ghost predicate Inv(s: State) {
    && (forall id :: id in s.connections ==> PhaseOk(s.connections[id]))
    && (forall id, g: nat :: Holds(s, id, g) ==> g < s.nextGeneration)
    && (forall a, b, g :: Holds(s, a, g) && Holds(s, b, g) ==> a == b)
    && (forall sni :: sni in s.tunnels ==> exists id :: Owns(s, id, sni, s.tunnels[sni].generation))
  }

  ghost predicate PhaseOk(c: Connection) {
    match c.phase
    case Cleared(sni) => Authorised(c.sans, sni)
    case Numbered(sni, _) => Authorised(c.sans, sni)
    case Registered(sni, _) => Authorised(c.sans, sni)
    case Ended => true
  }

  /** Connections other than `id` keep what they own and hold when only `id` moves. */
  lemma OwnersStay(s: State, s': State, id: nat)
    requires forall k :: k != id ==> (k in s.connections <==> k in s'.connections)
    requires forall k :: k != id && k in s.connections ==> s'.connections[k] == s.connections[k]
    ensures forall k, sni, g :: k != id && Owns(s, k, sni, g) ==> Owns(s', k, sni, g)
    ensures forall k, g :: k != id && Holds(s', k, g) ==> Holds(s, k, g)
  {
  }

  lemma ClearKeepsInv(s: State, step: Step)
    requires Inv(s) && step.Clear?
    ensures Inv(Apply(s, step))
  {
    hide Authorised;
    OwnersStay(s, Apply(s, step), step.id);
  }

  lemma NumberKeepsInv(s: State, id: nat)
    requires Inv(s)
    ensures Inv(Apply(s, Number(id)))
  {
    hide Authorised;
    OwnersStay(s, Apply(s, Number(id)), id);
  }

  lemma InsertKeepsInv(s: State, id: nat)
    requires Inv(s)
    ensures Inv(Apply(s, Insert(id)))
  {
    hide Authorised;
    var s' := Apply(s, Insert(id));
    OwnersStay(s, s', id);
    if s' != s {
      var p := s.connections[id].phase;
      assert Holds(s, id, p.generation) && forall g :: Holds(s', id, g) ==> g == p.generation;
      assert Owns(s', id, p.sni, p.generation);
      forall sni | sni in s'.tunnels ensures exists k :: Owns(s', k, sni, s'.tunnels[sni].generation) {
        if sni != p.sni {
          var k :| Owns(s, k, sni, s.tunnels[sni].generation);
          assert Owns(s', k, sni, s'.tunnels[sni].generation);
        }
      }
    }
  }

  lemma RemoveKeepsInv(s: State, id: nat)
    requires Inv(s)
    ensures Inv(Apply(s, Remove(id)))
  {
    hide Authorised;
    var s' := Apply(s, Remove(id));
    OwnersStay(s, s', id);
    if s' != s {
      var p := s.connections[id].phase;
      forall sni | sni in s'.tunnels ensures exists k :: Owns(s', k, sni, s'.tunnels[sni].generation) {
        var k :| Owns(s, k, sni, s.tunnels[sni].generation);
        assert Owns(s', k, sni, s'.tunnels[sni].generation);
      }
    }
  }

  lemma {:induction false} EveryRunKeepsInv(steps: seq<Step>)
    ensures Inv(Exec(steps))
  {
    if |steps| > 0 {
      hide Inv;
      var s, step := Exec(steps[..|steps| - 1]), steps[|steps| - 1];
      EveryRunKeepsInv(steps[..|steps| - 1]);
      match step {
        case Clear(_, _, _, _) => ClearKeepsInv(s, step);
        case Number(id) => NumberKeepsInv(s, id);
        case Insert(id) => InsertKeepsInv(s, id);
        case Remove(id) => RemoveKeepsInv(s, id);
      }
    } else {
      InitInv();
    }
  }

  lemma InitInv()
    ensures Inv(INIT)
  {
  }

  /** In every interleaving, every route belongs to exactly one connection: one that has not yet run
      its removal step and whose certificate names the SNI. */
  lemma RoutesAreOwned(steps: seq<Step>, sni: Sni)
    requires sni in Exec(steps).tunnels
    ensures var s := Exec(steps);
            exists id :: && Owns(s, id, sni, s.tunnels[sni].generation)
                         && Authorised(s.connections[id].sans, sni)
                         && forall other, name :: Owns(s, other, name, s.tunnels[sni].generation) ==> other == id
  {
    EveryRunKeepsInv(steps);
    hide Authorised;
    var s := Exec(steps);
    var g := s.tunnels[sni].generation;
    var id :| Owns(s, id, sni, g);
    assert PhaseOk(s.connections[id]);
    forall other, name | Owns(s, other, name, g) ensures other == id {
      assert Holds(s, other, g) && Holds(s, id, g);
    }
  }

  /** A connection's removal never deletes a route that another connection owns. */
  lemma RemovalSparesSuccessors(steps: seq<Step>, id: nat, other: nat, sni: Sni)
    requires var s := Exec(steps); other != id && sni in s.tunnels && Owns(s, other, sni, s.tunnels[sni].generation)
    ensures var s, s' := Exec(steps), Apply(Exec(steps), Remove(id));
            sni in s'.tunnels && s'.tunnels[sni] == s.tunnels[sni]
  {
    EveryRunKeepsInv(steps);
    hide Authorised;
    var s := Exec(steps);
    var g := s.tunnels[sni].generation;
    assert Holds(s, other, g);
    assert !Holds(s, id, g);
  }

  /** A connection that has run its removal step owns no route, and when all have, none is left. */
  lemma EndedLeavesNothing(steps: seq<Step>)
    requires forall id :: id in Exec(steps).connections ==> Exec(steps).connections[id].phase.Ended?
    ensures Exec(steps).tunnels == map[]
  {
    EveryRunKeepsInv(steps);
    var s := Exec(steps);
    assert forall id, sni, g :: !Owns(s, id, sni, g);
  }

  /** A request gets on exactly when some DNS name of the certificate is the requested one up to ASCII
      case and no healthy tunnel is found under it; otherwise nothing changes. */
  lemma ClearedIff(s: State, id: nat, sans: seq<string>, requested: string, healthy: bool)
    requires id !in s.connections
    ensures var sni := ToLower(requested);
            var s' := Apply(s, Clear(id, sans, requested, healthy));
            var named := exists i :: 0 <= i < |sans| && EqualIgnoringCase(sans[i], requested);
            && s'.tunnels == s.tunnels && s'.nextGeneration == s.nextGeneration
            && s'.connections == if named && !(sni in s.tunnels && healthy) then s.connections[id := Connection(sans, Cleared(sni))] else s.connections
  {
    var sni := ToLower(requested);
    LowerTwice(requested);
    forall i | 0 <= i < |sans| ensures ToLower(sans[i]) == ToLower(sni) <==> EqualIgnoringCase(sans[i], requested) {
      LowerEqual(sans[i], requested);
    }
    hide ToLower, EqualIgnoringCase;
  }

  lemma LowerTwice(s: string)
    ensures ToLower(ToLower(s)) == ToLower(s)
  {
    forall i | 0 <= i < |s| ensures LowerChar(LowerChar(s[i])) == LowerChar(s[i]) {
      CaseFolds(s[i], LowerChar(s[i]));
    }
    assert forall i :: 0 <= i < |s| ==> ToLower(ToLower(s))[i] == ToLower(s)[i];
  }

  /** Undisturbed, an authorised request that meets no healthy tunnel is routed to its connection
      under a generation never used before, and its removal takes exactly that route away. */
  lemma RegisterAlone(s: State, id: nat, sans: seq<string>, requested: string)
    requires id !in s.connections && Authorised(sans, ToLower(requested))
    ensures var sni := ToLower(requested);
            var cleared := Apply(s, Clear(id, sans, requested, false));
            var up := Apply(Apply(cleared, Number(id)), Insert(id));
            && Owns(up, id, sni, s.nextGeneration)
            && up.tunnels == s.tunnels[sni := Route(s.nextGeneration)] && up.nextGeneration == s.nextGeneration + 1
            && Apply(up, Remove(id)).tunnels == s.tunnels - {sni}
  {
    hide Authorised;
    var sni := ToLower(requested);
    assert s.tunnels[sni := Route(s.nextGeneration)] - {sni} == s.tunnels - {sni};
  }
}
