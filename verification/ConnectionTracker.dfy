/** Global and per-address connection permits (server/src/connection_tracker.rs).

    `Apply` is the protocol seen by unboundedly many concurrent actors: one step is one
    atomic operation on the counter or one critical section on a map entry. The class at the
    end is the same code run by one caller without interference. */
module ConnectionTracker {
  import opened Prelude
  import opened ClientIp

  datatype Limits = Limits(maxConnections: nat, maxPerIp: nat)

  type IpCounts = map<IpAddr, nat>

  datatype AcquireError =
    | GlobalLimitReached(current: int, max: nat)
    | IpLimitReached(ip: IpAddr, currentForIp: nat, maxForIp: nat)

  predicate IsCounted(ip: Option<IpAddr>) {
    ip.Some? && !IsUnspecified(ip.value)
  }

  function Canonical(ip: Option<IpAddr>): Option<IpAddr> {
    if ip.Some? then Some(CanonicalClientIp(ip.value)) else None
  }

  function CountOf(counts: IpCounts, ip: IpAddr): nat {
    if ip in counts then counts[ip] else 0
  }

  /** The critical section on `ip`'s entry in `acquire` and `bind_ip`: insert a zero if the
      entry is missing, then increment it unless it has reached the cap. */
  function EnterIp(counts: IpCounts, ip: IpAddr, cap: nat): (IpCounts, bool) {
    var current := CountOf(counts, ip);
    if current >= cap then (counts[ip := current], false) else (counts[ip := current + 1], true)
  }

  /** The critical section on `ip`'s entry in `release`. */
  function LeaveIp(counts: IpCounts, ip: IpAddr): IpCounts {
    if ip !in counts then counts
    else if counts[ip] <= 1 then counts - {ip}
    else counts[ip := counts[ip] - 1]
  }

  // ---------------------------------------------------------------- concurrent protocol

  /** Where an actor stands inside `acquire`, between calls, or inside `drop`. */
  datatype Phase =
    | Overshot                     // its increment met the global limit and is still to be undone
    | Passed(ip: IpAddr)           // under the global limit, per-address check still to come
    | Refused                      // over the per-address cap, its increment still to be undone
    | Live(bound: Option<IpAddr>)  // owns a guard
    | Leaving(ip: IpAddr)          // dropped: global count given back, address count not yet

  type Actors = map<nat, Phase>

  datatype State = State(current: int, counts: IpCounts, actors: Actors)

  datatype Step =
    | Acquire(id: nat, raw: Option<IpAddr>)
    | Advance(id: nat)
    | BindIp(id: nat, addr: IpAddr)
    | Drop(id: nat)

  /** One atomic step; a step whose actor is not in the right phase changes nothing. */
  function Apply(lim: Limits, s: State, step: Step): State {
    match step
    case Acquire(id, raw) => if id in s.actors then s else ApplyAcquire(lim, s, id, Canonical(raw))
    case Advance(id) => if id !in s.actors then s else ApplyAdvance(lim, s, id)
    case BindIp(id, addr) =>
      if id in s.actors && s.actors[id] == Live(None) && !IsUnspecified(CanonicalClientIp(addr))
      then ApplyBind(lim, s, id, CanonicalClientIp(addr)) else s
    case Drop(id) => if id in s.actors && s.actors[id].Live? then ApplyDrop(s, id, Canonical(s.actors[id].bound)) else s
  }

  function ApplyAcquire(lim: Limits, s: State, id: nat, ip: Option<IpAddr>): State {
    var phase :=
      if s.current >= lim.maxConnections then Overshot
      else if IsCounted(ip) then Passed(ip.value)
      else Live(ip);
    State(s.current + 1, s.counts, s.actors[id := phase])
  }

  function ApplyAdvance(lim: Limits, s: State, id: nat): State
    requires id in s.actors
  {
    match s.actors[id]
    case Overshot => State(s.current - 1, s.counts, s.actors - {id})
    case Refused => State(s.current - 1, s.counts, s.actors - {id})
    case Passed(ip) =>
      var (counts, ok) := EnterIp(s.counts, ip, lim.maxPerIp);
      State(s.current, counts, s.actors[id := if ok then Live(Some(ip)) else Refused])
    case Leaving(ip) => State(s.current, LeaveIp(s.counts, ip), s.actors - {id})
    case Live(_) => s
  }

  function ApplyBind(lim: Limits, s: State, id: nat, ip: IpAddr): State {
    var (counts, ok) := EnterIp(s.counts, ip, lim.maxPerIp);
    State(s.current, counts, if ok then s.actors[id := Live(Some(ip))] else s.actors)
  }

  function ApplyDrop(s: State, id: nat, ip: Option<IpAddr>): State {
    State(s.current - 1, s.counts,
          if IsCounted(ip) then s.actors[id := Leaving(ip.value)] else s.actors - {id})
  }

  const INIT := State(0, map[], map[])

  /** The state after a whole interleaving. */
  function Exec(lim: Limits, steps: seq<Step>): State {
    if |steps| == 0 then INIT
    else Apply(lim, Exec(lim, steps[..|steps| - 1]), steps[|steps| - 1])
  }

  /** Actors whose increment of the global counter stands. */
  function Holding(actors: Actors): set<nat> {
    set id | id in actors && !actors[id].Leaving?
  }

  /** Actors that passed the global check, guards included. */
  function Admitted(actors: Actors): set<nat> {
    set id | id in actors && !actors[id].Leaving? && !actors[id].Overshot?
  }

  /** Guards counted under `ip`: live ones, and dropped ones yet to give the count back. */
  function Under(actors: Actors, ip: IpAddr): set<nat> {
    set id | id in actors && (actors[id] == Live(Some(ip)) || actors[id] == Leaving(ip))
  }

  predicate Key(ip: IpAddr) {
    IsCanonical(ip) && !IsUnspecified(ip)
  }

  predicate PhaseOk(phase: Phase) {
    match phase
    case Passed(ip) => Key(ip)
    case Leaving(ip) => Key(ip)
    case Live(bound) => bound.Some? ==> IsCanonical(bound.value)
    case _ => true
  }

  ghost predicate CountsMatch(lim: Limits, counts: IpCounts, actors: Actors) {
    && (forall ip :: ip in counts ==> Key(ip) && counts[ip] <= lim.maxPerIp)
    && (forall ip :: ip in counts && lim.maxPerIp > 0 ==> counts[ip] > 0)
    && (forall ip :: Key(ip) ==> CountOf(counts, ip) == |Under(actors, ip)|)
  }

  /** What every reachable state satisfies. */
  ghost predicate Inv(lim: Limits, s: State) {
    && s.current == |Holding(s.actors)|
    && |Admitted(s.actors)| <= lim.maxConnections
    && CountsMatch(lim, s.counts, s.actors)
    && (forall id :: id in s.actors ==> PhaseOk(s.actors[id]))
  }

  lemma SetPhase(actors: Actors, id: nat, phase: Phase)
    ensures Holding(actors[id := phase]) == if phase.Leaving? then Holding(actors) - {id} else Holding(actors) + {id}
    ensures Admitted(actors[id := phase]) ==
            if phase.Leaving? || phase.Overshot? then Admitted(actors) - {id} else Admitted(actors) + {id}
    ensures Holding(actors - {id}) == Holding(actors) - {id}
    ensures Admitted(actors - {id}) == Admitted(actors) - {id}
    ensures Admitted(actors) <= Holding(actors)
  {
  }

  lemma SetUnder(actors: Actors, id: nat, phase: Phase, ip: IpAddr)
    ensures Under(actors[id := phase], ip) ==
            if phase == Live(Some(ip)) || phase == Leaving(ip) then Under(actors, ip) + {id} else Under(actors, ip) - {id}
    ensures Under(actors - {id}, ip) == Under(actors, ip) - {id}
  {
  }

  /** Moving an actor between phases that count under the same addresses keeps the counts. */
  lemma SameCounts(lim: Limits, counts: IpCounts, before: Actors, after: Actors)
    requires CountsMatch(lim, counts, before)
    requires forall ip :: Key(ip) ==> Under(after, ip) == Under(before, ip)
    ensures CountsMatch(lim, counts, after)
  {
  }

  lemma EnterCount(counts: IpCounts, actors: Actors, id: nat, ip: IpAddr, k: IpAddr)
    requires CountOf(counts, k) == |Under(actors, k)|
    requires id in actors && (actors[id] == Live(None) || actors[id] == Passed(ip))
    ensures CountOf(counts[ip := CountOf(counts, ip) + 1], k) == |Under(actors[id := Live(Some(ip))], k)|
  {
    SetUnder(actors, id, Live(Some(ip)), k);
    assert id !in Under(actors, k);
  }

  lemma EnterKeepsCounts(lim: Limits, counts: IpCounts, actors: Actors, id: nat, ip: IpAddr)
    requires CountsMatch(lim, counts, actors)
    requires Key(ip)
    requires id in actors && (actors[id] == Live(None) || actors[id] == Passed(ip))
    ensures var (after, ok) := EnterIp(counts, ip, lim.maxPerIp);
            CountsMatch(lim, after, if ok then actors[id := Live(Some(ip))] else actors)
  {
    hide Key, Under;
    var (after, ok) := EnterIp(counts, ip, lim.maxPerIp);
    if ok {
      var actors' := actors[id := Live(Some(ip))];
      forall k | Key(k) ensures CountOf(after, k) == |Under(actors', k)| {
        EnterCount(counts, actors, id, ip, k);
      }
    }
  }

  lemma LeaveCount(counts: IpCounts, actors: Actors, id: nat, ip: IpAddr, k: IpAddr)
    requires CountOf(counts, k) == |Under(actors, k)|
    requires id in actors && actors[id] == Leaving(ip)
    ensures CountOf(LeaveIp(counts, ip), k) == |Under(actors - {id}, k)|
    ensures k == ip ==> ip in counts
  {
    SetUnder(actors, id, Refused, k);
    if k == ip {
      assert id in Under(actors, k);
    } else {
      assert id !in Under(actors, k);
      assert Under(actors - {id}, k) == Under(actors, k);
    }
  }

  lemma LeaveKeepsCounts(lim: Limits, counts: IpCounts, actors: Actors, id: nat, ip: IpAddr)
    requires CountsMatch(lim, counts, actors)
    requires Key(ip)
    requires id in actors && actors[id] == Leaving(ip)
    ensures CountsMatch(lim, LeaveIp(counts, ip), actors - {id})
  {
    hide Key, Under;
    LeaveCount(counts, actors, id, ip, ip);
    forall k | Key(k) ensures CountOf(LeaveIp(counts, ip), k) == |Under(actors - {id}, k)| {
      LeaveCount(counts, actors, id, ip, k);
    }
  }

  /** A new actor takes one unit of the global counter and is not yet counted per address. */
  lemma AddActorKeepsInv(lim: Limits, s: State, id: nat, phase: Phase)
    requires Inv(lim, s) && id !in s.actors
    requires PhaseOk(phase) && !phase.Leaving?
    requires forall ip :: Key(ip) ==> phase != Live(Some(ip))
    requires !phase.Overshot? ==> s.current < lim.maxConnections
    ensures Inv(lim, State(s.current + 1, s.counts, s.actors[id := phase]))
  {
    SetPhase(s.actors, id, phase);
    forall k | Key(k) ensures Under(s.actors[id := phase], k) == Under(s.actors, k) {
      SetUnder(s.actors, id, phase, k);
    }
    SameCounts(lim, s.counts, s.actors, s.actors[id := phase]);
    SubsetSize(Admitted(s.actors), Holding(s.actors));
  }

  lemma AcquireKeepsInv(lim: Limits, s: State, id: nat, ip: Option<IpAddr>)
    requires Inv(lim, s) && id !in s.actors
    requires ip.Some? ==> IsCanonical(ip.value)
    ensures Inv(lim, ApplyAcquire(lim, s, id, ip))
  {
    AddActorKeepsInv(lim, s, id, ApplyAcquire(lim, s, id, ip).actors[id]);
  }

  lemma AdvanceKeepsInv(lim: Limits, s: State, id: nat)
    requires Inv(lim, s) && id in s.actors
    ensures Inv(lim, ApplyAdvance(lim, s, id))
  {
    match s.actors[id] {
      case Overshot => UndoKeepsInv(lim, s, id);
      case Refused => UndoKeepsInv(lim, s, id);
      case Passed(ip) => CheckIpKeepsInv(lim, s, id, ip);
      case Leaving(ip) => LeaveKeepsInv(lim, s, id, ip);
      case Live(_) =>
    }
  }

  lemma CheckIpKeepsInv(lim: Limits, s: State, id: nat, ip: IpAddr)
    requires Inv(lim, s) && id in s.actors && s.actors[id] == Passed(ip)
    ensures Inv(lim, ApplyAdvance(lim, s, id))
  {
    hide IsCanonical, IsUnspecified, CountsMatch;
    var s' := ApplyAdvance(lim, s, id);
    assert PhaseOk(s.actors[id]);
    SetPhase(s.actors, id, s'.actors[id]);
    assert Holding(s.actors) + {id} == Holding(s.actors);
    assert Admitted(s.actors) + {id} == Admitted(s.actors);
    EnterKeepsCounts(lim, s.counts, s.actors, id, ip);
    if s'.actors[id] == Refused {
      forall k | Key(k) ensures Under(s'.actors, k) == Under(s.actors, k) {
        SetUnder(s.actors, id, Refused, k);
      }
      SameCounts(lim, s'.counts, s.actors, s'.actors);
    }
  }

  lemma LeaveKeepsInv(lim: Limits, s: State, id: nat, ip: IpAddr)
    requires Inv(lim, s) && id in s.actors && s.actors[id] == Leaving(ip)
    ensures Inv(lim, ApplyAdvance(lim, s, id))
  {
    hide IsCanonical, IsUnspecified, CountsMatch;
    assert PhaseOk(s.actors[id]);
    SetPhase(s.actors, id, Refused);
    assert Holding(s.actors) - {id} == Holding(s.actors);
    assert Admitted(s.actors) - {id} == Admitted(s.actors);
    LeaveKeepsCounts(lim, s.counts, s.actors, id, ip);
  }

  lemma UndoKeepsInv(lim: Limits, s: State, id: nat)
    requires Inv(lim, s) && id in s.actors && (s.actors[id].Overshot? || s.actors[id].Refused?)
    ensures Inv(lim, State(s.current - 1, s.counts, s.actors - {id}))
  {
    assert id in Holding(s.actors);
    hide Key, CountsMatch, Holding, Admitted;
    SetPhase(s.actors, id, Refused);
    SubsetSize(Admitted(s.actors) - {id}, Admitted(s.actors));
    forall k ensures Under(s.actors - {id}, k) == Under(s.actors, k) {
      SetUnder(s.actors, id, Refused, k);
    }
    SameCounts(lim, s.counts, s.actors, s.actors - {id});
  }

  lemma BindKeepsInv(lim: Limits, s: State, id: nat, ip: IpAddr)
    requires Inv(lim, s) && id in s.actors && s.actors[id] == Live(None) && Key(ip)
    ensures Inv(lim, ApplyBind(lim, s, id, ip))
  {
    hide IsCanonical, IsUnspecified, CountsMatch;
    SetPhase(s.actors, id, Live(Some(ip)));
    assert Holding(s.actors) + {id} == Holding(s.actors);
    assert Admitted(s.actors) + {id} == Admitted(s.actors);
    EnterKeepsCounts(lim, s.counts, s.actors, id, ip);
  }

  lemma DropKeepsInv(lim: Limits, s: State, id: nat)
    requires Inv(lim, s) && id in s.actors && s.actors[id].Live?
    ensures Inv(lim, ApplyDrop(s, id, Canonical(s.actors[id].bound)))
  {
    var ip := Canonical(s.actors[id].bound);
    assert ip == s.actors[id].bound;
    var s' := ApplyDrop(s, id, ip);
    SetPhase(s.actors, id, if IsCounted(ip) then Leaving(ip.value) else Refused);
    assert id in Holding(s.actors) && id in Admitted(s.actors);
    SubsetSize(Admitted(s.actors) - {id}, Admitted(s.actors));
    forall k | Key(k) ensures Under(s'.actors, k) == Under(s.actors, k) {
      SetUnder(s.actors, id, if IsCounted(ip) then Leaving(ip.value) else Refused, k);
    }
    SameCounts(lim, s.counts, s.actors, s'.actors);
  }

  lemma StepKeepsInv(lim: Limits, s: State, step: Step)
    requires Inv(lim, s)
    ensures Inv(lim, Apply(lim, s, step))
  {
    match step {
      case Acquire(id, raw) =>
        if raw.Some? { CanonicalIsIdempotent(raw.value); }
        if id !in s.actors { AcquireKeepsInv(lim, s, id, Canonical(raw)); }
      case Advance(id) => if id in s.actors { AdvanceKeepsInv(lim, s, id); }
      case BindIp(id, addr) =>
        CanonicalIsIdempotent(addr);
        if id in s.actors && s.actors[id] == Live(None) && !IsUnspecified(CanonicalClientIp(addr)) {
          BindKeepsInv(lim, s, id, CanonicalClientIp(addr));
        }
      case Drop(id) => if id in s.actors && s.actors[id].Live? { DropKeepsInv(lim, s, id); }
    }
  }

  /** The invariant holds after every interleaving. */
  lemma {:induction false} EveryRunKeepsInv(lim: Limits, steps: seq<Step>)
    ensures Inv(lim, Exec(lim, steps))
  {
    if |steps| == 0 {
    } else {
      EveryRunKeepsInv(lim, steps[..|steps| - 1]);
      StepKeepsInv(lim, Exec(lim, steps[..|steps| - 1]), steps[|steps| - 1]);
    }
  }

  /** The actors owning a guard. */
  function Guards(actors: Actors): set<nat> {
    set id | id in actors && actors[id].Live?
  }

  /** Safety in every interleaving: the actors past the global check never exceed the limit;
      the counter never undercounts them; and every per-address entry is exactly the guards
      counted under it, at most the cap, and nonzero whenever the cap is positive. */
  lemma Safety(lim: Limits, steps: seq<Step>)
    ensures var s := Exec(lim, steps);
            && |Guards(s.actors)| <= |Admitted(s.actors)| <= lim.maxConnections
            && |Admitted(s.actors)| <= s.current
            && (forall ip :: ip in s.counts ==>
                  && Key(ip)
                  && s.counts[ip] == |Under(s.actors, ip)| <= lim.maxPerIp
                  && (lim.maxPerIp > 0 ==> s.counts[ip] > 0))
            && (forall ip :: Key(ip) && ip !in s.counts ==> Under(s.actors, ip) == {})
  {
    var s := Exec(lim, steps);
    EveryRunKeepsInv(lim, steps);
    SubsetSize(Guards(s.actors), Admitted(s.actors));
    SubsetSize(Admitted(s.actors), Holding(s.actors));
    forall ip | ip in s.counts ensures s.counts[ip] == |Under(s.actors, ip)| {
      assert Key(ip) && CountOf(s.counts, ip) == s.counts[ip];
    }
  }

  /** With no call in progress the counter is the number of guards and, under a positive cap,
      the table holds exactly the addresses with a live guard: no permit is ever leaked. */
  lemma Quiescent(lim: Limits, steps: seq<Step>)
    requires forall id :: id in Exec(lim, steps).actors ==> Exec(lim, steps).actors[id].Live?
    ensures var s := Exec(lim, steps);
            && s.current == |Guards(s.actors)|
            && (forall ip :: Key(ip) ==> CountOf(s.counts, ip) == |set id | id in s.actors && s.actors[id].bound == Some(ip)|)
            && (lim.maxPerIp > 0 ==> forall ip :: ip in s.counts ==> exists id :: id in s.actors && s.actors[id].bound == Some(ip))
            && (s.actors == map[] ==> s.current == 0 && (lim.maxPerIp > 0 ==> s.counts == map[]))
  {
    var s := Exec(lim, steps);
    EveryRunKeepsInv(lim, steps);
    assert Holding(s.actors) == Guards(s.actors);
    forall ip | Key(ip)
      ensures CountOf(s.counts, ip) == |set id | id in s.actors && s.actors[id].bound == Some(ip)|
    {
      assert Under(s.actors, ip) == set id | id in s.actors && s.actors[id].bound == Some(ip);
    }
    forall ip | ip in s.counts && lim.maxPerIp > 0
      ensures exists id :: id in s.actors && s.actors[id].bound == Some(ip)
    {
      assert Key(ip) && CountOf(s.counts, ip) > 0;
      assert Under(s.actors, ip) != {};
      var id :| id in Under(s.actors, ip);
    }
    if s.actors == map[] && lim.maxPerIp > 0 {
      forall ip ensures ip !in s.counts {
      }
    }
  }

  /** The steps of one actor's `acquire` when nobody interferes. */
  function AcquireAlone(lim: Limits, s: State, id: nat, raw: Option<IpAddr>): State {
    Apply(lim, Apply(lim, Apply(lim, s, Acquire(id, raw)), Advance(id)), Advance(id))
  }

  /** Run on its own, the protocol decides as the limits say: a guard exactly when both leave room,
      counted once globally and once under its address, and otherwise no trace in any count. */
  lemma AcquireAloneDecides(lim: Limits, s: State, id: nat, raw: Option<IpAddr>)
    requires id !in s.actors
    ensures var ip := Canonical(raw);
            var s' := AcquireAlone(lim, s, id, raw);
            var room := s.current < lim.maxConnections && (IsCounted(ip) ==> CountOf(s.counts, ip.value) < lim.maxPerIp);
            && s'.actors == (if room then s.actors[id := Live(ip)] else s.actors)
            && s'.current == (if room then s.current + 1 else s.current)
            && (forall k :: CountOf(s'.counts, k) == CountOf(s.counts, k) + if room && IsCounted(ip) && k == ip.value then 1 else 0)
  {
    var ip := Canonical(raw);
    hide Canonical, IsUnspecified, Exec;
    var s1 := Apply(lim, s, Acquire(id, raw));
    var phase := s1.actors[id];
    PutThenRemove(s.actors, id, phase);
    var s2 := Apply(lim, s1, Advance(id));
    match phase {
      case Overshot => assert s2 == State(s.current, s.counts, s.actors);
      case Live(_) =>
      case Passed(addr) =>
        var (counts, ok) := EnterIp(s.counts, addr, lim.maxPerIp);
        var after := if ok then Live(Some(addr)) else Refused;
        assert s1.actors[id := after] == s.actors[id := after];
        PutThenRemove(s.actors, id, after);
        assert s2 == State(s.current + 1, counts, s.actors[id := after]);
    }
  }

  /** Dropping a guard on its own gives back exactly what acquiring it took. */
  lemma DropUndoesAcquire(lim: Limits, s: State, id: nat, raw: Option<IpAddr>)
    requires id !in s.actors && id in AcquireAlone(lim, s, id, raw).actors
    ensures var s' := Apply(lim, Apply(lim, AcquireAlone(lim, s, id, raw), Drop(id)), Advance(id));
            s'.actors == s.actors && s'.current == s.current && forall k :: CountOf(s'.counts, k) == CountOf(s.counts, k)
  {
    var ip := Canonical(raw);
    if raw.Some? { CanonicalIsIdempotent(raw.value); }
    assert Canonical(ip) == ip;
    AcquireAloneDecides(lim, s, id, raw);
    var held := AcquireAlone(lim, s, id, raw);
    hide Canonical, CanonicalClientIp, IsUnspecified, Exec, AcquireAlone;
    PutThenRemove(s.actors, id, Live(ip));
    var dropped := Apply(lim, held, Drop(id));
    if IsCounted(ip) {
      assert dropped.actors == s.actors[id := Leaving(ip.value)];
      PutThenRemove(s.actors, id, Leaving(ip.value));
    }
  }

  /** Binding a late address, on its own: an unbound guard is bound and counted by one exactly when the
      canonical address is specified and below the cap; otherwise no count and no actor changes. */
  lemma BindAloneDecides(lim: Limits, s: State, id: nat, addr: IpAddr)
    requires id in s.actors && s.actors[id].Live?
    ensures var ip := CanonicalClientIp(addr);
            var s' := Apply(lim, s, BindIp(id, addr));
            var bound := s.actors[id] == Live(None) && !IsUnspecified(ip) && CountOf(s.counts, ip) < lim.maxPerIp;
            && s'.actors == (if bound then s.actors[id := Live(Some(ip))] else s.actors)
            && s'.current == s.current
            && (forall k :: CountOf(s'.counts, k) == CountOf(s.counts, k) + if bound && k == ip then 1 else 0)
  {
    hide CanonicalClientIp, IsUnspecified, Exec;
  }

  /** Dropping a guard that was bound late gives back its permit and the unit of its address. */
  lemma DropUndoesBind(lim: Limits, s: State, id: nat, addr: IpAddr)
    requires id in s.actors && s.actors[id] == Live(None) && id in Apply(lim, s, BindIp(id, addr)).actors
    ensures var bound := Apply(lim, s, BindIp(id, addr));
            var s' := Apply(lim, Apply(lim, bound, Drop(id)), Advance(id));
            && s'.actors == s.actors - {id} && s'.current == s.current - 1
            && forall k :: CountOf(s'.counts, k) == CountOf(s.counts, k)
  {
    CanonicalIsIdempotent(addr);
    var ip := CanonicalClientIp(addr);
    BindAloneDecides(lim, s, id, addr);
    var bound := Apply(lim, s, BindIp(id, addr));
    assert bound.actors[id].bound.Some? ==> Canonical(bound.actors[id].bound) == Some(ip);
    hide CanonicalClientIp, IsUnspecified, Exec;
    PutThenRemove(s.actors, id, Live(Some(ip)));
    PutThenRemove(s.actors, id, Leaving(ip));
    assert s.actors[id := Live(Some(ip))][id := Leaving(ip)] == s.actors[id := Leaving(ip)];
  }

  ghost predicate NoZeroEntry(counts: IpCounts) {
    forall ip :: ip in counts ==> counts[ip] > 0
  }

  /** `or_insert(0)` runs before the cap is compared, so a zero cap lets refused addresses pile
      up in the table. The table is free of empty entries in every run exactly when the
      per-address cap is positive or no connection can be admitted at all. */
  lemma NoZeroEntryIff(lim: Limits)
    ensures (forall steps: seq<Step> :: NoZeroEntry(Exec(lim, steps).counts)) <==>
            lim.maxPerIp > 0 || lim.maxConnections == 0
  {
    if lim.maxPerIp == 0 && lim.maxConnections > 0 {
      ZeroCapLeavesEntry(lim);
    } else {
      forall steps: seq<Step> ensures NoZeroEntry(Exec(lim, steps).counts) {
        EveryRunKeepsInv(lim, steps);
        if lim.maxPerIp == 0 { NothingAdmitted(lim, steps); }
      }
    }
  }

  lemma ZeroCapLeavesEntry(lim: Limits)
    requires lim.maxPerIp == 0 && lim.maxConnections > 0
    ensures exists steps: seq<Step> :: !NoZeroEntry(Exec(lim, steps).counts)
  {
    var ip := V4([10, 0, 0, 1]);
    var first := [Acquire(0, Some(ip))];
    var both := first + [Advance(0)];
    assert first[..0] == [];
    assert Exec(lim, first).actors == map[0 := Passed(ip)];
    assert both[..1] == first;
    assert Exec(lim, both) == Apply(lim, Exec(lim, first), Advance(0));
    assert ip in Exec(lim, both).counts;
  }

  lemma {:induction false} NothingAdmitted(lim: Limits, steps: seq<Step>)
    requires lim.maxConnections == 0
    ensures Exec(lim, steps).counts == map[]
    ensures Exec(lim, steps).current >= 0
    ensures forall id :: id in Exec(lim, steps).actors ==> Exec(lim, steps).actors[id] == Overshot
  {
    EveryRunKeepsInv(lim, steps);
    if |steps| == 0 {
    } else {
      NothingAdmitted(lim, steps[..|steps| - 1]);
    }
  }

  // ------------------------------------------------------------- calls run in isolation

  /** An acquired permit, and the address it is counted under. */
  datatype Guard = Guard(bound: Option<IpAddr>)

  class Tracker {
    const lim: Limits
    var current: int
    var counts: IpCounts

    constructor (lim: Limits)
      ensures this.lim == lim && current == 0 && counts == map[]
    {
      this.lim := lim;
      current := 0;
      counts := map[];
    }

    /** Succeeds exactly when both limits leave room; a refusal reports the count that was
        met and leaves every count as it found it. */
    method Acquire(raw: Option<IpAddr>) returns (r: Result<Guard, AcquireError>)
      modifies this
      ensures var ip := Canonical(raw);
              && r.Ok? == (old(current) < lim.maxConnections
                           && (IsCounted(ip) ==> CountOf(old(counts), ip.value) < lim.maxPerIp))
              && (r.Ok? ==> r.value == Guard(ip) && current == old(current) + 1)
              && (r.Err? ==> current == old(current))
              && (r.Err? ==> r.error == if old(current) >= lim.maxConnections
                    then GlobalLimitReached(old(current), lim.maxConnections)
                    else IpLimitReached(ip.value, CountOf(old(counts), ip.value), lim.maxPerIp))
              && (forall k :: CountOf(counts, k) ==
                    CountOf(old(counts), k) + if r.Ok? && IsCounted(ip) && k == ip.value then 1 else 0)
    {
      var ip := Canonical(raw);
      var before := current;
      current := current + 1;
      if before >= lim.maxConnections {
        current := current - 1;
        return Err(GlobalLimitReached(before, lim.maxConnections));
      }
      if IsCounted(ip) {
        var (entered, ok) := EnterIp(counts, ip.value, lim.maxPerIp);
        counts := entered;
        if !ok {
          current := current - 1;
          return Err(IpLimitReached(ip.value, counts[ip.value], lim.maxPerIp));
        }
      }
      r := Ok(Guard(ip));
    }

    /** Binds an address to a guard that has none yet; otherwise, or for an unspecified
        address, succeeds without counting anything. */
    method BindIp(guard: Guard, addr: IpAddr) returns (g: Guard, err: Option<AcquireError>)
      modifies this`counts
      ensures var ip := CanonicalClientIp(addr);
              var counted := guard.bound.None? && !IsUnspecified(ip);
              var full := CountOf(old(counts), ip) >= lim.maxPerIp;
              && g == (if counted && !full then Guard(Some(ip)) else guard)
              && err == (if counted && full then Some(IpLimitReached(ip, CountOf(old(counts), ip), lim.maxPerIp)) else None)
              && (forall k :: CountOf(counts, k) == CountOf(old(counts), k) + if counted && !full && k == ip then 1 else 0)
    {
      var ip := CanonicalClientIp(addr);
      if IsUnspecified(ip) || guard.bound.Some? {
        return guard, None;
      }
      var (entered, ok) := EnterIp(counts, ip, lim.maxPerIp);
      counts := entered;
      if !ok {
        return guard, Some(IpLimitReached(ip, counts[ip], lim.maxPerIp));
      }
      return Guard(Some(ip)), None;
    }

    /** Gives back what the guard holds: one permit and, if it is counted, one unit of its
        address, whose entry disappears when it reaches zero. */
    method Release(guard: Guard)
      modifies this
      ensures var ip := Canonical(guard.bound);
              && current == old(current) - 1
              && (!IsCounted(ip) ==> counts == old(counts))
              && (forall k :: CountOf(counts, k) ==
                    var was := CountOf(old(counts), k);
                    if IsCounted(ip) && k == ip.value && was > 0 then was - 1 else was)
              && (IsCounted(ip) ==> (ip.value in counts <==> CountOf(old(counts), ip.value) > 1))
    {
      current := current - 1;
      var ip := Canonical(guard.bound);
      if IsCounted(ip) {
        counts := LeaveIp(counts, ip.value);
      }
    }
  }
}
