/** The three-state circuit breaker of one upstream node (server/src/configuration.rs) and the guard
    of its recovery probe (server/src/middleware/router/circuit_breaker.rs). A call is one step;
    clock readings are whole seconds. */
module CircuitBreaker {

  datatype CircuitState = Closed | Open | HalfOpen

  datatype Node = Node(alive: bool, lastFailure: nat, failures: nat, circuit: CircuitState,
                       probing: bool, totalFailures: nat, trips: nat)

  const NEW_NODE := Node(true, 0, 0, Closed, false, 0, 0)

  function Max(a: nat, b: nat): nat {
    if a >= b then a else b
  }

  function MarkDead(n: Node, now: nat): Node {
    Node(false, now, n.failures, Open, false, n.totalFailures + 1,
         n.trips + if n.alive || n.circuit != Open then 1 else 0)
  }

  function MarkAlive(n: Node): Node {
    n.(alive := true, lastFailure := 0, failures := 0, circuit := Closed, probing := false)
  }

  function RecordSuccess(n: Node): Node {
    if !n.alive || n.failures > 0 then MarkAlive(n) else n
  }

  /** Whether a failure trips the breaker. */
  predicate Trips(n: Node, threshold: nat) {
    n.probing || n.circuit == HalfOpen || n.failures + 1 >= Max(threshold, 1)
  }

  function RecordFailure(n: Node, threshold: nat, now: nat): Node {
    var counted := n.(failures := n.failures + 1, probing := false);
    if Trips(n, threshold) then MarkDead(counted, now) else counted.(totalFailures := n.totalFailures + 1)
  }

  predicate ProbeWouldSucceed(n: Node, cooldown: nat, now: nat) {
    !n.alive && n.lastFailure != 0 && now > n.lastFailure + cooldown && !n.probing
  }

  function TryProbe(n: Node, cooldown: nat, now: nat): Node {
    if ProbeWouldSucceed(n, cooldown, now) then n.(probing := true, circuit := HalfOpen) else n
  }

  /** A probe guard dropped without a verdict. */
  function DropProbe(n: Node): Node {
    n.(probing := false, circuit := Open)
  }

  class UpstreamNode {
    var isAlive: bool
    var lastFailureTime: nat
    var consecutiveFailures: nat
    var circuitState: CircuitState
    var halfOpenProbeInFlight: bool
    var totalFailures: nat
    var circuitTrips: nat

    function Value(): Node
      reads this
    {
      Node(isAlive, lastFailureTime, consecutiveFailures, circuitState, halfOpenProbeInFlight, totalFailures, circuitTrips)
    }

    constructor ()
      ensures Value() == NEW_NODE
    {
      isAlive, lastFailureTime, consecutiveFailures := true, 0, 0;
      circuitState, halfOpenProbeInFlight := Closed, false;
      totalFailures, circuitTrips := 0, 0;
    }

    method Dead(now: nat)
      modifies this
      ensures Value() == MarkDead(old(Value()), now)
    {
      totalFailures := totalFailures + 1;
      var wasAlive := isAlive;
      isAlive := false;
      var prevState := circuitState;
      circuitState := Open;
      halfOpenProbeInFlight := false;
      lastFailureTime := now;
      if wasAlive || prevState != Open {
        circuitTrips := circuitTrips + 1;
      }
    }

    method Alive()
      modifies this
      ensures Value() == MarkAlive(old(Value()))
    {
      consecutiveFailures := 0;
      halfOpenProbeInFlight := false;
      circuitState := Closed;
      isAlive := true;
      lastFailureTime := 0;
    }

    method Success()
      modifies this
      ensures Value() == RecordSuccess(old(Value()))
    {
      if !isAlive || consecutiveFailures > 0 {
        Alive();
      }
    }

    method Failure(threshold: nat, now: nat) returns (tripped: bool)
      modifies this
      ensures Value() == RecordFailure(old(Value()), threshold, now)
      ensures tripped == Trips(old(Value()), threshold)
    {
      consecutiveFailures := consecutiveFailures + 1;
      var failures := consecutiveFailures;
      var wasProbe := halfOpenProbeInFlight || circuitState == HalfOpen;
      halfOpenProbeInFlight := false;
      if wasProbe || failures >= Max(threshold, 1) {
        Dead(now);
        return true;
      }
      totalFailures := totalFailures + 1;
      return false;
    }

    method TryEnterHalfOpenProbe(cooldown: nat, now: nat) returns (claimed: bool)
      modifies this
      ensures Value() == TryProbe(old(Value()), cooldown, now)
      ensures claimed == ProbeWouldSucceed(old(Value()), cooldown, now)
    {
      if isAlive { return false; }
      if lastFailureTime == 0 { return false; }
      if now <= lastFailureTime + cooldown { return false; }
      if halfOpenProbeInFlight { return false; }
      halfOpenProbeInFlight := true;
      circuitState := HalfOpen;
      return true;
    }

    /** A node is offered for routing exactly when it is alive or a probe claim would win now. */
    method IsAvailable(cooldown: nat, now: nat) returns (r: bool)
      ensures r <==> isAlive || ProbeWouldSucceed(Value(), cooldown, now)
    {
      if isAlive { return true; }
      if halfOpenProbeInFlight { return false; }
      if lastFailureTime == 0 { return false; }
      return now > lastFailureTime + cooldown;
    }
  }

  // -------------------------------------------------------------------------------- runs

  datatype Call =
    | DeadCall(now: nat)
    | AliveCall
    | SuccessCall
    | FailureCall(now: nat)
    | ProbeCall(now: nat)
    | DropCall

  datatype Config = Config(threshold: nat, cooldown: nat)

  function Step(cfg: Config, n: Node, call: Call): Node {
    match call
    case DeadCall(now) => MarkDead(n, now)
    case AliveCall => MarkAlive(n)
    case SuccessCall => RecordSuccess(n)
    case FailureCall(now) => RecordFailure(n, cfg.threshold, now)
    case ProbeCall(now) => TryProbe(n, cfg.cooldown, now)
    case DropCall => DropProbe(n)
  }

  function Run(cfg: Config, calls: seq<Call>): Node {
    if |calls| == 0 then NEW_NODE
    else Step(cfg, Run(cfg, calls[..|calls| - 1]), calls[|calls| - 1])
  }

  /** Failures recorded since the last success or mark_alive. */
  function FailuresSinceReset(calls: seq<Call>): nat {
    if |calls| == 0 then 0
    else match calls[|calls| - 1]
      case AliveCall => 0
      case SuccessCall => 0
      case FailureCall(_) => FailuresSinceReset(calls[..|calls| - 1]) + 1
      case _ => FailuresSinceReset(calls[..|calls| - 1])
  }

  /** Whether the node was marked dead since the last success or mark_alive. */
  predicate DeadSinceReset(calls: seq<Call>) {
    |calls| > 0 &&
    match calls[|calls| - 1]
    case AliveCall => false
    case SuccessCall => false
    case DeadCall(_) => true
    case _ => DeadSinceReset(calls[..|calls| - 1])
  }

  /** In every run: a node is alive exactly when, since its last success or mark_alive, it was not
      marked dead and fewer than `max(threshold, 1)` failures were recorded; the probe flag is
      up exactly in HalfOpen; and a live node is never probed. */
  lemma {:induction false} AliveIff(cfg: Config, calls: seq<Call>)
    ensures var n := Run(cfg, calls);
            && n.failures == FailuresSinceReset(calls)
            && (n.alive <==> !DeadSinceReset(calls) && FailuresSinceReset(calls) < Max(cfg.threshold, 1))
            && (n.probing <==> n.circuit == HalfOpen)
            && (n.alive ==> !n.probing)
            && (n.circuit == Closed ==> n.alive)
  {
    if |calls| == 0 {
    } else {
      AliveIff(cfg, calls[..|calls| - 1]);
    }
  }

  /** Whether a probe guard was dropped since the call that last moved the node to alive. */
  predicate DroppedWhileAlive(cfg: Config, calls: seq<Call>) {
    |calls| > 0 &&
    var before := Run(cfg, calls[..|calls| - 1]);
    var after := Run(cfg, calls);
    match calls[|calls| - 1]
    case AliveCall => false
    case SuccessCall => before.alive && FailuresSinceReset(calls[..|calls| - 1]) == 0 && DroppedWhileAlive(cfg, calls[..|calls| - 1])
    case DropCall => after.alive
    case _ => after.alive && DroppedWhileAlive(cfg, calls[..|calls| - 1])
  }

  /** A live node is Closed unless a probe guard outlived the recovery it was probing for: its drop
      reopens the circuit without marking the node dead. */
  lemma {:induction false} AliveIffClosedUnlessDropped(cfg: Config, calls: seq<Call>)
    ensures var n := Run(cfg, calls);
            && ((n.alive <==> n.circuit == Closed) <==> !DroppedWhileAlive(cfg, calls))
            && (DroppedWhileAlive(cfg, calls) ==> n.alive && n.circuit == Open)
  {
    AliveIff(cfg, calls);
    if |calls| == 0 {
    } else {
      AliveIffClosedUnlessDropped(cfg, calls[..|calls| - 1]);
      AliveIff(cfg, calls[..|calls| - 1]);
    }
  }

  /** Such a run: a probe is claimed, a health check revives the node, and then the
      probing request is abandoned. */
  lemma LateDropReopens(cfg: Config)
    ensures var n := Run(cfg, [DeadCall(1), ProbeCall(cfg.cooldown + 2), AliveCall, DropCall]);
            n.alive && n.circuit == Open
  {
    var calls := [DeadCall(1), ProbeCall(cfg.cooldown + 2), AliveCall, DropCall];
    assert calls[..3] == [DeadCall(1), ProbeCall(cfg.cooldown + 2), AliveCall];
    assert Run(cfg, calls[..3]).alive;
  }

  // ------------------------------------------------------------------------ trip counter

  /** Calls that moved the circuit into Open. */
  function Openings(cfg: Config, calls: seq<Call>): nat {
    if |calls| == 0 then 0
    else
      var init := calls[..|calls| - 1];
      Openings(cfg, init) + if Run(cfg, init).circuit != Open && Run(cfg, calls).circuit == Open then 1 else 0
  }

  /** Openings done by dropping a probe guard; the counter does not see them. */
  function DropOpenings(cfg: Config, calls: seq<Call>): nat {
    if |calls| == 0 then 0
    else
      var init := calls[..|calls| - 1];
      DropOpenings(cfg, init) + if calls[|calls| - 1].DropCall? && Run(cfg, init).circuit != Open then 1 else 0
  }

  /** Deaths of a live node whose circuit a late drop had already opened. */
  function DeathsWhileOpen(cfg: Config, calls: seq<Call>): nat {
    if |calls| == 0 then 0
    else
      var init := calls[..|calls| - 1];
      var n := Run(cfg, init);
      DeathsWhileOpen(cfg, init) + if n.alive && n.circuit == Open && !Run(cfg, calls).alive then 1 else 0
  }

  /** The trip counter is conserved: it is the number of openings, less those by dropped guards,
      plus the deaths those openings hid. */
  lemma {:induction false} TripsConserved(cfg: Config, calls: seq<Call>)
    ensures Run(cfg, calls).trips + DropOpenings(cfg, calls) == Openings(cfg, calls) + DeathsWhileOpen(cfg, calls)
    ensures Run(cfg, calls).trips == Openings(cfg, calls) <==> DropOpenings(cfg, calls) == DeathsWhileOpen(cfg, calls)
  {
    if |calls| == 0 {
    } else {
      var init := calls[..|calls| - 1];
      TripsConserved(cfg, init);
      AliveIff(cfg, init);
      AliveIff(cfg, calls);
    }
  }

  /** A run in which the counter misses an opening: one abandoned probe is enough. */
  lemma AbandonedProbeUncounted(cfg: Config)
    ensures var calls := [DeadCall(1), ProbeCall(cfg.cooldown + 2), DropCall];
            Run(cfg, calls).trips == 1 && Openings(cfg, calls) == 2
  {
    var calls := [DeadCall(1), ProbeCall(cfg.cooldown + 2), DropCall];
    assert calls[..2] == [DeadCall(1), ProbeCall(cfg.cooldown + 2)];
    assert calls[..2][..1] == [DeadCall(1)] && calls[..2][..1][..0] == [];
    assert Run(cfg, calls[..2][..1]) == Node(false, 1, 0, Open, false, 1, 1);
    assert Openings(cfg, calls[..2][..1]) == 1;
    assert Openings(cfg, calls[..2]) == 1;
  }

  /** Without abandoned probes the counter is exactly the number of transitions into Open, and alive
      means Closed. */
  lemma {:induction false} NoDropsExact(cfg: Config, calls: seq<Call>)
    requires forall i :: 0 <= i < |calls| ==> !calls[i].DropCall?
    ensures Run(cfg, calls).trips == Openings(cfg, calls)
    ensures Run(cfg, calls).alive <==> Run(cfg, calls).circuit == Closed
  {
    if |calls| == 0 {
    } else {
      NoDropsExact(cfg, calls[..|calls| - 1]);
      AliveIff(cfg, calls[..|calls| - 1]);
    }
  }

  // -------------------------------------------------------------------------------- probes

  /** When the node last died, zero once it has come back. */
  function DeathTime(cfg: Config, calls: seq<Call>): nat {
    if |calls| == 0 then 0
    else
      var init := calls[..|calls| - 1];
      match calls[|calls| - 1]
      case AliveCall => 0
      case SuccessCall => 0
      case DeadCall(now) => now
      case FailureCall(now) =>
        if Run(cfg, init).probing || FailuresSinceReset(calls) >= Max(cfg.threshold, 1) then now else DeathTime(cfg, init)
      case _ => DeathTime(cfg, init)
  }

  /** In every run the failure time is that of the last death: a failure of a probe, or one that
      reaches the threshold, moves it, and no other failure does. */
  lemma {:induction false} FailureTimeIs(cfg: Config, calls: seq<Call>)
    ensures Run(cfg, calls).lastFailure == DeathTime(cfg, calls)
    ensures Run(cfg, calls).alive ==> DeathTime(cfg, calls) == 0
  {
    AliveIff(cfg, calls);
    if |calls| == 0 {
    } else {
      FailureTimeIs(cfg, calls[..|calls| - 1]);
      AliveIff(cfg, calls[..|calls| - 1]);
    }
  }

  /** A failure is reported as a trip exactly when the probe flag was up or it reaches the threshold. */
  lemma TripsIff(cfg: Config, calls: seq<Call>)
    ensures Trips(Run(cfg, calls), cfg.threshold) <==>
            Run(cfg, calls).probing || FailuresSinceReset(calls) + 1 >= Max(cfg.threshold, 1)
  {
    AliveIff(cfg, calls);
  }

  /** A failed probe kills the node at that moment, whatever the threshold. */
  lemma FailedProbeDies(cfg: Config, calls: seq<Call>, now: nat)
    requires Run(cfg, calls).probing
    ensures var n := Run(cfg, calls + [FailureCall(now)]);
            !n.alive && n.lastFailure == now && n.circuit == Open && !n.probing
  {
    var all := calls + [FailureCall(now)];
    assert all[..|calls|] == calls;
    AliveIff(cfg, calls);
    AliveIff(cfg, all);
    FailureTimeIs(cfg, all);
  }

  /** A success on a live node with no failure since its last reset changes nothing, even where a late
      drop has left the circuit open. */
  lemma IdleSuccess(cfg: Config, calls: seq<Call>)
    requires FailuresSinceReset(calls) == 0 && !DeadSinceReset(calls)
    ensures Run(cfg, calls + [SuccessCall]) == Run(cfg, calls)
  {
    AliveIff(cfg, calls);
    assert (calls + [SuccessCall])[..|calls|] == calls;
  }

  /** A claim wins exactly on a node that history has left dead and unprobed, more than the cooldown
      after its death. */
  lemma ClaimWinsIff(cfg: Config, calls: seq<Call>, now: nat)
    ensures ProbeWouldSucceed(Run(cfg, calls), cfg.cooldown, now) <==>
            && (DeadSinceReset(calls) || FailuresSinceReset(calls) >= Max(cfg.threshold, 1))
            && !Run(cfg, calls).probing
            && DeathTime(cfg, calls) != 0 && now > DeathTime(cfg, calls) + cfg.cooldown
    ensures ProbeWouldSucceed(Run(cfg, calls), cfg.cooldown, now) ==> Run(cfg, calls + [ProbeCall(now)]).probing
  {
    AliveIff(cfg, calls);
    FailureTimeIs(cfg, calls);
    assert (calls + [ProbeCall(now)])[..|calls|] == calls;
  }

  /** Failures and marks of a run. */
  function FailuresEver(calls: seq<Call>): nat {
    if |calls| == 0 then 0
    else FailuresEver(calls[..|calls| - 1]) + if calls[|calls| - 1].DeadCall? || calls[|calls| - 1].FailureCall? then 1 else 0
  }

  /** The failure counter counts each of them once. */
  lemma {:induction false} FailuresCounted(cfg: Config, calls: seq<Call>)
    ensures Run(cfg, calls).totalFailures == FailuresEver(calls)
  {
    if |calls| == 0 {
    } else {
      FailuresCounted(cfg, calls[..|calls| - 1]);
    }
  }

  /** Whether the `i`-th call is a probe claim that wins. */
  predicate Claims(cfg: Config, calls: seq<Call>, i: nat)
    requires i < |calls|
  {
    calls[i].ProbeCall? && ProbeWouldSucceed(Run(cfg, calls[..i]), cfg.cooldown, calls[i].now)
  }

  /** As long as only claims are made, a claimed node stays claimed. */
  lemma {:induction false} StaysClaimed(cfg: Config, calls: seq<Call>, i: nat, j: nat)
    requires i < j <= |calls| && Claims(cfg, calls, i)
    requires forall k :: i < k < j ==> calls[k].ProbeCall?
    ensures Run(cfg, calls[..j]).probing
    decreases j
  {
    assert calls[..j][..j - 1] == calls[..j - 1];
    if i == j - 1 {
    } else {
      StaysClaimed(cfg, calls, i, j - 1);
    }
  }

  /** The probe flag excludes: between two winning claims some call lowers it. Which calls may, and
      what that means for the guards, is the subject of ProbeGuards. */
  lemma ReleaseBetweenClaims(cfg: Config, calls: seq<Call>, i: nat, j: nat)
    requires i < j < |calls| && Claims(cfg, calls, i) && Claims(cfg, calls, j)
    ensures exists k :: i < k < j && !calls[k].ProbeCall?
  {
    if forall k :: i < k < j ==> calls[k].ProbeCall? {
      StaysClaimed(cfg, calls, i, j);
    }
  }

  /** Whether call `k` records a failure that trips the breaker, or marks the node dead. */
  predicate TripsAt(cfg: Config, calls: seq<Call>, k: nat)
    requires k < |calls|
  {
    calls[k].DeadCall? || (calls[k].FailureCall? && Trips(Run(cfg, calls[..k]), cfg.threshold))
  }

  ghost predicate ClockOrdered(calls: seq<Call>) {
    forall i, j :: 0 <= i <= j < |calls| && HasTime(calls[i]) && HasTime(calls[j]) ==> calls[i].now <= calls[j].now
  }

  predicate HasTime(call: Call) {
    call.DeadCall? || call.FailureCall? || call.ProbeCall?
  }

  /** While the node is dead, its failure time is no earlier than any trip. */
  lemma {:induction false} FailureTimeIsLatest(cfg: Config, calls: seq<Call>, k: nat, j: nat)
    requires ClockOrdered(calls) && k < j <= |calls| && TripsAt(cfg, calls, k) && HasTime(calls[k])
    ensures Run(cfg, calls[..j]).alive || Run(cfg, calls[..j]).lastFailure >= calls[k].now
    decreases j
  {
    assert calls[..j][..j - 1] == calls[..j - 1];
    if k == j - 1 {
    } else {
      FailureTimeIsLatest(cfg, calls, k, j - 1);
      AliveIff(cfg, calls[..j - 1]);
      AliveIff(cfg, calls[..j]);
    }
  }

  /** A winning claim comes more than `cooldown` seconds after every earlier trip. */
  lemma ClaimAfterCooldown(cfg: Config, calls: seq<Call>, k: nat, j: nat)
    requires ClockOrdered(calls) && k < j < |calls| && TripsAt(cfg, calls, k) && Claims(cfg, calls, j)
    ensures calls[j].now > calls[k].now + cfg.cooldown
  {
    FailureTimeIsLatest(cfg, calls, k, j);
  }

  /** A winning claim comes more than `cooldown` seconds after every earlier failed probe, for every
      threshold. */
  lemma ClaimAfterFailedProbe(cfg: Config, calls: seq<Call>, k: nat, j: nat)
    requires ClockOrdered(calls) && k < j < |calls| && calls[k].FailureCall? && Run(cfg, calls[..k]).probing && Claims(cfg, calls, j)
    ensures calls[j].now > calls[k].now + cfg.cooldown
  {
    TripsIff(cfg, calls[..k]);
    ClaimAfterCooldown(cfg, calls, k, j);
  }

  ghost predicate ClaimsAwaitAllFailures(cfg: Config) {
    forall calls: seq<Call>, k, j ::
      ClockOrdered(calls) && 0 <= k < j < |calls| && calls[k].FailureCall? && Claims(cfg, calls, j) ==>
        calls[j].now > calls[k].now + cfg.cooldown
  }

  /** A failure recorded on a dead node below the threshold does not restart the cooldown. Claims
      come more than `cooldown` after every recorded failure exactly when the threshold is at
      most one. */
  lemma CooldownRestartsIff(cfg: Config)
    ensures ClaimsAwaitAllFailures(cfg) <==> cfg.threshold <= 1
  {
    if cfg.threshold <= 1 {
      forall calls: seq<Call>, k, j |
        ClockOrdered(calls) && 0 <= k < j < |calls| && calls[k].FailureCall? && Claims(cfg, calls, j)
        ensures calls[j].now > calls[k].now + cfg.cooldown
      {
        ClaimAfterCooldown(cfg, calls, k, j);
      }
    } else {
      var late := cfg.cooldown + 2;
      var calls := [DeadCall(1), FailureCall(late), ProbeCall(late)];
      assert calls[..2][..1] == calls[..1] && calls[..1][..0] == [];
      assert Run(cfg, calls[..1]) == Node(false, 1, 0, Open, false, 1, 1);
      assert Claims(cfg, calls, 2);
      assert ClockOrdered(calls);
    }
  }
}
