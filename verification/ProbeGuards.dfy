/** Recovery probes with their guards (server/src/middleware/router/circuit_breaker.rs): which
    requests hold a probe guard on a node, and who else touches the node meanwhile. */
module ProbeGuards {
  import opened Prelude
  import opened CircuitBreaker

  /** What is reported about a node: the outcome of a request, a health check or an operator's
      command. */
  datatype Verdict = Succeeded | Failed(now: nat) | Died(now: nat) | Revived

  datatype Step =
    | Arrive(g: nat, now: nat)           // a request makes guard `g` and tries to claim the probe
    | Report(g: nat, verdict: Verdict)   // the request of `g` gets a verdict and completes its guard
    | Abandon(g: nat)                    // guard `g` is dropped without a verdict
    | Outside(verdict: Verdict)          // health checks, the admin endpoint, unguarded requests

  /** The node, and the guards still out: whether each of them won the probe. */
  datatype State = State(node: Node, guards: map<nat, bool>)

  const INIT := State(NEW_NODE, map[])

  function CallOf(verdict: Verdict): Call {
    match verdict
    case Succeeded => SuccessCall
    case Failed(now) => FailureCall(now)
    case Died(now) => DeadCall(now)
    case Revived => AliveCall
  }

  /** The breaker calls a step makes on the node, one or none. */
  function CallsOf(s: State, step: Step): seq<Call> {
    match step
    case Arrive(g, now) => if g in s.guards then [] else [ProbeCall(now)]
    case Report(g, verdict) => if g in s.guards then [CallOf(verdict)] else []
    case Abandon(g) => if g in s.guards && s.guards[g] then [DropCall] else []
    case Outside(verdict) => [CallOf(verdict)]
  }

  function GuardsAfter(cfg: Config, s: State, step: Step): map<nat, bool> {
    match step
    case Arrive(g, now) =>
      if g in s.guards then s.guards else s.guards[g := ProbeWouldSucceed(s.node, cfg.cooldown, now)]
    case Report(g, _) => s.guards - {g}
    case Abandon(g) => s.guards - {g}
    case Outside(_) => s.guards
  }

  /** One step; a step of a guard that is not out, or is out already, changes nothing. */
  function Apply(cfg: Config, s: State, step: Step): State {
    var calls := CallsOf(s, step);
    State(if calls == [] then s.node else CircuitBreaker.Step(cfg, s.node, calls[0]), GuardsAfter(cfg, s, step))
  }

  function ExecFrom(cfg: Config, s: State, steps: seq<Step>): State {
    if |steps| == 0 then s
    else Apply(cfg, ExecFrom(cfg, s, steps[..|steps| - 1]), steps[|steps| - 1])
  }

  function Exec(cfg: Config, steps: seq<Step>): State {
    ExecFrom(cfg, INIT, steps)
  }

  /** The breaker calls of a whole run. */
  function AllCalls(cfg: Config, steps: seq<Step>): seq<Call> {
    if |steps| == 0 then []
    else
      var init := steps[..|steps| - 1];
      AllCalls(cfg, init) + CallsOf(Exec(cfg, init), steps[|steps| - 1])
  }

  /** Seen from the node, a run with guards is a run of breaker calls, so the laws of those hold. */
  lemma {:induction false} NodeRuns(cfg: Config, steps: seq<Step>)
    ensures Exec(cfg, steps).node == Run(cfg, AllCalls(cfg, steps))
  {
    if |steps| == 0 {
    } else {
      var init := steps[..|steps| - 1];
      NodeRuns(cfg, init);
      var calls := CallsOf(Exec(cfg, init), steps[|steps| - 1]);
      if calls == [] {
        assert AllCalls(cfg, steps) == AllCalls(cfg, init);
      } else {
        assert AllCalls(cfg, steps)[..|AllCalls(cfg, init)|] == AllCalls(cfg, init);
      }
    }
  }

  /** A verdict is recorded as what it is, whoever reports it. */
  lemma VerdictsRecorded(cfg: Config, s: State, g: nat, now: nat)
    requires g in s.guards
    ensures Apply(cfg, s, Report(g, Succeeded)).node == RecordSuccess(s.node) == Apply(cfg, s, Outside(Succeeded)).node
    ensures Apply(cfg, s, Report(g, Failed(now))).node == RecordFailure(s.node, cfg.threshold, now) == Apply(cfg, s, Outside(Failed(now))).node
    ensures Apply(cfg, s, Report(g, Died(now))).node == MarkDead(s.node, now) == Apply(cfg, s, Outside(Died(now))).node
    ensures Apply(cfg, s, Outside(Revived)).node == MarkAlive(s.node)
    ensures Apply(cfg, s, Report(g, Succeeded)).guards == Apply(cfg, s, Abandon(g)).guards == s.guards - {g}
  {
  }

  // ---------------------------------------------------------------------- probes in flight

  /** The unfinished guards that won the probe. */
  function Probes(s: State): set<nat> {
    set g | g in s.guards && s.guards[g]
  }

  /** The flag of the node tells how many probes are in flight: one or none. */
  predicate FlagExact(s: State) {
    |Probes(s)| == if s.node.probing then 1 else 0
  }

  /** A verdict by someone else than the holder of the probe, while the flag is up. */
  predicate Meddles(s: State, step: Step) {
    && s.node.probing
    && match step
       case Outside(_) => true
       case Report(g, _) => g in s.guards && !s.guards[g]
       case _ => false
  }

  /** What every reachable state satisfies: a live node is not probed, and a raised flag was raised
      by a guard still out. */
  ghost predicate Inv(s: State) {
    (s.node.alive ==> !s.node.probing) && (s.node.probing ==> Probes(s) != {})
  }

  /** Every verdict lowers the flag. */
  lemma VerdictLowers(cfg: Config, n: Node, verdict: Verdict)
    requires n.alive ==> !n.probing
    ensures var n' := CircuitBreaker.Step(cfg, n, CallOf(verdict)); !n'.probing
  {
  }

  lemma ProbesAfter(cfg: Config, s: State, step: Step)
    ensures Probes(Apply(cfg, s, step)) ==
            match step
            case Arrive(g, now) =>
              if g !in s.guards && ProbeWouldSucceed(s.node, cfg.cooldown, now) then Probes(s) + {g} else Probes(s)
            case Report(g, _) => Probes(s) - {g}
            case Abandon(g) => Probes(s) - {g}
            case Outside(_) => Probes(s)
  {
  }

  lemma StepKeepsInv(cfg: Config, s: State, step: Step)
    requires Inv(s)
    ensures Inv(Apply(cfg, s, step))
  {
    ProbesAfter(cfg, s, step);
    hide Probes;
    match step {
      case Arrive(_, _) =>
      case Report(g, verdict) =>
        VerdictLowers(cfg, s.node, verdict);
        NotAProbe(s, g);
      case Abandon(g) => NotAProbe(s, g);
      case Outside(verdict) => VerdictLowers(cfg, s.node, verdict);
    }
  }

  lemma NotAProbe(s: State, g: nat)
    ensures g in Probes(s) <==> g in s.guards && s.guards[g]
    ensures g !in Probes(s) ==> Probes(s) - {g} == Probes(s)
  {
  }

  lemma {:induction false} EveryRunKeepsInv(cfg: Config, s: State, steps: seq<Step>)
    requires Inv(s)
    ensures Inv(ExecFrom(cfg, s, steps))
  {
    if |steps| == 0 {
    } else {
      EveryRunKeepsInv(cfg, s, steps[..|steps| - 1]);
      StepKeepsInv(cfg, ExecFrom(cfg, s, steps[..|steps| - 1]), steps[|steps| - 1]);
    }
  }

  /** From a state where the flag is exact, a step keeps it exact unless it meddles. */
  lemma StaysExactIff(cfg: Config, s: State, step: Step)
    requires Inv(s) && FlagExact(s)
    ensures FlagExact(Apply(cfg, s, step)) <==> !Meddles(s, step)
  {
    ProbesAfter(cfg, s, step);
    match step {
      case Arrive(g, _) => NotAProbe(s, g);
      case Report(g, verdict) =>
        VerdictLowers(cfg, s.node, verdict);
        NotAProbe(s, g);
        if g in Probes(s) { OneProbeOnly(s, g); }
      case Abandon(g) =>
        NotAProbe(s, g);
        if g in Probes(s) { OneProbeOnly(s, g); }
      case Outside(verdict) => VerdictLowers(cfg, s.node, verdict);
    }
  }

  lemma OneProbeOnly(s: State, g: nat)
    requires FlagExact(s) && g in Probes(s)
    ensures s.node.probing && Probes(s) - {g} == {}
  {
    assert |Probes(s) - {g}| == |Probes(s)| - 1;
  }

  /** No step of the run meddles. */
  predicate Careful(cfg: Config, s: State, steps: seq<Step>) {
    |steps| > 0 ==>
      var init := steps[..|steps| - 1];
      Careful(cfg, s, init) && !Meddles(ExecFrom(cfg, s, init), steps[|steps| - 1])
  }

  /** The flag is exact after every step of the run. */
  predicate ExactThroughout(cfg: Config, s: State, steps: seq<Step>) {
    FlagExact(ExecFrom(cfg, s, steps)) && (|steps| > 0 ==> ExactThroughout(cfg, s, steps[..|steps| - 1]))
  }

  /** One probe at a time, and the flag up exactly while it is out, throughout a run: if and only if
      nobody but the holder reports on the node while the flag is up. */
  lemma {:induction false} ExactThroughoutIff(cfg: Config, s: State, steps: seq<Step>)
    requires Inv(s) && FlagExact(s)
    ensures ExactThroughout(cfg, s, steps) <==> Careful(cfg, s, steps)
  {
    if |steps| == 0 {
    } else {
      var init := steps[..|steps| - 1];
      ExactThroughoutIff(cfg, s, init);
      EveryRunKeepsInv(cfg, s, init);
      if ExactThroughout(cfg, s, init) {
        StaysExactIff(cfg, ExecFrom(cfg, s, init), steps[|steps| - 1]);
      }
    }
  }

  /** The node dies, and a cooldown later a new request arrives. */
  function DieAndProbe(cfg: Config, g: nat, now: nat): seq<Step> {
    [Outside(Died(now)), Arrive(g, now + cfg.cooldown + 1)]
  }

  /** With the flag down over a probe still out, two are soon in flight, at any time of day, and
      nobody meddles. */
  lemma SecondProbe(cfg: Config, s: State, g: nat, now: nat)
    requires !s.node.probing && Probes(s) != {} && g !in s.guards && now > 0
    ensures Careful(cfg, s, DieAndProbe(cfg, g, now))
    ensures Probes(ExecFrom(cfg, s, DieAndProbe(cfg, g, now))) == Probes(s) + {g} && |Probes(s) + {g}| >= 2
  {
    var steps := DieAndProbe(cfg, g, now);
    assert steps[..1] == [Outside(Died(now))] && steps[..1][..0] == [];
    var s1 := Apply(cfg, s, steps[0]);
    assert ExecFrom(cfg, s, steps[..1]) == s1;
    ProbesAfter(cfg, s, steps[0]);
    ProbesAfter(cfg, s1, steps[1]);
    NotAProbe(s, g);
    assert |Probes(s) + {g}| == |Probes(s)| + 1;
  }

  predicate StepNotBefore(step: Step, now: nat) {
    match step
    case Arrive(_, at) => at >= now
    case Report(_, v) => VerdictNotBefore(v, now)
    case Outside(v) => VerdictNotBefore(v, now)
    case Abandon(_) => true
  }

  predicate VerdictNotBefore(v: Verdict, now: nat) {
    match v
    case Failed(at) => at >= now
    case Died(at) => at >= now
    case _ => true
  }

  /** Every clock reading of the steps is `now` or later. */
  ghost predicate NotBefore(steps: seq<Step>, now: nat) {
    forall i :: 0 <= i < |steps| ==> StepNotBefore(steps[i], now)
  }

  /** Exactly when a node is safe from two probes at once: at the end of any run, however the node
      got there, and from any time on, no careful continuation ever has two in flight if and only if
      the flag is exact now. */
  lemma OneProbeFromHereIff(cfg: Config, steps: seq<Step>, now: nat)
    ensures var s := Exec(cfg, steps);
            (forall more: seq<Step> :: Careful(cfg, s, more) && NotBefore(more, now) ==> |Probes(ExecFrom(cfg, s, more))| <= 1)
            <==> FlagExact(s)
  {
    var s := Exec(cfg, steps);
    EveryRunKeepsInv(cfg, INIT, steps);
    if FlagExact(s) {
      forall more: seq<Step> | Careful(cfg, s, more) ensures |Probes(ExecFrom(cfg, s, more))| <= 1 {
        ExactThroughoutIff(cfg, s, more);
      }
    } else if s.node.probing {
      assert Careful(cfg, s, []) && NotBefore([], now) && ExecFrom(cfg, s, []) == s;
    } else {
      var g := UpperBound(s.guards.Keys);
      SecondProbe(cfg, s, g, now + 1);
      assert NotBefore(DieAndProbe(cfg, g, now + 1), now);
    }
  }

  /** A health check revives the node while a probe is out and later finds it dead; the next request
      becomes a second probe; and when the first is abandoned, a third joins the second. */
  lemma TwoProbesAtOnce(cfg: Config)
    ensures var t := cfg.cooldown + 2;
            var run := [Outside(Died(1)), Arrive(0, t), Outside(Revived), Outside(Died(t)), Arrive(1, 2 * t), Abandon(0), Arrive(2, 2 * t)];
            Probes(Exec(cfg, run[..5])) == {0, 1} && Probes(Exec(cfg, run)) == {1, 2}
  {
    var t := cfg.cooldown + 2;
    var run := [Outside(Died(1)), Arrive(0, t), Outside(Revived), Outside(Died(t)), Arrive(1, 2 * t), Abandon(0), Arrive(2, 2 * t)];
    hide Exec;
    NoSteps(cfg, run[..0]);
    var s1 := NextIs(cfg, run, 0, INIT);
    var s2 := NextIs(cfg, run, 1, s1);
    var s3 := NextIs(cfg, run, 2, s2);
    var s4 := NextIs(cfg, run, 3, s3);
    var s5 := NextIs(cfg, run, 4, s4);
    var s6 := NextIs(cfg, run, 5, s5);
    var s7 := NextIs(cfg, run, 6, s6);
    assert run[..7] == run;
    FirstProbeLost(cfg, s1, s2, s3, s4);
    ThreeProbes(cfg, s4, s5, s6, s7);
  }

  lemma FirstProbeLost(cfg: Config, s1: State, s2: State, s3: State, s4: State)
    requires s1 == Apply(cfg, INIT, Outside(Died(1))) && s2 == Apply(cfg, s1, Arrive(0, cfg.cooldown + 2))
    requires s3 == Apply(cfg, s2, Outside(Revived)) && s4 == Apply(cfg, s3, Outside(Died(cfg.cooldown + 2)))
    ensures s4 == State(Node(false, cfg.cooldown + 2, 0, Open, false, 2, 2), map[0 := true])
  {
    assert s2 == State(Node(false, 1, 0, HalfOpen, true, 1, 1), map[0 := true]);
  }

  lemma ThreeProbes(cfg: Config, s4: State, s5: State, s6: State, s7: State)
    requires s4 == State(Node(false, cfg.cooldown + 2, 0, Open, false, 2, 2), map[0 := true])
    requires s5 == Apply(cfg, s4, Arrive(1, 2 * (cfg.cooldown + 2)))
    requires s6 == Apply(cfg, s5, Abandon(0)) && s7 == Apply(cfg, s6, Arrive(2, 2 * (cfg.cooldown + 2)))
    ensures Probes(s5) == {0, 1} && Probes(s7) == {1, 2}
  {
    assert s5.guards == map[0 := true, 1 := true];
    assert s6 == State(s4.node, map[1 := true]);
    assert s7.guards == map[1 := true, 2 := true];
  }

  lemma NoSteps(cfg: Config, steps: seq<Step>)
    requires |steps| == 0
    ensures Exec(cfg, steps) == INIT
  {
  }

  lemma NextIs(cfg: Config, run: seq<Step>, n: nat, s: State) returns (s': State)
    requires n < |run| && Exec(cfg, run[..n]) == s
    ensures s' == Apply(cfg, s, run[n]) && Exec(cfg, run[..n + 1]) == s'
  {
    assert run[..n + 1][..n] == run[..n];
    s' := Apply(cfg, s, run[n]);
  }

  // -------------------------------------------------------------- verdicts between claims

  /** Step `i` is an arrival that wins the probe. */
  predicate Wins(cfg: Config, steps: seq<Step>, i: nat)
    requires i < |steps|
  {
    var s := Exec(cfg, steps[..i]);
    steps[i].Arrive? && steps[i].g !in s.guards && ProbeWouldSucceed(s.node, cfg.cooldown, steps[i].now)
  }

  /** Step `i` reports a verdict on the node. */
  predicate Reports(cfg: Config, steps: seq<Step>, i: nat)
    requires i < |steps|
  {
    steps[i].Outside? || (steps[i].Report? && steps[i].g in Exec(cfg, steps[..i]).guards)
  }

  /** Since the probe was last won it was given up: an abandoned guard lowered the flag, and nothing
      was reported. */
  predicate GivenUp(cfg: Config, steps: seq<Step>) {
    |steps| > 0 &&
    var n := |steps| - 1;
    var s := Exec(cfg, steps[..n]);
    if Reports(cfg, steps, n) || Wins(cfg, steps, n) then false
    else if steps[n].Abandon? && steps[n].g in Probes(s) then s.node.probing || GivenUp(cfg, steps[..n])
    else GivenUp(cfg, steps[..n])
  }

  ghost predicate NoWins(cfg: Config, steps: seq<Step>, i: nat, j: nat)
    requires i <= j <= |steps|
  {
    forall k :: i <= k < j ==> !Wins(cfg, steps, k)
  }

  ghost predicate Reported(cfg: Config, steps: seq<Step>, i: nat, j: nat)
    requires i <= j <= |steps|
  {
    exists k :: i <= k < j && Reports(cfg, steps, k)
  }

  lemma SamePrefix(cfg: Config, steps: seq<Step>, n: nat)
    requires n < |steps|
    ensures Wins(cfg, steps[..n + 1], n) == Wins(cfg, steps, n) && Reports(cfg, steps[..n + 1], n) == Reports(cfg, steps, n)
    ensures GivenUp(cfg, steps[..n + 1]) ==
            var s := Exec(cfg, steps[..n]);
            if Reports(cfg, steps, n) || Wins(cfg, steps, n) then false
            else if steps[n].Abandon? && steps[n].g in Probes(s) then s.node.probing || GivenUp(cfg, steps[..n])
            else GivenUp(cfg, steps[..n])
    ensures Exec(cfg, steps[..n + 1]) == Apply(cfg, Exec(cfg, steps[..n]), steps[n])
  {
    assert steps[..n + 1][..n] == steps[..n];
  }

  /** The probe is unanswered: still out, or given up. */
  predicate Unanswered(cfg: Config, steps: seq<Step>) {
    Exec(cfg, steps).node.probing || GivenUp(cfg, steps)
  }

  lemma UnansweredNext(cfg: Config, steps: seq<Step>, n: nat)
    requires n < |steps|
    ensures Wins(cfg, steps, n) ==> Unanswered(cfg, steps[..n + 1])
    ensures !Wins(cfg, steps, n) ==>
              (Unanswered(cfg, steps[..n + 1]) <==> Unanswered(cfg, steps[..n]) && !Reports(cfg, steps, n))
  {
    SamePrefix(cfg, steps, n);
    EveryRunKeepsInv(cfg, INIT, steps[..n]);
    var s := Exec(cfg, steps[..n]);
    NotAProbe(s, if steps[n].Outside? then 0 else steps[n].g);
    if Reports(cfg, steps, n) {
      VerdictLowers(cfg, s.node, steps[n].verdict);
    }
    hide Exec, GivenUp, Probes;
  }

  lemma {:induction false} SilentSinceWin(cfg: Config, steps: seq<Step>, i: nat, j: nat)
    requires i < j <= |steps| && Wins(cfg, steps, i) && NoWins(cfg, steps, i + 1, j)
    ensures !Reported(cfg, steps, i + 1, j) <==> Unanswered(cfg, steps[..j])
    decreases j
  {
    hide Unanswered, Wins, Reports;
    var k := j - 1;
    UnansweredNext(cfg, steps, k);
    if i == k {
    } else {
      SilentSinceWin(cfg, steps, i, k);
      assert !Wins(cfg, steps, k);
    }
  }

  /** An unanswered probe leaves the node dead, with the time of its failure; a probe given up leaves
      the flag down. */
  lemma {:induction false} DeadWhileUnanswered(cfg: Config, steps: seq<Step>)
    ensures var n := Exec(cfg, steps).node;
            && (Unanswered(cfg, steps) ==> !n.alive && n.lastFailure != 0)
            && (GivenUp(cfg, steps) ==> !n.probing)
  {
    if |steps| == 0 {
    } else {
      var k := |steps| - 1;
      assert steps[..k + 1] == steps;
      DeadWhileUnanswered(cfg, steps[..k]);
      SamePrefix(cfg, steps, k);
      UnansweredNext(cfg, steps, k);
      var s := Exec(cfg, steps[..k]);
      NotAProbe(s, if steps[k].Outside? then 0 else steps[k].g);
      hide Exec, GivenUp, Probes;
    }
  }

  /** An unanswered probe was won. */
  lemma {:induction false} LastWin(cfg: Config, steps: seq<Step>, n: nat) returns (i: nat)
    requires n <= |steps| && Unanswered(cfg, steps[..n])
    ensures i < n && Wins(cfg, steps, i) && NoWins(cfg, steps, i + 1, n)
    decreases n
  {
    hide Unanswered, Wins, Reports;
    NothingToAnswer(cfg, steps[..n]);
    UnansweredNext(cfg, steps, n - 1);
    if Wins(cfg, steps, n - 1) {
      i := n - 1;
    } else {
      i := LastWin(cfg, steps, n - 1);
    }
  }

  lemma NothingToAnswer(cfg: Config, steps: seq<Step>)
    ensures Unanswered(cfg, steps) ==> |steps| > 0
  {
  }

  ghost predicate NoAbandons(steps: seq<Step>) {
    forall i :: 0 <= i < |steps| ==> !steps[i].Abandon?
  }

  /** From step `from` on, no probe is won before the one before it was answered by a verdict. */
  ghost predicate AnsweredFrom(cfg: Config, steps: seq<Step>, from: nat) {
    forall i, j :: 0 <= i < j < |steps| && from <= j && Wins(cfg, steps, i) && Wins(cfg, steps, j) && NoWins(cfg, steps, i + 1, j) ==>
      Reported(cfg, steps, i + 1, j)
  }

  /** Without an abandoned guard nothing is given up anew. */
  lemma {:induction false} GivenUpBefore(cfg: Config, steps: seq<Step>, from: nat, j: nat)
    requires from <= j <= |steps| && forall k :: from <= k < j ==> !steps[k].Abandon?
    requires GivenUp(cfg, steps[..j])
    ensures GivenUp(cfg, steps[..from])
    decreases j
  {
    if from == j {
    } else {
      SamePrefix(cfg, steps, j - 1);
      hide GivenUp;
      GivenUpBefore(cfg, steps, from, j - 1);
    }
  }

  /** Two probes in a row with no verdict between them need a probe given up. */
  lemma SilentNeedsGivingUp(cfg: Config, steps: seq<Step>, i: nat, j: nat)
    requires i < j < |steps| && Wins(cfg, steps, i) && Wins(cfg, steps, j) && NoWins(cfg, steps, i + 1, j)
    requires !Reported(cfg, steps, i + 1, j)
    ensures GivenUp(cfg, steps[..j])
  {
    SilentSinceWin(cfg, steps, i, j);
  }

  /** A request that arrives late at a node whose probe was given up. */
  lemma WinsUnanswered(cfg: Config, steps: seq<Step>, now: nat) returns (arrival: Step)
    requires GivenUp(cfg, steps)
    ensures arrival.Arrive? && arrival.now >= now
    ensures Wins(cfg, steps + [arrival], |steps|) && !AnsweredFrom(cfg, steps + [arrival], |steps|)
  {
    DeadWhileUnanswered(cfg, steps);
    var s, j := Exec(cfg, steps), |steps|;
    var g := UpperBound(s.guards.Keys);
    arrival := Arrive(g, now + s.node.lastFailure + cfg.cooldown + 1);
    var all := steps + [arrival];
    assert all[..j] == steps;
    assert Wins(cfg, all, j);
    hide Exec, GivenUp, Wins;
    var i := LastWin(cfg, all, j);
    SilentSinceWin(cfg, all, i, j);
  }

  /** Exactly when a verdict will come between probes: after any run and from any time on, as long as
      no guard is abandoned, every probe won is preceded by a verdict on the one before it, if and
      only if the last one was not given up. */
  lemma AnsweredFromHereIff(cfg: Config, steps: seq<Step>, now: nat)
    ensures (forall more: seq<Step> :: NoAbandons(more) && NotBefore(more, now) ==> AnsweredFrom(cfg, steps + more, |steps|))
            <==> !GivenUp(cfg, steps)
  {
    if GivenUp(cfg, steps) {
      var arrival := WinsUnanswered(cfg, steps, now);
      hide AnsweredFrom, GivenUp;
      assert NoAbandons([arrival]) && NotBefore([arrival], now);
    } else {
      forall more: seq<Step> | NoAbandons(more) && NotBefore(more, now) ensures AnsweredFrom(cfg, steps + more, |steps|) {
        NeverSilent(cfg, steps, more);
      }
    }
  }

  lemma NeverSilent(cfg: Config, steps: seq<Step>, more: seq<Step>)
    requires !GivenUp(cfg, steps) && NoAbandons(more)
    ensures AnsweredFrom(cfg, steps + more, |steps|)
  {
    var all, n := steps + more, |steps|;
    assert all[..n] == steps;
    assert forall k :: n <= k < |all| ==> all[k] == more[k - n];
    hide GivenUp, Wins, Reports;
    forall i, j | 0 <= i < j < |all| && n <= j && Wins(cfg, all, i) && Wins(cfg, all, j) && NoWins(cfg, all, i + 1, j)
      ensures Reported(cfg, all, i + 1, j)
    {
      if !Reported(cfg, all, i + 1, j) {
        SilentNeedsGivingUp(cfg, all, i, j);
        GivenUpBefore(cfg, all, n, j);
      }
    }
  }

  /** Two probes with no verdict between them: the first client goes away. */
  lemma NoVerdictBetweenProbes(cfg: Config)
    ensures var t := cfg.cooldown + 2;
            var run := [Outside(Died(1)), Arrive(0, t), Abandon(0), Arrive(1, t)];
            Wins(cfg, run, 1) && Wins(cfg, run, 3) && !Reported(cfg, run, 2, 3)
  {
    var t := cfg.cooldown + 2;
    var run := [Outside(Died(1)), Arrive(0, t), Abandon(0), Arrive(1, t)];
    var s1 := NextIs(cfg, run, 0, INIT);
    var s2 := NextIs(cfg, run, 1, s1);
    var s3 := NextIs(cfg, run, 2, s2);
    assert s2.guards == map[0 := true] && s3.guards == map[];
  }
}
