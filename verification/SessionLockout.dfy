/** The lockout after three wrong codes under concurrency (server/src/middleware/idp/session.rs): the
    third wrong code is counted in one critical section and the session removed in another, and calls
    may come between. */
module SessionLockout {
  import opened Prelude
  import opened SessionStore
  import opened SessionProtocol

  // -------------------------------------------------------------------------- answers

  /** The step is a verification of `id` by a caller not yet busy. */
  predicate Verifies(s: State, step: Step, id: string) {
    step.VerifyEntry? && step.id == id && step.actor !in s.calls
  }

  function Answer(ttl: real, s: State, step: Step): Result<(), ConfirmError>
    requires step.VerifyEntry?
  {
    Verify(ttl, s.sessions, step.id, step.code, step.now).1
  }

  /** The step answers that the code of `id` is wrong. */
  predicate Refuses(ttl: real, s: State, step: Step, id: string) {
    Verifies(s, step, id) && Answer(ttl, s, step) == Err(InvalidUserCode)
  }

  /** The step accepts the code of `id`. */
  predicate Accepts(ttl: real, s: State, step: Step, id: string) {
    Verifies(s, step, id) && Answer(ttl, s, step) == Ok(())
  }

  /** Wrong codes of `id` answered in a run. */
  function WrongCodes(ttl: real, steps: seq<Step>, id: string): nat {
    if |steps| == 0 then 0
    else
      var n := |steps| - 1;
      WrongCodes(ttl, steps[..n], id) + if Refuses(ttl, Exec(ttl, steps[..n]), steps[n], id) then 1 else 0
  }

  /** What the attempt counter of a session says about a run. */
  ghost predicate Counted(s: State, wrong: nat, id: string) {
    && (id in s.sessions ==> id in s.created && s.sessions[id].failedAttempts == wrong)
    && (id !in s.created ==> wrong == 0)
  }

  lemma CountedNext(ttl: real, s: State, step: Step, wrong: nat, id: string)
    requires Counted(s, wrong, id)
    ensures Counted(Apply(ttl, s, step), wrong + if Refuses(ttl, s, step, id) then 1 else 0, id)
  {
    hide CodeMatches, WithAudience;
  }

  /** In every interleaving a session still there has counted every wrong code answered for it. */
  lemma {:induction false} AttemptsExact(ttl: real, steps: seq<Step>, id: string)
    ensures Counted(Exec(ttl, steps), WrongCodes(ttl, steps, id), id)
  {
    if |steps| == 0 {
    } else {
      var init := steps[..|steps| - 1];
      AttemptsExact(ttl, init, id);
      hide Apply, Refuses;
      CountedNext(ttl, Exec(ttl, init), steps[|steps| - 1], WrongCodes(ttl, init, id), id);
    }
  }

  // ------------------------------------------------------------- when the lockout is kept

  /** No code of `id` is answered, right or wrong, after its third wrong one. */
  ghost predicate LockoutKept(ttl: real, steps: seq<Step>, id: string) {
    forall n :: 0 <= n < |steps| && (Refuses(ttl, Exec(ttl, steps[..n]), steps[n], id) || Accepts(ttl, Exec(ttl, steps[..n]), steps[n], id)) ==>
      WrongCodes(ttl, steps[..n], id) < MAX_CONFIRM_ATTEMPTS
  }

  /** A verification finds the session pending and in time, with three attempts or more: it slips
      in between the third wrong code and the removal. */
  predicate SlipsIn(ttl: real, s: State, step: Step, id: string) {
    && Verifies(s, step, id)
    && id in s.sessions && s.sessions[id].status.Pending? && step.now - s.sessions[id].createdAt <= ttl
    && s.sessions[id].failedAttempts >= MAX_CONFIRM_ATTEMPTS
  }

  lemma AnsweredIff(ttl: real, s: State, step: Step, id: string)
    ensures Refuses(ttl, s, step, id) || Accepts(ttl, s, step, id) <==>
            && Verifies(s, step, id)
            && id in s.sessions && s.sessions[id].status.Pending? && step.now - s.sessions[id].createdAt <= ttl
  {
    hide CodeMatches;
  }

  /** In every interleaving the lockout is kept if and only if no verification slips in. */
  lemma LockoutKeptIff(ttl: real, steps: seq<Step>, id: string)
    ensures LockoutKept(ttl, steps, id) <==> forall n :: 0 <= n < |steps| ==> !SlipsIn(ttl, Exec(ttl, steps[..n]), steps[n], id)
  {
    forall n | 0 <= n < |steps|
      ensures SlipsIn(ttl, Exec(ttl, steps[..n]), steps[n], id) <==>
              && (Refuses(ttl, Exec(ttl, steps[..n]), steps[n], id) || Accepts(ttl, Exec(ttl, steps[..n]), steps[n], id))
              && WrongCodes(ttl, steps[..n], id) >= MAX_CONFIRM_ATTEMPTS
    {
      AttemptsExact(ttl, steps[..n], id);
      AnsweredIff(ttl, Exec(ttl, steps[..n]), steps[n], id);
      hide Exec, WrongCodes, Refuses, Accepts, Verifies;
    }
    hide Exec, WrongCodes, Refuses, Accepts, SlipsIn;
  }

  // --------------------------------------------------- when a session can still be confirmed

  predicate StepNotBefore(step: Step, now: real) {
    match step
    case CreateEntry(_, _, at) => at >= now
    case VerifyEntry(_, _, _, _, at) => at >= now
    case PollRead(_, _, _, at) => at >= now
    case CleanupEntry(_, at) => at >= now
    case _ => true
  }

  /** Every clock reading of the steps is `now` or later. */
  ghost predicate NotBefore(steps: seq<Step>, now: real) {
    forall i :: 0 <= i < |steps| ==> StepNotBefore(steps[i], now)
  }

  ghost predicate CommitInFlight(s: State, id: string) {
    exists a :: a in s.calls && s.calls[a].Committing? && s.calls[a].id == id
  }

  /** The session is gone or confirmed already, or it has expired and no accepted confirmation is on
      its way. */
  ghost predicate Closed(ttl: real, s: State, id: string, now: real) {
    || id !in s.sessions
    || s.sessions[id].status.Confirmed?
    || (now - s.sessions[id].createdAt > ttl && !CommitInFlight(s, id))
  }

  lemma StaysClosed(ttl: real, s: State, step: Step, id: string, now: real)
    requires id in s.created && Closed(ttl, s, id, now) && StepNotBefore(step, now)
    ensures var s' := Apply(ttl, s, step);
            id in s'.created && Closed(ttl, s', id, now) && (HasCommit(s'.commits, id) ==> HasCommit(s.commits, id))
  {
    hide CodeMatches, WithAudience;
    var s' := Apply(ttl, s, step);
    if HasCommit(s'.commits, id) {
      var i :| 0 <= i < |s'.commits| && s'.commits[i].id == id;
      assert i < |s.commits| ==> s.commits[i] == s'.commits[i];
    }
    if CommitInFlight(s', id) && !CommitInFlight(s, id) {
      var a :| a in s'.calls && s'.calls[a].Committing? && s'.calls[a].id == id;
      assert !(a in s.calls && s.calls[a].Committing? && s.calls[a].id == id);
    }
  }

  lemma {:induction false} ClosedForGood(ttl: real, steps: seq<Step>, more: seq<Step>, id: string, now: real)
    requires id in Exec(ttl, steps).created && Closed(ttl, Exec(ttl, steps), id, now) && NotBefore(more, now)
    ensures var s' := Exec(ttl, steps + more);
            id in s'.created && Closed(ttl, s', id, now) && (HasCommit(s'.commits, id) ==> HasCommit(Exec(ttl, steps).commits, id))
  {
    if |more| == 0 {
      assert steps + more == steps;
    } else {
      var n := |more| - 1;
      ClosedForGood(ttl, steps, more[..n], id, now);
      assert (steps + more)[..|steps + more| - 1] == steps + more[..n];
      var s := Exec(ttl, steps + more[..n]);
      assert Exec(ttl, steps + more) == Apply(ttl, s, more[n]);
      hide Apply, Exec, Closed, HasCommit;
      StaysClosed(ttl, s, more[n], id, now);
    }
  }

  /** Whatever the code of a session, this spelling of it is accepted. */
  lemma RightCode(code: string)
    ensures CodeMatches(Some("-" + code), code)
  {
    assert ("-" + code)[1..] == code && ("-" + code)[0] == '-';
  }

  lemma ExecNext(ttl: real, steps: seq<Step>, step: Step)
    ensures Exec(ttl, steps + [step]) == Apply(ttl, Exec(ttl, steps), step)
  {
    assert (steps + [step])[..|steps|] == steps;
  }

  lemma CommitsNow(s: State, actor: nat, id: string)
    requires actor in s.calls && s.calls[actor].Committing? && s.calls[actor].id == id
    requires id in s.sessions && s.sessions[id].status.Pending?
    ensures HasCommit(ApplyCommit(s, actor, id, s.calls[actor].code, s.calls[actor].claims).commits, id)
  {
    var s' := ApplyCommit(s, actor, id, s.calls[actor].code, s.calls[actor].claims);
    assert s'.commits[|s.commits|].id == id;
  }

  /** A session not closed can be confirmed yet, however many wrong codes it has counted. */
  lemma StillConfirms(ttl: real, steps: seq<Step>, id: string, claims: Claims, now: real) returns (more: seq<Step>)
    requires !Closed(ttl, Exec(ttl, steps), id, now)
    ensures NotBefore(more, now) && HasCommit(Exec(ttl, steps + more).commits, id)
  {
    var s := Exec(ttl, steps);
    if CommitInFlight(s, id) {
      var a :| a in s.calls && s.calls[a].Committing? && s.calls[a].id == id;
      more := [CommitEntry(a)];
      ExecNext(ttl, steps, more[0]);
      CommitsNow(s, a, id);
    } else {
      var a := UpperBound(s.calls.Keys);
      var code := Some("-" + s.sessions[id].userCode);
      RightCode(s.sessions[id].userCode);
      var verify := VerifyEntry(a, id, code, Some(claims), now);
      more := [verify, CommitEntry(a)];
      assert steps + more == steps + [verify] + [CommitEntry(a)];
      ExecNext(ttl, steps, verify);
      ExecNext(ttl, steps + [verify], CommitEntry(a));
      var s1 := Exec(ttl, steps + [verify]);
      hide Exec, CodeMatches;
      assert s1.calls[a] == Committing(id, code, claims) && s1.sessions == s.sessions;
      CommitsNow(s1, a, id);
    }
  }

  /** Exactly when a session is safe from being confirmed: after any run in which it was created, with
      three wrong codes or more or fewer, and from any time on, no continuation commits it anew if
      and only if it is closed. */
  lemma NeverConfirmedIff(ttl: real, steps: seq<Step>, id: string, now: real)
    requires id in Exec(ttl, steps).created
    ensures (forall more: seq<Step> :: NotBefore(more, now) && HasCommit(Exec(ttl, steps + more).commits, id) ==> HasCommit(Exec(ttl, steps).commits, id))
            <==> Closed(ttl, Exec(ttl, steps), id, now)
  {
    if Closed(ttl, Exec(ttl, steps), id, now) {
      forall more: seq<Step> | NotBefore(more, now) && HasCommit(Exec(ttl, steps + more).commits, id)
        ensures HasCommit(Exec(ttl, steps).commits, id)
      {
        ClosedForGood(ttl, steps, more, id, now);
      }
    } else {
      EveryRunKeepsInv(ttl, steps);
      assert !HasCommit(Exec(ttl, steps).commits, id);
      var more := StillConfirms(ttl, steps, id, Claims("", "", None, 0, [], None), now);
    }
  }

  // ------------------------------------------------------------------- how long it can last

  /** Calls that are about to remove session `id`. */
  function Removers(calls: map<nat, Phase>, id: string): set<nat> {
    set a | a in calls && calls[a] == Removing(id)
  }

  /** Wrong codes beyond the second are those of calls still about to remove the session. */
  ghost predicate WithinReach(s: State, id: string) {
    id in s.sessions ==> s.sessions[id].failedAttempts <= MAX_CONFIRM_ATTEMPTS - 1 + |Removers(s.calls, id)|
  }

  lemma RemoversAfter(calls: map<nat, Phase>, actor: nat, phase: Phase, id: string)
    ensures actor !in calls ==>
              |Removers(calls[actor := phase], id)| == |Removers(calls, id)| + if phase == Removing(id) then 1 else 0
    ensures actor in calls && calls[actor] != Removing(id) ==> Removers(calls - {actor}, id) == Removers(calls, id)
  {
    if actor !in calls {
      var after := Removers(calls[actor := phase], id);
      assert after == if phase == Removing(id) then Removers(calls, id) + {actor} else Removers(calls, id);
    }
  }

  lemma StepWithinReach(ttl: real, s: State, step: Step, id: string)
    requires WithinReach(s, id) && (id in s.sessions ==> id in s.created)
    ensures WithinReach(Apply(ttl, s, step), id)
  {
    hide CodeMatches, WithAudience, Removers;
    match step {
      case VerifyEntry(actor, k, code, confirming, _) =>
        RemoversAfter(s.calls, actor, Removing(k), id);
        if confirming.Some? { RemoversAfter(s.calls, actor, Committing(k, code, confirming.value), id); }
      case PollRead(actor, k, secret, _) =>
        RemoversAfter(s.calls, actor, Removing(k), id);
        RemoversAfter(s.calls, actor, Claiming(k, secret), id);
      case CommitEntry(actor) => RemoversAfter(s.calls, actor, Removing(id), id);
      case RemoveEntry(actor) => RemoversAfter(s.calls, actor, Removing(id), id);
      case PollRemove(actor) => RemoversAfter(s.calls, actor, Removing(id), id);
      case CreateEntry(_, _, _) =>
      case CleanupEntry(_, _) =>
    }
  }

  /** A session still there has counted at most two wrong codes plus one for each call that is about
      to remove it. */
  lemma {:induction false} AttemptsWithinReach(ttl: real, steps: seq<Step>, id: string)
    ensures WithinReach(Exec(ttl, steps), id)
  {
    if |steps| == 0 {
    } else {
      var init := steps[..|steps| - 1];
      AttemptsWithinReach(ttl, init, id);
      EveryRunKeepsInv(ttl, init);
      hide Apply;
      StepWithinReach(ttl, Exec(ttl, init), steps[|steps| - 1], id);
    }
  }

  /** The lockout takes effect once the calls that met it have finished: in every interleaving, when
      three wrong codes have been answered and no call is about to remove the session, it is gone, and
      no continuation confirms it. */
  lemma LockedOutWhenQuiet(ttl: real, steps: seq<Step>, id: string)
    requires WrongCodes(ttl, steps, id) >= MAX_CONFIRM_ATTEMPTS && Removers(Exec(ttl, steps).calls, id) == {}
    ensures id !in Exec(ttl, steps).sessions
    ensures forall now, more: seq<Step> :: NotBefore(more, now) && HasCommit(Exec(ttl, steps + more).commits, id) ==>
              HasCommit(Exec(ttl, steps).commits, id)
  {
    AttemptsExact(ttl, steps, id);
    AttemptsWithinReach(ttl, steps, id);
    forall now, more: seq<Step> | NotBefore(more, now) && HasCommit(Exec(ttl, steps + more).commits, id)
      ensures HasCommit(Exec(ttl, steps).commits, id)
    {
      ClosedForGood(ttl, steps, more, id, now);
    }
  }

  // ------------------------------------------------------------------------- failing runs

  /** A session, and then `n` wrong codes for it, each from a caller of its own. */
  function Guesses(info: Info, n: nat): seq<Step> {
    [CreateEntry(info, None, 0.0)] + seq(n, i requires 0 <= i < n => VerifyEntry(i, info.id, None, None, 0.0))
  }

  /** Until a removal is scheduled any number of wrong codes is answered. */
  lemma {:induction false} WrongCodesUnbounded(ttl: real, info: Info, n: nat)
    requires ttl >= 0.0
    ensures var s := Exec(ttl, Guesses(info, n));
            && info.id in s.sessions && s.sessions[info.id] == Entry(0.0, info.pollSecret, info.userCode, n, None, Pending)
            && (forall a :: a in s.calls ==> a < n)
            && WrongCodes(ttl, Guesses(info, n), info.id) == n
  {
    if n == 0 {
      assert Guesses(info, 0) == [] + [CreateEntry(info, None, 0.0)];
      ExecNext(ttl, [], CreateEntry(info, None, 0.0));
      WrongNext(ttl, [], CreateEntry(info, None, 0.0), info.id);
    } else {
      WrongCodesUnbounded(ttl, info, n - 1);
      var before, step := Guesses(info, n - 1), VerifyEntry(n - 1, info.id, None, None, 0.0);
      assert Guesses(info, n) == before + [step];
      ExecNext(ttl, before, step);
      WrongNext(ttl, before, step, info.id);
      hide Exec, Guesses, WrongCodes;
      OneMoreWrong(ttl, Exec(ttl, before), info, n - 1);
    }
  }

  lemma WrongNext(ttl: real, steps: seq<Step>, step: Step, id: string)
    ensures WrongCodes(ttl, steps + [step], id) ==
            WrongCodes(ttl, steps, id) + if Refuses(ttl, Exec(ttl, steps), step, id) then 1 else 0
  {
    hide Refuses;
    assert (steps + [step])[..|steps|] == steps;
  }

  lemma OneMoreWrong(ttl: real, s: State, info: Info, n: nat)
    requires ttl >= 0.0 && info.id in s.sessions && s.sessions[info.id] == Entry(0.0, info.pollSecret, info.userCode, n, None, Pending)
    requires forall a :: a in s.calls ==> a < n
    ensures var step := VerifyEntry(n, info.id, None, None, 0.0);
            var s' := Apply(ttl, s, step);
            && Refuses(ttl, s, step, info.id)
            && info.id in s'.sessions && s'.sessions[info.id] == Entry(0.0, info.pollSecret, info.userCode, n + 1, None, Pending)
            && forall a :: a in s'.calls ==> a < n + 1
  {
    NoCode(info.userCode);
    hide CodeMatches;
  }

  lemma NoCode(expected: string)
    ensures !CodeMatches(None, expected)
  {
  }

  /** After three wrong codes the right one is accepted, the session confirmed, and its claims handed
      out, before the third wrong code has removed it. */
  lemma RightCodeAfterThree(ttl: real, info: Info, claims: Claims)
    requires ttl >= 0.0
    ensures var code := Some("-" + info.userCode);
            var run := Guesses(info, 3) + [VerifyEntry(3, info.id, code, Some(claims), 0.0), CommitEntry(3),
                                           PollRead(4, info.id, info.pollSecret, 0.0), PollRemove(4)];
            && WrongCodes(ttl, Guesses(info, 3), info.id) == 3
            && Exec(ttl, run).commits == [Commit(info.id, code, claims)]
            && Exec(ttl, run).deliveries == [Delivery(info.id, info.pollSecret, claims)]
  {
    var code, id := Some("-" + info.userCode), info.id;
    var guesses := Guesses(info, 3);
    var steps := [VerifyEntry(3, id, code, Some(claims), 0.0), CommitEntry(3), PollRead(4, id, info.pollSecret, 0.0), PollRemove(4)];
    WrongCodesUnbounded(ttl, info, 3);
    NothingLogged(ttl, info, 3);
    RightCode(info.userCode);
    var run := guesses + steps;
    assert run == guesses + [steps[0]] + [steps[1]] + [steps[2]] + [steps[3]];
    ExecNext(ttl, guesses, steps[0]);
    ExecNext(ttl, guesses + [steps[0]], steps[1]);
    ExecNext(ttl, guesses + [steps[0]] + [steps[1]], steps[2]);
    ExecNext(ttl, guesses + [steps[0]] + [steps[1]] + [steps[2]], steps[3]);
    var s0 := Exec(ttl, guesses);
    hide Exec, Guesses, CodeMatches;
    ConfirmsAndDelivers(ttl, s0, info, code, claims);
  }

  lemma ConfirmsAndDelivers(ttl: real, s0: State, info: Info, code: Option<string>, claims: Claims)
    requires ttl >= 0.0 && CodeMatches(code, info.userCode) && 3 !in s0.calls && 4 !in s0.calls && info.id in s0.sessions
    requires s0.sessions[info.id] == Entry(0.0, info.pollSecret, info.userCode, 3, None, Pending) && s0.commits == [] && s0.deliveries == []
    ensures var s1 := Apply(ttl, s0, VerifyEntry(3, info.id, code, Some(claims), 0.0));
            var s2 := Apply(ttl, s1, CommitEntry(3));
            var s4 := Apply(ttl, Apply(ttl, s2, PollRead(4, info.id, info.pollSecret, 0.0)), PollRemove(4));
            s4.commits == [Commit(info.id, code, claims)] && s4.deliveries == [Delivery(info.id, info.pollSecret, claims)]
  {
    hide CodeMatches;
    var s1 := Apply(ttl, s0, VerifyEntry(3, info.id, code, Some(claims), 0.0));
    assert s1.calls[3] == Committing(info.id, code, claims) && 4 !in s1.calls;
    var s2 := Apply(ttl, s1, CommitEntry(3));
    assert s2.sessions[info.id].status == Confirmed(claims) && s2.commits == [Commit(info.id, code, claims)];
    var s3 := Apply(ttl, s2, PollRead(4, info.id, info.pollSecret, 0.0));
    assert s3.calls[4] == Claiming(info.id, info.pollSecret);
  }

  lemma {:induction false} NothingLogged(ttl: real, info: Info, n: nat)
    ensures var s := Exec(ttl, Guesses(info, n)); s.commits == [] && s.deliveries == []
  {
    if n == 0 {
      assert Guesses(info, 0) == [] + [CreateEntry(info, None, 0.0)];
      ExecNext(ttl, [], CreateEntry(info, None, 0.0));
    } else {
      NothingLogged(ttl, info, n - 1);
      var step := VerifyEntry(n - 1, info.id, None, None, 0.0);
      assert Guesses(info, n) == Guesses(info, n - 1) + [step];
      ExecNext(ttl, Guesses(info, n - 1), step);
      hide Exec, Guesses;
    }
  }
}
