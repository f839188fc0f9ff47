/** Session delivery under concurrency (server/src/middleware/idp/session.rs): the calls of
    unboundedly many actors are cut at every boundary between two critical sections on a map
    entry, and the pieces run in any order. Session ids are fresh. */
module SessionProtocol {
  import opened Prelude
  import opened SessionStore

  /** What an actor still has to do between two critical sections of its call. */
  datatype Phase =
    | Committing(id: string, code: Option<string>, claims: Claims)  // code accepted, status not yet set
    | Removing(id: string)                                           // saw an expired or locked-out session
    | Claiming(id: string, secret: string)                           // saw a confirmed session, not yet taken

  /** A confirmation that stored its claims, with the code that was accepted for it. */
  datatype Commit = Commit(id: string, code: Option<string>, claims: Claims)

  /** Claims handed out to the poller that presented `secret`. */
  datatype Delivery = Delivery(id: string, secret: string, claims: Claims)

  /** The table and the calls in progress, with the history of what was created, committed and
      delivered so far. */
  datatype State = State(sessions: Sessions, calls: map<nat, Phase>,
                         created: Sessions, commits: seq<Commit>, deliveries: seq<Delivery>)

  datatype Step =
    | CreateEntry(info: Info, aud: Option<string>, now: real)
    | VerifyEntry(actor: nat, id: string, code: Option<string>, confirming: Option<Claims>, now: real)
    | CommitEntry(actor: nat)
    | RemoveEntry(actor: nat)
    | PollRead(actor: nat, id: string, secret: string, now: real)
    | PollRemove(actor: nat)
    | CleanupEntry(id: string, now: real)

  const INIT := State(map[], map[], map[], [], [])

  function ApplyVerify(ttl: real, s: State, actor: nat, id: string, code: Option<string>, confirming: Option<Claims>, now: real): State {
    if id !in s.sessions then s
    else
      var e := s.sessions[id];
      if now - e.createdAt > ttl then s.(calls := s.calls[actor := Removing(id)])
      else if e.status.Confirmed? then s
      else if CodeMatches(code, e.userCode) then
        if confirming.Some? then s.(calls := s.calls[actor := Committing(id, code, confirming.value)]) else s
      else
        var counted := s.(sessions := s.sessions[id := e.(failedAttempts := e.failedAttempts + 1)]);
        if e.failedAttempts + 1 >= MAX_CONFIRM_ATTEMPTS then counted.(calls := s.calls[actor := Removing(id)]) else counted
  }

  function ApplyCommit(s: State, actor: nat, id: string, code: Option<string>, claims: Claims): State {
    var s' := s.(calls := s.calls - {actor});
    if id !in s.sessions || s.sessions[id].status.Confirmed? then s'
    else
      var e := s.sessions[id];
      s'.(sessions := s.sessions[id := e.(status := Confirmed(WithAudience(claims, e.aud)))],
          commits := s.commits + [Commit(id, code, claims)])
  }

  function ApplyPollRead(ttl: real, s: State, actor: nat, id: string, secret: string, now: real): State {
    if id !in s.sessions || s.sessions[id].pollSecret != secret then s
    else if now - s.sessions[id].createdAt > ttl then s.(calls := s.calls[actor := Removing(id)])
    else if s.sessions[id].status.Pending? then s
    else s.(calls := s.calls[actor := Claiming(id, secret)])
  }

  function ApplyPollRemove(s: State, actor: nat, id: string, secret: string): State {
    var s' := s.(calls := s.calls - {actor});
    if id in s.sessions && s.sessions[id].pollSecret == secret && s.sessions[id].status.Confirmed? then
      s'.(sessions := s.sessions - {id},
          deliveries := s.deliveries + [Delivery(id, secret, s.sessions[id].status.claims)])
    else s'
  }

  /** One critical section; a step its actor is not at changes nothing. */
  function Apply(ttl: real, s: State, step: Step): State {
    match step
    case CreateEntry(info, aud, now) =>
      if info.id in s.created then s
      else
        var e := Entry(now, info.pollSecret, info.userCode, 0, aud, Pending);
        s.(sessions := s.sessions[info.id := e], created := s.created[info.id := e])
    case VerifyEntry(actor, id, code, confirming, now) =>
      if actor in s.calls then s else ApplyVerify(ttl, s, actor, id, code, confirming, now)
    case CommitEntry(actor) =>
      if actor in s.calls && s.calls[actor].Committing?
      then ApplyCommit(s, actor, s.calls[actor].id, s.calls[actor].code, s.calls[actor].claims) else s
    case RemoveEntry(actor) =>
      if actor in s.calls && s.calls[actor].Removing?
      then s.(sessions := s.sessions - {s.calls[actor].id}, calls := s.calls - {actor}) else s
    case PollRead(actor, id, secret, now) =>
      if actor in s.calls then s else ApplyPollRead(ttl, s, actor, id, secret, now)
    case PollRemove(actor) =>
      if actor in s.calls && s.calls[actor].Claiming?
      then ApplyPollRemove(s, actor, s.calls[actor].id, s.calls[actor].secret) else s
    case CleanupEntry(id, now) =>
      if id in s.sessions && now - s.sessions[id].createdAt > ttl then s.(sessions := s.sessions - {id}) else s
  }

  function Exec(ttl: real, steps: seq<Step>): State {
    if |steps| == 0 then INIT
    else Apply(ttl, Exec(ttl, steps[..|steps| - 1]), steps[|steps| - 1])
  }

  // -------------------------------------------------------------------------- invariant

  ghost predicate HasCommit(commits: seq<Commit>, id: string) {
    exists i :: 0 <= i < |commits| && commits[i].id == id
  }

  /** `claims` are those of a commit of `id`, with the session's audience. */
  ghost predicate CommittedAs(s: State, id: string, claims: Claims)
    requires id in s.created
  {
    exists i :: 0 <= i < |s.commits| && IsCommit(s.commits[i], s.created[id], id, claims)
  }

  predicate IsCommit(c: Commit, e: Entry, id: string, claims: Claims) {
    c.id == id && claims == WithAudience(c.claims, e.aud) && CodeMatches(c.code, e.userCode)
  }

  ghost predicate SessionsOk(s: State) {
    forall id :: id in s.sessions ==>
      && id in s.created
      && SameIdentity(s.sessions[id], s.created[id])
      && (s.sessions[id].status.Pending? ==> !HasCommit(s.commits, id))
      && (s.sessions[id].status.Confirmed? ==> CommittedAs(s, id, s.sessions[id].status.claims))
  }

  predicate SameIdentity(a: Entry, b: Entry) {
    a.pollSecret == b.pollSecret && a.userCode == b.userCode && a.aud == b.aud
  }

  ghost predicate CommitsOk(s: State) {
    && (forall i :: 0 <= i < |s.commits| ==> s.commits[i].id in s.created)
    && (forall i, j :: 0 <= i < j < |s.commits| ==> s.commits[i].id != s.commits[j].id)
  }

  ghost predicate DeliveryOk(s: State, d: Delivery) {
    && d.id in s.created && d.id !in s.sessions
    && d.secret == s.created[d.id].pollSecret
    && CommittedAs(s, d.id, d.claims)
  }

  ghost predicate DeliveriesOk(s: State) {
    && (forall i :: 0 <= i < |s.deliveries| ==> DeliveryOk(s, s.deliveries[i]))
    && (forall i, j :: 0 <= i < j < |s.deliveries| ==> s.deliveries[i].id != s.deliveries[j].id)
  }

  ghost predicate CallsOk(s: State) {
    forall actor :: actor in s.calls && s.calls[actor].Committing? ==>
      s.calls[actor].id in s.created && CodeMatches(s.calls[actor].code, s.created[s.calls[actor].id].userCode)
  }

  ghost predicate Inv(s: State) {
    SessionsOk(s) && CommitsOk(s) && DeliveriesOk(s) && CallsOk(s)
  }

  /** Dropping entries, finishing calls and counting wrong codes keep the invariant. */
  lemma ShrinkKeepsInv(s: State, s': State)
    requires Inv(s)
    requires s'.created == s.created && s'.commits == s.commits && s'.deliveries == s.deliveries
    requires forall id :: id in s'.sessions ==>
               id in s.sessions && SameIdentity(s'.sessions[id], s.sessions[id]) && s'.sessions[id].status == s.sessions[id].status
    requires forall a :: a in s'.calls && s'.calls[a].Committing? ==> CommittingOk(s, s'.calls[a])
    ensures Inv(s')
  {
    hide CodeMatches, WithAudience;
    assert forall id, c :: id in s.created ==> (CommittedAs(s', id, c) <==> CommittedAs(s, id, c));
  }

  ghost predicate CommittingOk(s: State, p: Phase)
    requires p.Committing?
  {
    p.id in s.created && CodeMatches(p.code, s.created[p.id].userCode)
  }

  lemma CreateKeepsInv(s: State, id: string, e: Entry)
    requires Inv(s) && id !in s.created && e.status.Pending?
    ensures Inv(s.(sessions := s.sessions[id := e], created := s.created[id := e]))
  {
    hide CodeMatches, WithAudience;
    var s' := s.(sessions := s.sessions[id := e], created := s.created[id := e]);
    forall k, c | k in s.created && CommittedAs(s, k, c) ensures CommittedAs(s', k, c) {
      var i :| 0 <= i < |s.commits| && IsCommit(s.commits[i], s.created[k], k, c);
      assert IsCommit(s'.commits[i], s'.created[k], k, c);
    }
  }

  lemma CommitKeepsInv(s: State, actor: nat, id: string, code: Option<string>, claims: Claims)
    requires Inv(s) && actor in s.calls && s.calls[actor] == Committing(id, code, claims)
    ensures Inv(ApplyCommit(s, actor, id, code, claims))
  {
    hide CodeMatches, WithAudience;
    var s' := ApplyCommit(s, actor, id, code, claims);
    if s'.commits == s.commits {
      ShrinkKeepsInv(s, s');
    } else {
      CommitsGrow(s, s', Commit(id, code, claims));
      var n := |s.commits|;
      assert s'.commits[n] == Commit(id, code, claims);
      assert IsCommit(s'.commits[n], s.created[id], id, s'.sessions[id].status.claims);
      assert !HasCommit(s.commits, id);
      hide HasCommit, CommittedAs;
    }
  }

  /** One more commit adds nothing but itself. */
  lemma CommitsGrow(s: State, s': State, c: Commit)
    requires s'.created == s.created && s'.commits == s.commits + [c]
    ensures forall k, claims :: k in s.created && CommittedAs(s, k, claims) ==> CommittedAs(s', k, claims)
    ensures forall k :: k != c.id && HasCommit(s'.commits, k) ==> HasCommit(s.commits, k)
    ensures !HasCommit(s.commits, c.id) ==> forall i :: 0 <= i < |s.commits| ==> s'.commits[i].id != c.id
  {
    hide CodeMatches, WithAudience;
    forall k, claims | k in s.created && CommittedAs(s, k, claims) ensures CommittedAs(s', k, claims) {
      var i :| 0 <= i < |s.commits| && IsCommit(s.commits[i], s.created[k], k, claims);
      assert s'.commits[i] == s.commits[i];
    }
    forall k | k != c.id && HasCommit(s'.commits, k) ensures HasCommit(s.commits, k) {
      var i :| 0 <= i < |s'.commits| && s'.commits[i].id == k;
      assert s.commits[i].id == k;
    }
    assert forall i :: 0 <= i < |s.commits| ==> s'.commits[i] == s.commits[i];
  }

  lemma DeliverKeepsInv(s: State, actor: nat, id: string, secret: string)
    requires Inv(s) && actor in s.calls && s.calls[actor] == Claiming(id, secret)
    ensures Inv(ApplyPollRemove(s, actor, id, secret))
  {
    hide CodeMatches, WithAudience;
    var s' := ApplyPollRemove(s, actor, id, secret);
    if s'.deliveries == s.deliveries {
      ShrinkKeepsInv(s, s');
    } else {
      var mid := s'.(deliveries := s.deliveries);
      ShrinkKeepsInv(s, mid);
      assert forall k, c :: k in s.created ==> (CommittedAs(s', k, c) <==> CommittedAs(mid, k, c));
      assert forall i :: 0 <= i < |s.deliveries| ==> s'.deliveries[i] == s.deliveries[i];
      assert CommittedAs(s, id, s.sessions[id].status.claims) ==> CommittedAs(s', id, s.sessions[id].status.claims);
    }
  }

  lemma VerifyKeepsInv(ttl: real, s: State, actor: nat, id: string, code: Option<string>, confirming: Option<Claims>, now: real)
    requires Inv(s) && actor !in s.calls
    ensures Inv(ApplyVerify(ttl, s, actor, id, code, confirming, now))
  {
    assert id in s.sessions ==> id in s.created && SameIdentity(s.sessions[id], s.created[id]);
    hide CodeMatches, WithAudience, SessionsOk, CommitsOk, DeliveriesOk;
    ShrinkKeepsInv(s, ApplyVerify(ttl, s, actor, id, code, confirming, now));
  }

  lemma StepKeepsInv(ttl: real, s: State, step: Step)
    requires Inv(s)
    ensures Inv(Apply(ttl, s, step))
  {
    hide CodeMatches, WithAudience, SessionsOk, CommitsOk, DeliveriesOk, ApplyVerify, ApplyCommit, ApplyPollRemove;
    var s' := Apply(ttl, s, step);
    match step {
      case CreateEntry(info, aud, now) =>
        if info.id !in s.created { CreateKeepsInv(s, info.id, Entry(now, info.pollSecret, info.userCode, 0, aud, Pending)); }
      case CommitEntry(actor) =>
        if actor in s.calls && s.calls[actor].Committing? {
          CommitKeepsInv(s, actor, s.calls[actor].id, s.calls[actor].code, s.calls[actor].claims);
        }
      case PollRemove(actor) =>
        if actor in s.calls && s.calls[actor].Claiming? {
          DeliverKeepsInv(s, actor, s.calls[actor].id, s.calls[actor].secret);
        }
      case VerifyEntry(actor, id, code, confirming, now) =>
        if actor !in s.calls { VerifyKeepsInv(ttl, s, actor, id, code, confirming, now); }
      case RemoveEntry(_) => ShrinkKeepsInv(s, s');
      case PollRead(_, _, _, _) => ShrinkKeepsInv(s, s');
      case CleanupEntry(_, _) => ShrinkKeepsInv(s, s');
    }
  }

  lemma {:induction false} EveryRunKeepsInv(ttl: real, steps: seq<Step>)
    ensures Inv(Exec(ttl, steps))
  {
    if |steps| == 0 {
    } else {
      EveryRunKeepsInv(ttl, steps[..|steps| - 1]);
      StepKeepsInv(ttl, Exec(ttl, steps[..|steps| - 1]), steps[|steps| - 1]);
    }
  }

  /** In every interleaving a session is confirmed at most once, and its claims are handed out at
      most once. */
  lemma OneTimeUse(ttl: real, steps: seq<Step>)
    ensures var s := Exec(ttl, steps);
            && (forall i, j :: 0 <= i < j < |s.commits| ==> s.commits[i].id != s.commits[j].id)
            && (forall i, j :: 0 <= i < j < |s.deliveries| ==> s.deliveries[i].id != s.deliveries[j].id)
            && (forall i :: 0 <= i < |s.deliveries| ==> s.deliveries[i].id !in s.sessions)
  {
    EveryRunKeepsInv(ttl, steps);
    var s := Exec(ttl, steps);
    forall i | 0 <= i < |s.deliveries| ensures s.deliveries[i].id !in s.sessions {
      assert DeliveryOk(s, s.deliveries[i]);
    }
  }

  /** What is handed out, in every interleaving: only to the session's own poll secret, and exactly
      the claims of its one confirmation, whose user code matched, with the session's audience
      substituted when it has one. */
  lemma RightDelivery(ttl: real, steps: seq<Step>, k: nat)
    requires k < |Exec(ttl, steps).deliveries|
    ensures var s := Exec(ttl, steps);
            var d := s.deliveries[k];
            && d.id in s.created
            && d.secret == s.created[d.id].pollSecret
            && (s.created[d.id].aud.Some? ==> d.claims.aud == s.created[d.id].aud)
            && exists i :: && 0 <= i < |s.commits| && IsCommit(s.commits[i], s.created[d.id], d.id, d.claims)
                           && d.claims == s.commits[i].claims.(aud := d.claims.aud)
                           && (s.created[d.id].aud.None? ==> d.claims == s.commits[i].claims)
  {
    EveryRunKeepsInv(ttl, steps);
    var s := Exec(ttl, steps);
    var d := s.deliveries[k];
    assert DeliveryOk(s, d);
    hide CodeMatches, Exec, Inv;
    var i :| 0 <= i < |s.commits| && IsCommit(s.commits[i], s.created[d.id], d.id, d.claims);
    assert d.claims == s.commits[i].claims.(aud := d.claims.aud);
  }

  /** A creation is never overwritten or forgotten, so the secret, code and audience a session
      was created with are the ones the other guarantees speak of. */
  lemma {:induction false} CreationsStand(ttl: real, steps: seq<Step>, more: seq<Step>, id: string)
    requires id in Exec(ttl, steps).created
    ensures id in Exec(ttl, steps + more).created
    ensures Exec(ttl, steps + more).created[id] == Exec(ttl, steps).created[id]
  {
    if |more| == 0 {
      assert steps + more == steps;
    } else {
      CreationsStand(ttl, steps, more[..|more| - 1], id);
      assert (steps + more)[..|steps + more| - 1] == steps + more[..|more| - 1];
      StepKeepsCreation(ttl, Exec(ttl, steps + more[..|more| - 1]), more[|more| - 1], id);
      hide Apply;
    }
  }

  lemma StepKeepsCreation(ttl: real, s: State, step: Step, id: string)
    requires id in s.created
    ensures id in Apply(ttl, s, step).created && Apply(ttl, s, step).created[id] == s.created[id]
  {
    hide CodeMatches, WithAudience;
  }

  // ------------------------------------------------------------- agreement with the calls

  /** A creation of a fresh id enters what the call enters when there is room. */
  lemma CreateAlone(ttl: real, s: State, info: Info, aud: Option<string>, now: real, store: Store)
    requires info.id !in s.created && store.sessions == s.sessions && |s.sessions| < MAX_ACTIVE_SESSIONS
    ensures var s' := Apply(ttl, s, CreateEntry(info, aud, now));
            && s'.sessions == Insert(ttl, store, aud, info, now).0.sessions
            && s'.created == s.created[info.id := s'.sessions[info.id]] && s'.calls == s.calls
  {
  }

  /** The steps of a cleanup over `ids`. */
  function CleanupSteps(ids: seq<string>, now: real): seq<Step> {
    seq(|ids|, i requires 0 <= i < |ids| => CleanupEntry(ids[i], now))
  }

  function ExecFrom(ttl: real, s: State, steps: seq<Step>): State {
    if |steps| == 0 then s else Apply(ttl, ExecFrom(ttl, s, steps[..|steps| - 1]), steps[|steps| - 1])
  }

  /** Undisturbed, cleaning up every id there is leaves exactly the live sessions. */
  lemma CleanupAlone(ttl: real, s: State, ids: seq<string>, now: real)
    requires forall id :: id in s.sessions ==> id in ids
    ensures ExecFrom(ttl, s, CleanupSteps(ids, now)) == s.(sessions := Live(ttl, s.sessions, now))
  {
    CleanedUp(ttl, s, ids, now);
    assert ExecFrom(ttl, s, CleanupSteps(ids, now)).sessions == Live(ttl, s.sessions, now);
  }

  lemma {:induction false} CleanedUp(ttl: real, s: State, ids: seq<string>, now: real)
    ensures var s' := ExecFrom(ttl, s, CleanupSteps(ids, now));
            && s' == s.(sessions := s'.sessions)
            && s'.sessions == map id | id in s.sessions && !(id in ids && now - s.sessions[id].createdAt > ttl) :: s.sessions[id]
  {
    if |ids| == 0 {
      assert CleanupSteps(ids, now) == [];
    } else {
      var n := |ids| - 1;
      CleanedUp(ttl, s, ids[..n], now);
      assert CleanupSteps(ids, now)[..n] == CleanupSteps(ids[..n], now);
      assert ids == ids[..n] + [ids[n]];
    }
  }

  /** Undisturbed, the pieces of a verification make up the call. */
  lemma VerifyAlone(ttl: real, s: State, actor: nat, id: string, code: Option<string>, now: real)
    requires actor !in s.calls
    ensures var s' := Apply(ttl, Apply(ttl, s, VerifyEntry(actor, id, code, None, now)), RemoveEntry(actor));
            s'.sessions == Verify(ttl, s.sessions, id, code, now).0 && s'.calls == s.calls && s'.commits == s.commits
  {
    hide CodeMatches, WithAudience;
    PutThenRemove(s.calls, actor, Removing(id));
    if id in s.sessions {
      var e := s.sessions[id];
      PutThenRemove(s.sessions, id, e.(failedAttempts := e.failedAttempts + 1));
    }
  }

  /** Undisturbed, the pieces of a confirmation make up the call, and it is logged exactly when it
      succeeds. */
  lemma ConfirmAlone(ttl: real, s: State, actor: nat, id: string, code: Option<string>, claims: Claims, now: real)
    requires actor !in s.calls
    ensures var verified := Apply(ttl, s, VerifyEntry(actor, id, code, Some(claims), now));
            var s' := Apply(ttl, Apply(ttl, verified, RemoveEntry(actor)), CommitEntry(actor));
            var (sessions, r) := Confirm(ttl, s.sessions, id, code, claims, now);
            && s'.sessions == sessions && s'.calls == s.calls
            && s'.commits == s.commits + if r.Ok? then [Commit(id, code, claims)] else []
  {
    hide CodeMatches, WithAudience;
    PutThenRemove(s.calls, actor, Removing(id));
    PutThenRemove(s.calls, actor, Committing(id, code, claims));
    if id in s.sessions {
      var e := s.sessions[id];
      PutThenRemove(s.sessions, id, e.(failedAttempts := e.failedAttempts + 1));
    }
  }

  /** Undisturbed, the pieces of a poll make up the call, and claims are logged exactly when they
      are handed out. */
  lemma PollAlone(ttl: real, s: State, actor: nat, id: string, secret: string, now: real)
    requires actor !in s.calls
    ensures var read := Apply(ttl, s, PollRead(actor, id, secret, now));
            var s' := Apply(ttl, Apply(ttl, read, RemoveEntry(actor)), PollRemove(actor));
            var (sessions, r) := Poll(ttl, s.sessions, id, secret, now);
            && s'.sessions == sessions && s'.calls == s.calls
            && s'.deliveries == s.deliveries + if r.Ok? && r.value.Confirmed? then [Delivery(id, secret, r.value.claims)] else []
  {
    PutThenRemove(s.calls, actor, Removing(id));
    PutThenRemove(s.calls, actor, Claiming(id, secret));
  }
}
