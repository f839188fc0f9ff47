/** What whole runs of session-store calls guarantee: how many sessions one address can create
    in a minute, and how often one session's code can be guessed. */
module SessionLaws {
  import opened Prelude
  import opened ClientIp
  import opened SessionStore

  datatype Event =
    | CreateCall(raw: Option<IpAddr>, aud: Option<string>, info: Info, at: real, contended: bool)
    | VerifyCall(id: string, code: Option<string>, at: real)
    | ConfirmCall(id: string, code: Option<string>, claims: Claims, at: real)
    | PollCall(id: string, secret: string, at: real)
    | CleanupCall(at: real)

  ghost predicate Ordered(events: seq<Event>) {
    forall i, j :: 0 <= i <= j < |events| ==> events[i].at <= events[j].at
  }

  function CreateAt(ttl: real, s: Store, e: Event): (Store, CreateOutcome)
    requires e.CreateCall?
  {
    Create(ttl, s, e.raw, e.aud, e.info, e.at, e.contended)
  }

  function Step(ttl: real, s: Store, e: Event): Store {
    match e
    case CreateCall(_, _, _, _, _) => CreateAt(ttl, s, e).0
    case VerifyCall(id, code, at) => s.(sessions := Verify(ttl, s.sessions, id, code, at).0)
    case ConfirmCall(id, code, claims, at) => s.(sessions := Confirm(ttl, s.sessions, id, code, claims, at).0)
    case PollCall(id, secret, at) => s.(sessions := Poll(ttl, s.sessions, id, secret, at).0)
    case CleanupCall(at) => CleanupForce(ttl, s, at)
  }

  function Run(ttl: real, events: seq<Event>): Store {
    if |events| == 0 then Store(map[], map[], 0.0)
    else Step(ttl, Run(ttl, events[..|events| - 1]), events[|events| - 1])
  }

  /** The answer to the `i`-th event, a creation. */
  function OutcomeAt(ttl: real, events: seq<Event>, i: nat): CreateOutcome
    requires i < |events| && events[i].CreateCall?
  {
    CreateAt(ttl, Run(ttl, events[..i]), events[i]).1
  }

  // ------------------------------------------------------------------ creations per minute

  predicate CreatesFor(e: Event, ip: IpAddr) {
    e.CreateCall? && e.raw.Some? && CanonicalClientIp(e.raw.value) == ip
  }

  /** The reference record of `ip`: counted on every request that the table had room for, and
      never pruned. */
  function RefRate(ttl: real, events: seq<Event>, ip: IpAddr): Option<Rate> {
    if |events| == 0 then None
    else
      var n := |events| - 1;
      var ref := RefRate(ttl, events[..n], ip);
      if CreatesFor(events[n], ip) && OutcomeAt(ttl, events, n) != TableFull
      then Some(Count(OrNew(ref, events[n].at), events[n].at).0) else ref
  }

  function OrNew(ref: Option<Rate>, now: real): Rate {
    if ref.Some? then ref.value else Rate(0, now)
  }

  /** The table entry is the reference record, or missing because that has run out. */
  predicate Tracks(rates: Rates, ip: IpAddr, ref: Option<Rate>, now: real) {
    if ip in rates then ref == Some(rates[ip]) else ref.Some? ==> now - ref.value.start > RATE_LIMIT_WINDOW
  }

  lemma PrunedTracks(ttl: real, s: Store, ip: IpAddr, ref: Option<Rate>, now: real, contended: bool)
    requires Tracks(s.rates, ip, ref, now)
    ensures Tracks(CleanupForce(ttl, s, now).rates, ip, ref, now)
    ensures Tracks(MaybeCleanup(ttl, s, now, contended).rates, ip, ref, now)
  {
  }

  /** The per-address gate decides as the reference record does. */
  lemma GateTracks(ttl: real, s: Store, gated: IpAddr, ip: IpAddr, ref: Option<Rate>, now: real)
    requires Tracks(s.rates, ip, ref, now)
    ensures var (s', refused) := RateGate(ttl, s, gated, now);
            var (record, ok) := Count(OrNew(ref, now), now);
            if gated == ip && refused != Some(TableFull)
            then refused == (if ok then None else Some(RateLimited)) && Tracks(s'.rates, ip, Some(record), now)
            else Tracks(s'.rates, ip, ref, now)
  {
    PrunedTracks(ttl, s, ip, ref, now, true);
  }

  lemma InsertTracks(ttl: real, s: Store, aud: Option<string>, info: Info, ip: IpAddr, ref: Option<Rate>, now: real)
    requires Tracks(s.rates, ip, ref, now)
    ensures Tracks(Insert(ttl, s, aud, info, now).0.rates, ip, ref, now)
  {
    PrunedTracks(ttl, s, ip, ref, now, true);
  }

  lemma CreateTracks(ttl: real, s: Store, e: Event, ip: IpAddr, ref: Option<Rate>)
    requires e.CreateCall? && Tracks(s.rates, ip, ref, e.at)
    ensures var (s', o) := CreateAt(ttl, s, e);
            var (record, ok) := Count(OrNew(ref, e.at), e.at);
            if CreatesFor(e, ip) && o != TableFull then (o == RateLimited <==> !ok) && Tracks(s'.rates, ip, Some(record), e.at)
            else Tracks(s'.rates, ip, ref, e.at)
  {
    hide Tracks, RateGate, Count, CleanupForce;
    var s1 := MaybeCleanup(ttl, s, e.at, e.contended);
    PrunedTracks(ttl, s, ip, ref, e.at, e.contended);
    if e.raw.None? {
      InsertTracks(ttl, s1, e.aud, e.info, ip, ref, e.at);
    } else {
      var gated := CanonicalClientIp(e.raw.value);
      GateTracks(ttl, s1, gated, ip, ref, e.at);
      var (s2, refused) := RateGate(ttl, s1, gated, e.at);
      if refused.None? {
        var after := if gated == ip then Some(Count(OrNew(ref, e.at), e.at).0) else ref;
        InsertTracks(ttl, s2, e.aud, e.info, ip, after, e.at);
      } else {
        GateRefusals(ttl, s1, gated, e.at);
      }
    }
  }

  lemma GateRefusals(ttl: real, s: Store, ip: IpAddr, now: real)
    ensures RateGate(ttl, s, ip, now).1 in {None, Some(TableFull), Some(RateLimited)}
  {
  }

  lemma {:induction false} RunTracks(ttl: real, events: seq<Event>, ip: IpAddr, now: real)
    requires Ordered(events) && (|events| > 0 ==> events[|events| - 1].at <= now)
    ensures Tracks(Run(ttl, events).rates, ip, RefRate(ttl, events, ip), now)
  {
    if |events| == 0 {
    } else {
      var n := |events| - 1;
      var e, s := events[n], Run(ttl, events[..n]);
      RunTracks(ttl, events[..n], ip, e.at);
      if e.CreateCall? {
        CreateTracks(ttl, s, e, ip, RefRate(ttl, events[..n], ip));
      } else {
        PrunedTracks(ttl, s, ip, RefRate(ttl, events[..n], ip), e.at, true);
      }
    }
  }

  /** Pruning is invisible: a creation the table has room for is rate limited exactly when the
      never-pruned record of its address says so. */
  lemma PruningKeepsLimit(ttl: real, events: seq<Event>, i: nat)
    requires Ordered(events) && i < |events| && events[i].CreateCall? && events[i].raw.Some?
    requires OutcomeAt(ttl, events, i) != TableFull
    ensures var ip, at := CanonicalClientIp(events[i].raw.value), events[i].at;
            OutcomeAt(ttl, events, i) == RateLimited <==> !Count(OrNew(RefRate(ttl, events[..i], ip), at), at).1
  {
    var ip := CanonicalClientIp(events[i].raw.value);
    RunTracks(ttl, events[..i], ip, events[i].at);
    CreateTracks(ttl, Run(ttl, events[..i]), events[i], ip, RefRate(ttl, events[..i], ip));
  }

  /** Event `n` creates a session for `ip`. */
  predicate Creates(ttl: real, events: seq<Event>, ip: IpAddr, n: nat)
    requires n < |events|
  {
    CreatesFor(events[n], ip) && OutcomeAt(ttl, events, n) == Created
  }

  /** Sessions created for `ip` by events `i` up to `j`. */
  function CreatedIn(ttl: real, events: seq<Event>, ip: IpAddr, i: nat, j: nat): nat
    requires i <= j <= |events|
    decreases j
  {
    if i == j then 0
    else
      CreatedIn(ttl, events, ip, i, j - 1)
      + if Creates(ttl, events, ip, j - 1) then 1 else 0
  }

  /** Requests a record has let through. */
  function LetThrough(record: Rate): nat {
    if record.count <= MAX_LOGIN_REQUESTS then record.count else MAX_LOGIN_REQUESTS
  }

  /** What the record of the running window says about creations since time `since`: all of them
      belong to it, or at most 14 more belong to the window before, whose first request came
      before `since`. */
  predicate WindowBound(ref: Option<Rate>, since: real, created: nat) {
    match ref
    case None => created == 0
    case Some(record) =>
      && record.count >= 1
      && (created > 0 ==> since - record.start <= RATE_LIMIT_WINDOW)
      && created <= LetThrough(record) +
         (if record.start < since then -1 else if record.start == since then 0 else MAX_LOGIN_REQUESTS - 1)
  }

  lemma {:induction false} RefStarted(ttl: real, events: seq<Event>, ip: IpAddr, now: real)
    requires Ordered(events) && (|events| > 0 ==> events[|events| - 1].at <= now)
    ensures var ref := RefRate(ttl, events, ip); ref.Some? ==> ref.value.count >= 1 && ref.value.start <= now
  {
    if |events| == 0 {
    } else {
      RefStarted(ttl, events[..|events| - 1], ip, events[|events| - 1].at);
    }
  }

  lemma RefRateNext(ttl: real, events: seq<Event>, ip: IpAddr, n: nat)
    requires n < |events|
    ensures RefRate(ttl, events[..n + 1], ip) ==
            var e, ref := events[n], RefRate(ttl, events[..n], ip);
            if CreatesFor(e, ip) && OutcomeAt(ttl, events, n) != TableFull then Some(Count(OrNew(ref, e.at), e.at).0) else ref
  {
    hide Count, Create, CanonicalClientIp;
    assert events[..n + 1][..n] == events[..n];
  }

  lemma WindowStart(ttl: real, events: seq<Event>, ip: IpAddr, j: nat, now: real)
    requires Ordered(events) && j <= |events| && (j > 0 ==> events[j - 1].at <= now)
    ensures var ref := RefRate(ttl, events[..j], ip);
            (ref.Some? ==> ref.value.start <= now) && WindowBound(ref, now, 0)
  {
    hide RefRate;
    RefStarted(ttl, events[..j], ip, now);
  }

  lemma WindowStep(ttl: real, events: seq<Event>, ip: IpAddr, since: real, n: nat, created: nat)
    requires Ordered(events) && n < |events| && since <= events[n].at <= since + RATE_LIMIT_WINDOW
    requires WindowBound(RefRate(ttl, events[..n], ip), since, created)
    ensures WindowBound(RefRate(ttl, events[..n + 1], ip), since, if Creates(ttl, events, ip, n) then created + 1 else created)
  {
    var e := events[n];
    WindowStart(ttl, events, ip, n, e.at);
    hide Ordered, WindowBound, Count, OutcomeAt, RefRate, CanonicalClientIp;
    RefRateNext(ttl, events, ip, n);
    if CreatesFor(e, ip) && OutcomeAt(ttl, events, n) != TableFull {
      PruningKeepsLimit(ttl, events, n);
      CountStep(RefRate(ttl, events[..n], ip), since, e.at, created);
    }
  }

  lemma {:induction false} WindowInvariant(ttl: real, events: seq<Event>, ip: IpAddr, i: nat, j: nat)
    requires Ordered(events) && i <= j <= |events| && i < |events|
    requires j > i ==> events[j - 1].at - events[i].at <= RATE_LIMIT_WINDOW
    ensures WindowBound(RefRate(ttl, events[..j], ip), events[i].at, CreatedIn(ttl, events, ip, i, j))
    decreases j
  {
    hide WindowBound, OutcomeAt, RefRate, CreatesFor;
    if i == j {
      WindowStart(ttl, events, ip, j, events[i].at);
    } else {
      WindowInvariant(ttl, events, ip, i, j - 1);
      WindowStep(ttl, events, ip, events[i].at, j - 1, CreatedIn(ttl, events, ip, i, j - 1));
    }
  }

  lemma CountStep(ref: Option<Rate>, since: real, now: real, created: nat)
    requires WindowBound(ref, since, created) && since <= now <= since + RATE_LIMIT_WINDOW
    requires ref.Some? ==> ref.value.start <= now
    ensures var (record, ok) := Count(OrNew(ref, now), now);
            WindowBound(Some(record), since, if ok then created + 1 else created) && WindowBound(Some(record), since, created)
  {
  }

  /** In any 60 seconds one canonical address creates at most 29 sessions: two windows of 15 can
      overlap the stretch, but then the request that opened the earlier one lies before it. */
  lemma CreationsPerMinute(ttl: real, events: seq<Event>, ip: IpAddr, i: nat, j: nat)
    requires Ordered(events) && i < j <= |events| && events[j - 1].at - events[i].at <= RATE_LIMIT_WINDOW
    ensures CreatedIn(ttl, events, ip, i, j) <= 2 * MAX_LOGIN_REQUESTS - 1
  {
    WindowInvariant(ttl, events, ip, i, j);
  }

  /** Creation number `k` of a client that reuses one address. */
  function NthCreation(host: IpAddr, k: nat, at: real): Event {
    CreateCall(Some(host), None, Info(seq(k, _ => 'x'), "", ""), at, true)
  }

  function BusyTime(k: nat): real {
    if k == 0 then 0.0 else if k < 15 then 60.0 else 61.0
  }

  /** One request, then 14 a minute later, then 15 a second after that. */
  function BusyMinute(host: IpAddr): (events: seq<Event>)
    ensures |events| == 30
    ensures forall k :: 0 <= k < 30 ==> events[k] == NthCreation(host, k, BusyTime(k))
  {
    seq(30, k requires 0 <= k < 30 => NthCreation(host, k, BusyTime(k)))
  }

  predicate OnlyHost(rates: Rates, host: IpAddr, record: Option<Rate>) {
    rates == if record.Some? then map[host := record.value] else map[]
  }

  lemma CreationSucceeds(ttl: real, s: Store, host: IpAddr, k: nat, at: real, record: Option<Rate>)
    requires IsCanonical(host) && OnlyHost(s.rates, host, record) && |s.sessions| <= k < MAX_ACTIVE_SESSIONS
    requires Count(OrNew(record, at), at).1
    ensures var (s', o) := CreateAt(ttl, s, NthCreation(host, k, at));
            && o == Created && |s'.sessions| <= k + 1
            && OnlyHost(s'.rates, host, Some(Count(OrNew(record, at), at).0))
  {
    var e := NthCreation(host, k, at);
    assert |s.rates| <= 1 by { SubsetSize(s.rates.Keys, {host}); }
    var entry := Entry(at, "", "", 0, None, Pending);
    UpdateSize(s.sessions, e.info.id, entry);
  }

  /** The record of the host after `n` events of the busy minute. */
  function BusyRecord(n: nat): Option<Rate> {
    if n == 0 then None else if n <= 15 then Some(Rate(n, 0.0)) else Some(Rate(n - 15, 61.0))
  }

  lemma BusyCount(n: nat)
    requires n < 30
    ensures BusyRecord(n + 1).Some?
    ensures Count(OrNew(BusyRecord(n), BusyTime(n)), BusyTime(n)) == (BusyRecord(n + 1).value, true)
  {
  }

  lemma {:induction false} BusyRun(ttl: real, host: IpAddr, events: seq<Event>, n: nat)
    requires IsCanonical(host) && n <= 30 && events == BusyMinute(host)
    ensures var s := Run(ttl, events[..n]); |s.sessions| <= n && OnlyHost(s.rates, host, BusyRecord(n))
    ensures n > 0 ==> CreatedIn(ttl, events, host, 1, n) == n - 1
  {
    hide CreateAt, BusyMinute, NthCreation, Count, BusyRecord, OnlyHost;
    if n == 0 {
      BusyStart(host);
    } else {
      var k := n - 1;
      BusyRun(ttl, host, events, k);
      BusyCount(k);
      CreationSucceeds(ttl, Run(ttl, events[..k]), host, k, BusyTime(k), BusyRecord(k));
      NthCreates(host, k, BusyTime(k));
      assert events[..n][..k] == events[..k] && events[..n][k] == events[k];
    }
  }

  lemma BusyStart(host: IpAddr)
    ensures OnlyHost(map[], host, BusyRecord(0))
  {
  }

  lemma NthCreates(host: IpAddr, k: nat, at: real)
    requires IsCanonical(host)
    ensures CreatesFor(NthCreation(host, k, at), host)
  {
  }

  /** The bound is attained, by a run with fresh ids in which 29 creations fall within a second. */
  lemma CreationsPerMinuteTight(ttl: real, host: IpAddr)
    requires IsCanonical(host)
    ensures var events := BusyMinute(host);
            && Ordered(events) && FreshIds(events)
            && events[29].at - events[1].at <= 1.0
            && CreatedIn(ttl, events, host, 1, 30) == 2 * MAX_LOGIN_REQUESTS - 1
  {
    hide BusyMinute, CreatedIn;
    var events := BusyMinute(host);
    BusyRun(ttl, host, events, 30);
    forall i, j | 0 <= i < j < 30 ensures events[i].info.id != events[j].info.id {
      assert |events[i].info.id| == i && |events[j].info.id| == j;
    }
  }

  // --------------------------------------------------------------------- guessing a code

  ghost predicate FreshIds(events: seq<Event>) {
    forall i, j :: 0 <= i < j < |events| && events[i].CreateCall? && events[j].CreateCall? ==> events[i].info.id != events[j].info.id
  }

  ghost predicate IdUsed(events: seq<Event>, id: string) {
    exists i :: 0 <= i < |events| && events[i].CreateCall? && events[i].info.id == id
  }

  predicate Guesses(e: Event, id: string) {
    (e.VerifyCall? || e.ConfirmCall?) && e.id == id
  }

  /** The answer to a verification or confirmation. */
  function AnswerTo(ttl: real, s: Store, e: Event): Result<(), ConfirmError>
    requires e.VerifyCall? || e.ConfirmCall?
  {
    match e
    case VerifyCall(id, code, at) => Verify(ttl, s.sessions, id, code, at).1
    case ConfirmCall(id, code, claims, at) => Confirm(ttl, s.sessions, id, code, claims, at).1
  }

  /** Wrong codes answered as such for `id`. */
  function WrongGuesses(ttl: real, events: seq<Event>, id: string): nat {
    if |events| == 0 then 0
    else
      var n := |events| - 1;
      WrongGuesses(ttl, events[..n], id)
      + if Guesses(events[n], id) && AnswerTo(ttl, Run(ttl, events[..n]), events[n]) == Err(InvalidUserCode) then 1 else 0
  }

  /** A session that is still there has counted every wrong code, and fewer than three. */
  ghost predicate GuessesCounted(s: Store, used: bool, wrong: nat, id: string) {
    && (id in s.sessions ==> used && s.sessions[id].failedAttempts == wrong < MAX_CONFIRM_ATTEMPTS)
    && wrong <= MAX_CONFIRM_ATTEMPTS
    && (!used ==> wrong == 0)
  }

  lemma CreateCounts(ttl: real, s: Store, e: Event, used: bool, wrong: nat, id: string)
    requires e.CreateCall? && GuessesCounted(s, used, wrong, id) && (e.info.id == id ==> !used)
    ensures GuessesCounted(CreateAt(ttl, s, e).0, used || e.info.id == id, wrong, id)
  {
    var s1 := MaybeCleanup(ttl, s, e.at, e.contended);
    assert GuessesCounted(s1, used, wrong, id);
    if e.raw.Some? {
      var (s2, refused) := RateGate(ttl, s1, CanonicalClientIp(e.raw.value), e.at);
      assert GuessesCounted(s2, used, wrong, id);
    }
  }

  lemma OtherCounts(ttl: real, s: Store, e: Event, used: bool, wrong: nat, id: string)
    requires !e.CreateCall? && GuessesCounted(s, used, wrong, id)
    ensures GuessesCounted(Step(ttl, s, e), used,
                           if Guesses(e, id) && AnswerTo(ttl, s, e) == Err(InvalidUserCode) then wrong + 1 else wrong, id)
  {
    hide CodeMatches;
  }

  lemma IdUsedUnfolds(events: seq<Event>, id: string)
    requires |events| > 0
    ensures var n := |events| - 1;
            IdUsed(events, id) <==> IdUsed(events[..n], id) || (events[n].CreateCall? && events[n].info.id == id)
  {
    var n := |events| - 1;
    assert forall i :: 0 <= i < n ==> events[..n][i] == events[i];
  }

  lemma {:induction false} RunCounts(ttl: real, events: seq<Event>, id: string)
    requires FreshIds(events)
    ensures GuessesCounted(Run(ttl, events), IdUsed(events, id), WrongGuesses(ttl, events, id), id)
  {
    if |events| == 0 {
    } else {
      var n := |events| - 1;
      var e := events[n];
      RunCounts(ttl, events[..n], id);
      IdUsedUnfolds(events, id);
      var s, used, wrong := Run(ttl, events[..n]), IdUsed(events[..n], id), WrongGuesses(ttl, events[..n], id);
      if e.CreateCall? {
        hide Create, GuessesCounted;
        assert e.info.id == id ==> !used;
        CreateCounts(ttl, s, e, used, wrong, id);
      } else {
        OtherCounts(ttl, s, e, used, wrong, id);
      }
    }
  }

  /** No session ever answers more than three wrong codes, and after the third it is gone for
      good: every later verification and poll finds nothing. */
  lemma LockedOutAfterThree(ttl: real, events: seq<Event>, id: string)
    requires FreshIds(events)
    ensures WrongGuesses(ttl, events, id) <= MAX_CONFIRM_ATTEMPTS
    ensures WrongGuesses(ttl, events, id) == MAX_CONFIRM_ATTEMPTS ==>
              && (forall e: Event :: Guesses(e, id) ==> AnswerTo(ttl, Run(ttl, events), e) == Err(NotFound))
              && (forall secret, at :: Poll(ttl, Run(ttl, events).sessions, id, secret, at).1 == Err(PollNotFound))
  {
    RunCounts(ttl, events, id);
  }

  /** A cleanup is invisible to the calls after it, but for the name of the error a session that has
      expired meanwhile gives: it is not found, whatever code or secret comes with it. */
  lemma CleanupInvisible(ttl: real, s: Store, id: string, code: Option<string>, secret: string, at: real, now: real)
    requires at <= now
    ensures var before, after := s.sessions, CleanupForce(ttl, s, at).sessions;
            if id in before && at - before[id].createdAt > ttl
            then id !in after && Verify(ttl, before, id, code, now).1 == Err(Expired)
                 && Verify(ttl, after, id, code, now).1 == Err(NotFound) && Poll(ttl, before, id, secret, now).1.Err?
                 && Poll(ttl, after, id, secret, now).1 == Err(PollNotFound)
            else Verify(ttl, after, id, code, now).1 == Verify(ttl, before, id, code, now).1
                 && Poll(ttl, after, id, secret, now).1 == Poll(ttl, before, id, secret, now).1
  {
    hide CodeMatches;
  }

  // --------------------------------------------------------------------- room and cleanups

  /** The sessions that have not expired, and the addresses whose window still runs. */
  function Unexpired(ttl: real, s: Store, now: real): set<string> {
    set id | id in s.sessions && now - s.sessions[id].createdAt <= ttl
  }

  function Counting(s: Store, now: real): set<IpAddr> {
    set ip | ip in s.rates && now - s.rates[ip].start <= RATE_LIMIT_WINDOW
  }

  predicate CleanupDue(s: Store, now: real, contended: bool) {
    !contended && now - s.lastCleanup >= CLEANUP_INTERVAL
  }

  lemma CleanupKeys(ttl: real, s: Store, now: real)
    ensures var s' := CleanupForce(ttl, s, now);
            && s'.sessions.Keys == Unexpired(ttl, s, now) == Unexpired(ttl, s', now)
            && s'.rates.Keys == Counting(s, now) == Counting(s', now)
            && |s'.sessions| == |Unexpired(ttl, s, now)| && |s'.rates| == |Counting(s, now)|
    ensures Unexpired(ttl, s, now) <= s.sessions.Keys && Counting(s, now) <= s.rates.Keys
  {
  }

  /** A session is refused for lack of room exactly when 5,000 have not expired: a full store is cleaned
      up first. */
  lemma StoreFullIff(ttl: real, s: Store, aud: Option<string>, info: Info, now: real)
    ensures Insert(ttl, s, aud, info, now).1 == (if |Unexpired(ttl, s, now)| >= MAX_ACTIVE_SESSIONS then StoreFull else Created)
  {
    CleanupKeys(ttl, s, now);
    SubsetSize(Unexpired(ttl, s, now), s.sessions.Keys);
    hide CleanupForce, Unexpired, Counting;
  }

  /** An address is refused for lack of room exactly when it has no record and 10,000 windows still
      run. */
  lemma TableFullIff(ttl: real, s: Store, ip: IpAddr, now: real)
    ensures RateGate(ttl, s, ip, now).1 == Some(TableFull) <==> ip !in s.rates && |Counting(s, now)| >= MAX_ACTIVE_SESSIONS * 2
  {
    CleanupKeys(ttl, s, now);
    SubsetSize(Counting(s, now), s.rates.Keys);
    hide CleanupForce, Unexpired, Counting, Count;
  }

  /** The answer to a creation, by the sessions and windows still running. */
  lemma CreateAnswer(ttl: real, s: Store, e: Event)
    requires e.CreateCall?
    ensures var s1 := MaybeCleanup(ttl, s, e.at, e.contended);
            var o := CreateAt(ttl, s, e).1;
            && (o == TableFull <==>
                  e.raw.Some? && CanonicalClientIp(e.raw.value) !in s1.rates && |Counting(s, e.at)| >= MAX_ACTIVE_SESSIONS * 2)
            && (o == StoreFull || o == Created ==> (o == StoreFull <==> |Unexpired(ttl, s, e.at)| >= MAX_ACTIVE_SESSIONS))
  {
    var s1 := MaybeCleanup(ttl, s, e.at, e.contended);
    CleanupKeys(ttl, s, e.at);
    assert Unexpired(ttl, s1, e.at) == Unexpired(ttl, s, e.at) && Counting(s1, e.at) == Counting(s, e.at);
    if e.raw.None? {
      StoreFullIff(ttl, s1, e.aud, e.info, e.at);
    } else {
      var ip := CanonicalClientIp(e.raw.value);
      TableFullIff(ttl, s1, ip, e.at);
      GateRefusals(ttl, s1, ip, e.at);
      var s2 := RateGate(ttl, s1, ip, e.at).0;
      GateKeepsUnexpired(ttl, s1, ip, e.at);
      StoreFullIff(ttl, s2, e.aud, e.info, e.at);
    }
    hide MaybeCleanup, RateGate, Insert, Unexpired, Counting, CanonicalClientIp;
  }

  lemma GateKeepsUnexpired(ttl: real, s: Store, ip: IpAddr, now: real)
    ensures Unexpired(ttl, RateGate(ttl, s, ip, now).0, now) == Unexpired(ttl, s, now)
  {
    CleanupKeys(ttl, s, now);
    hide Count;
  }

  /** A creation ten seconds or more after the last cleanup, and not kept off by another, leaves no
      session expired and no window run out, but for those it makes itself. */
  lemma CleanupWhenDue(ttl: real, s: Store, e: Event)
    requires e.CreateCall? && CleanupDue(s, e.at, e.contended)
    ensures var s' := CreateAt(ttl, s, e).0; s'.lastCleanup == e.at && CleanBut(ttl, s', e.info.id, e.at)
  {
    var s1 := MaybeCleanup(ttl, s, e.at, e.contended);
    assert s1.lastCleanup == e.at && CleanBut(ttl, s1, e.info.id, e.at);
    InsertStaysClean(ttl, s1, e.aud, e.info, e.at);
    if e.raw.Some? {
      var ip := CanonicalClientIp(e.raw.value);
      GateStaysClean(ttl, s1, ip, e.info.id, e.at);
      InsertStaysClean(ttl, RateGate(ttl, s1, ip, e.at).0, e.aud, e.info, e.at);
    }
    hide CanonicalClientIp, RateGate, Insert, CleanBut, MaybeCleanup;
  }

  /** No session but `id` has expired, and no window has run out. */
  ghost predicate CleanBut(ttl: real, s: Store, id: string, now: real) {
    && (forall k :: k in s.sessions && k != id ==> now - s.sessions[k].createdAt <= ttl)
    && (forall ip :: ip in s.rates ==> now - s.rates[ip].start <= RATE_LIMIT_WINDOW)
  }

  lemma GateStaysClean(ttl: real, s: Store, ip: IpAddr, id: string, now: real)
    requires CleanBut(ttl, s, id, now)
    ensures var s' := RateGate(ttl, s, ip, now).0; CleanBut(ttl, s', id, now) && s'.lastCleanup == s.lastCleanup
  {
  }

  lemma InsertStaysClean(ttl: real, s: Store, aud: Option<string>, info: Info, now: real)
    requires CleanBut(ttl, s, info.id, now)
    ensures var s' := Insert(ttl, s, aud, info, now).0; CleanBut(ttl, s', info.id, now) && s'.lastCleanup == s.lastCleanup
  {
  }

  /** A wrong secret learns nothing and changes nothing, expired or not; the right one removes an
      expired session and is told it is gone. */
  lemma PollGuards(ttl: real, sessions: Sessions, id: string, secret: string, now: real)
    requires id in sessions
    ensures secret != sessions[id].pollSecret ==> Poll(ttl, sessions, id, secret, now) == (sessions, Err(Unauthorized))
    ensures secret == sessions[id].pollSecret && now - sessions[id].createdAt > ttl ==>
              Poll(ttl, sessions, id, secret, now) == (sessions - {id}, Err(PollNotFound))
  {
  }

  // -------------------------------------------------------------------------- lifecycle

  /** A created session, within its lifetime: its code confirms it once, its secret then takes the
      claims once, with its audience, and nothing is left; another secret is turned away and
      changes nothing. */
  lemma Lifecycle(ttl: real, s: Store, e: Event, code: string, claims: Claims, at: real, other: string)
    requires e.CreateCall? && CreateAt(ttl, s, e).1 == Created
    requires CodeMatches(Some(code), e.info.userCode) && e.at <= at <= e.at + ttl && other != e.info.pollSecret
    ensures var id, secret := e.info.id, e.info.pollSecret;
            var created := CreateAt(ttl, s, e).0.sessions;
            var (confirmed, r) := Confirm(ttl, created, id, Some(code), claims, at);
            && Poll(ttl, created, id, secret, at) == (created, Ok(Pending))
            && r == Ok(())
            && Confirm(ttl, confirmed, id, Some(code), claims, at) == (confirmed, Err(AlreadyConfirmed))
            && Poll(ttl, confirmed, id, other, at) == (confirmed, Err(Unauthorized))
            && Poll(ttl, confirmed, id, secret, at) == (created - {id}, Ok(Confirmed(WithAudience(claims, e.aud))))
            && Poll(ttl, created - {id}, id, secret, at).1 == Err(PollNotFound)
  {
    hide CodeMatches, WithAudience;
    var id := e.info.id;
    var created := CreateAt(ttl, s, e).0.sessions;
    CreatedIsThere(ttl, s, e);
    var entry := created[id];
    var status := Confirmed(WithAudience(claims, e.aud));
    assert created[id := entry.(status := status)] - {id} == created - {id};
  }

  lemma CreatedIsThere(ttl: real, s: Store, e: Event)
    requires e.CreateCall? && CreateAt(ttl, s, e).1 == Created
    ensures var created := CreateAt(ttl, s, e).0.sessions;
            e.info.id in created && created[e.info.id] == Entry(e.at, e.info.pollSecret, e.info.userCode, 0, e.aud, Pending)
  {
    hide MaybeCleanup, Count, NoRoomForIp, CleanupForce;
    var s1 := MaybeCleanup(ttl, s, e.at, e.contended);
    if e.raw.Some? {
      GateRefusals(ttl, s1, CanonicalClientIp(e.raw.value), e.at);
    }
  }
}
