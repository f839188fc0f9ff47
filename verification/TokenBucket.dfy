/** Keyed token buckets with idle pruning and an entry cap (server/src/middleware/rate_limiter.rs).

    Time and tokens are real numbers; every call is given the clock reading it starts with, and
    whether its two attempts on the cleanup lock found it taken. */
module TokenBucket {
  import opened Prelude
  import opened ClientIp

  datatype Key = User(sub: string) | ClientCert(san: string) | Ip(addr: IpAddr) | Global

  /** `rate` is tokens per second, `ttl` the idle seconds after which a bucket may be pruned. */
  datatype Params = Params(capacity: nat, rate: real, ttl: real, maxEntries: nat) {
    /** What the configuration loader accepts. */
    predicate Valid() {
      capacity > 0 && rate > 0.0 && ttl >= 0.0
    }

    /** An idle bucket is full again by the time it may be pruned. */
    predicate RefillsWithinTtl() {
      ttl * rate >= capacity as real
    }
  }

  datatype Bucket = Bucket(tokens: real, lastRefill: real, lastSeen: real)

  type Entries = map<Key, Bucket>

  datatype Store = Store(entries: Entries, lastCleanup: real)

  /** `Throttled` and `Full` are both a 429 answer; `Full` is the refusal of an unknown key
      because the table has no room. */
  datatype Outcome = Admitted | Throttled(retryAfter: nat) | Full {
    function ToResult(): Result<(), nat> {
      match this
      case Admitted => Ok(())
      case Throttled(s) => Err(s)
      case Full => Err(1)
    }
  }

  function Min(a: real, b: real): real {
    if a <= b then a else b
  }

  function Ceil(x: real): int {
    if x.Floor as real == x then x.Floor else x.Floor + 1
  }

  /** Tokens that flow into a bucket in `seconds`. */
  function Inflow(p: Params, seconds: real): real {
    seconds * p.rate
  }

  function Refill(p: Params, b: Bucket, now: real): real {
    Min(b.tokens + Inflow(p, now - b.lastRefill), p.capacity as real)
  }

  /** Whole seconds until one token is there, at least one. */
  function RetryAfter(p: Params, tokens: real): nat
    requires p.rate > 0.0
  {
    var wait := Ceil((1.0 - tokens) / p.rate);
    if wait < 1 then 1 else wait
  }

  /** A call on a tracked bucket. */
  function Take(p: Params, b: Bucket, now: real): (Bucket, Outcome)
    requires p.rate > 0.0
  {
    var level := Refill(p, b, now);
    if level >= 1.0 then (Bucket(level - 1.0, now, now), Admitted)
    else (Bucket(level, now, now), Throttled(RetryAfter(p, level)))
  }

  function Retain(p: Params, entries: Entries, now: real): Entries {
    map k | k in entries && now - entries[k].lastSeen < p.ttl :: entries[k]
  }

  function MaybeCleanup(p: Params, s: Store, now: real, contended: bool): Store {
    if !contended && now - s.lastCleanup > 10.0 then Store(Retain(p, s.entries, now), now) else s
  }

  function MaybeCleanupWhenFull(p: Params, s: Store, now: real, contended: bool): Store {
    if !contended && now - s.lastCleanup >= 1.0 then Store(Retain(p, s.entries, now), now) else s
  }

  function Consume(p: Params, s: Store, key: Key, now: real, contended: bool): (Store, Outcome)
    requires p.rate > 0.0
  {
    if key in s.entries then
      var (b, o) := Take(p, s.entries[key], now);
      (s.(entries := s.entries[key := b]), o)
    else
      var s' := if |s.entries| >= p.maxEntries then MaybeCleanupWhenFull(p, s, now, contended) else s;
      if |s'.entries| >= p.maxEntries then (s', Full)
      else if p.capacity as real >= 1.0 then
        (s'.(entries := s'.entries[key := Bucket(p.capacity as real - 1.0, now, now)]), Admitted)
      else (s', Throttled(1))
  }

  /** The buckets touched less than a ttl ago. */
  function Lively(p: Params, entries: Entries, now: real): set<Key> {
    set k | k in entries && now - entries[k].lastSeen < p.ttl
  }

  /** Room for an unknown key: now, or after a cleanup that may be made now. */
  predicate HasRoom(p: Params, s: Store, now: real, contended: bool) {
    || |s.entries| < p.maxEntries
    || (!contended && now - s.lastCleanup >= 1.0 && |Lively(p, s.entries, now)| < p.maxEntries)
  }

  ghost predicate TrackedAnswer(p: Params, level: real, r: Result<(), nat>) {
    && (r.Ok? <==> level >= 1.0)
    && (r.Err? ==>
          && r.error >= 1 && level + r.error as real * p.rate >= 1.0
          && (r.error == 1 || level + (r.error - 1) as real * p.rate < 1.0))
  }

  /** What the answer to a caller means, by the state `s` that the call finds: a tracked key passes
      exactly with a whole token, and is otherwise told the least whole seconds until it has one; an
      unknown key passes exactly when there is room and buckets hold a token. */
  ghost predicate Answers(p: Params, s: Store, key: Key, now: real, contended: bool, r: Result<(), nat>) {
    if key in s.entries then
      var b := s.entries[key];
      TrackedAnswer(p, Min(b.tokens + (now - b.lastRefill) * p.rate, p.capacity as real), r)
    else r == if HasRoom(p, s, now, contended) && p.capacity >= 1 then Ok(()) else Err(1)
  }

  lemma AnswerIff(p: Params, s: Store, key: Key, now: real, contended: bool)
    requires p.rate > 0.0
    ensures Answers(p, s, key, now, contended, Consume(p, s, key, now, contended).1.ToResult())
  {
    if key in s.entries {
      TrackedAnswerIs(p, Refill(p, s.entries[key], now));
      hide RetryAfter, HasRoom, Lively, TrackedAnswer;
    } else {
      hide RetryAfter, Take;
      assert Retain(p, s.entries, now).Keys == Lively(p, s.entries, now);
      SubsetSize(Lively(p, s.entries, now), s.entries.Keys);
    }
  }

  lemma TrackedAnswerIs(p: Params, level: real)
    requires p.rate > 0.0
    ensures TrackedAnswer(p, level, if level >= 1.0 then Ok(()) else Err(RetryAfter(p, level)))
  {
    if level < 1.0 {
      WaitIsLeast(p, level);
      hide RetryAfter;
    }
  }

  lemma WaitIsLeast(p: Params, level: real)
    requires p.rate > 0.0 && level < 1.0
    ensures var s := RetryAfter(p, level);
            s >= 1 && level + s as real * p.rate >= 1.0 && (s == 1 || level + (s - 1) as real * p.rate < 1.0)
  {
    var s := RetryAfter(p, level);
    RetryAfterBounds(p, level);
    hide RetryAfter;
    WholeSeconds(p, level, (1.0 - level) / p.rate, s);
  }

  lemma WholeSeconds(p: Params, level: real, exact: real, s: nat)
    requires p.rate > 0.0 && exact * p.rate == 1.0 - level && s >= 1 && s as real >= exact && (s > 1 ==> (s - 1) as real < exact)
    ensures level + s as real * p.rate >= 1.0 && (s == 1 || level + (s - 1) as real * p.rate < 1.0)
  {
    TimesRate(p, exact, s as real);
    if s > 1 {
      TimesRate(p, (s - 1) as real, exact);
    }
  }

  lemma RetryAfterBounds(p: Params, level: real)
    requires p.rate > 0.0 && level < 1.0
    ensures var exact, s := (1.0 - level) / p.rate, RetryAfter(p, level); s >= 1 && s as real >= exact && (s > 1 ==> (s - 1) as real < exact)
  {
  }

  lemma TimesRate(p: Params, a: real, b: real)
    requires p.rate > 0.0 && a <= b
    ensures a * p.rate <= b * p.rate && (a < b ==> a * p.rate < b * p.rate)
  {
    assert b * p.rate - a * p.rate == (b - a) * p.rate;
  }

  /** Which buckets of other keys a call sweeps away: those idle for a ttl or longer, and only when a
      cleanup is due and may be made. */
  lemma SweptIff(p: Params, s: Store, key: Key, other: Key, now: real, contended: bool, contendedWhenFull: bool)
    requires p.rate > 0.0 && other != key
    ensures var s1 := MaybeCleanup(p, s, now, contended);
            var s' := Consume(p, s1, key, now, contendedWhenFull).0;
            var periodic := !contended && now - s.lastCleanup > 10.0;
            var forced := key !in s1.entries && |s1.entries| >= p.maxEntries && !contendedWhenFull && now - s1.lastCleanup >= 1.0;
            && (other in s'.entries <==> other in s.entries && (periodic || forced ==> now - s.entries[other].lastSeen < p.ttl))
            && (other in s'.entries ==> s'.entries[other] == s.entries[other])
            && s'.lastCleanup == if periodic || forced then now else s.lastCleanup
  {
    hide Take;
  }

  class KeyedTokenBucketStore {
    const p: Params
    var entries: Entries
    var lastCleanup: real

    ghost predicate Valid()
      reads this
    {
      p.rate > 0.0 && |entries| <= p.maxEntries
    }

    constructor (p: Params, now: real)
      requires p.rate > 0.0
      ensures Valid() && this.p == p && entries == map[] && lastCleanup == now
    {
      this.p := p;
      entries := map[];
      lastCleanup := now;
    }

    method Cleanup(now: real)
      requires Valid()
      modifies this`entries
      ensures Valid() && entries == Retain(p, old(entries), now)
    {
      SubsetSize(Retain(p, entries, now).Keys, entries.Keys);
      entries := Retain(p, entries, now);
    }

    /** The table never outgrows the entry cap. */
    method TryConsume(key: Key, now: real, contended: bool, contendedWhenFull: bool) returns (r: Result<(), nat>, outcome: Outcome)
      requires Valid()
      modifies this
      ensures Valid()
      ensures (Store(entries, lastCleanup), outcome) ==
              Consume(p, MaybeCleanup(p, Store(old(entries), old(lastCleanup)), now, contended), key, now, contendedWhenFull)
      ensures r == outcome.ToResult()
      ensures Answers(p, MaybeCleanup(p, Store(old(entries), old(lastCleanup)), now, contended), key, now, contendedWhenFull, r)
    {
      AnswerIff(p, MaybeCleanup(p, Store(entries, lastCleanup), now, contended), key, now, contendedWhenFull);
      hide Answers, RetryAfter, Inflow;
      if !contended && now - lastCleanup > 10.0 {
        lastCleanup := now;
        Cleanup(now);
      }
      if key in entries {
        var b := entries[key];
        b := b.(tokens := Refill(p, b, now));
        b := b.(lastRefill := now, lastSeen := now);
        if b.tokens >= 1.0 {
          b := b.(tokens := b.tokens - 1.0);
          outcome := Admitted;
        } else {
          outcome := Throttled(RetryAfter(p, b.tokens));
        }
        UpdateKeepsSize(entries, key, b);
        entries := entries[key := b];
        return outcome.ToResult(), outcome;
      }
      if |entries| >= p.maxEntries {
        if !contendedWhenFull && now - lastCleanup >= 1.0 {
          lastCleanup := now;
          Cleanup(now);
        }
        if |entries| >= p.maxEntries {
          return Err(1), Full;
        }
      }
      if p.capacity as real >= 1.0 {
        InsertGrowsByOne(entries, key, Bucket(p.capacity as real - 1.0, now, now));
        entries := entries[key := Bucket(p.capacity as real - 1.0, now, now)];
        return Ok(()), Admitted;
      } else {
        return Err(1), Throttled(1);
      }
    }
  }

  lemma UpdateKeepsSize(entries: Entries, key: Key, b: Bucket)
    requires key in entries
    ensures |entries[key := b]| == |entries|
  {
    assert entries[key := b].Keys == entries.Keys;
  }

  lemma InsertGrowsByOne(entries: Entries, key: Key, b: Bucket)
    requires key !in entries
    ensures |entries[key := b]| == |entries| + 1
  {
    assert entries[key := b].Keys == entries.Keys + {key};
  }

  // ------------------------------------------------------------------------------- runs

  /** A request, or an explicit cleanup at any moment. */
  datatype Event =
    | Call(key: Key, at: real, contended: bool, contendedWhenFull: bool)
    | Prune(at: real)

  ghost predicate Ordered(events: seq<Event>) {
    forall i, j :: 0 <= i <= j < |events| ==> events[i].at <= events[j].at
  }

  function StepCall(p: Params, s: Store, e: Event): (Store, Outcome)
    requires p.rate > 0.0 && e.Call?
  {
    Consume(p, MaybeCleanup(p, s, e.at, e.contended), e.key, e.at, e.contendedWhenFull)
  }

  /** The store after a run that starts empty. */
  function Run(p: Params, events: seq<Event>): Store
    requires p.rate > 0.0
  {
    if |events| == 0 then Store(map[], 0.0)
    else
      var s := Run(p, events[..|events| - 1]);
      var e := events[|events| - 1];
      match e
      case Prune(at) => s.(entries := Retain(p, s.entries, at))
      case Call(_, _, _, _) => StepCall(p, s, e).0
  }

  /** The answer given to the `i`-th event, a call. */
  function OutcomeAt(p: Params, events: seq<Event>, i: nat): Outcome
    requires p.rate > 0.0 && i < |events| && events[i].Call?
  {
    StepCall(p, Run(p, events[..i]), events[i]).1
  }

  /** The reference: one bucket per key, full when first seen, never pruned, no entry cap. */
  function RefTake(p: Params, ref: Entries, key: Key, now: real): (Bucket, Outcome)
    requires p.rate > 0.0
  {
    Take(p, if key in ref then ref[key] else Bucket(p.capacity as real, now, now), now)
  }

  /** The reference buckets after the same run; a call refused for lack of room leaves them be. */
  function RefRun(p: Params, events: seq<Event>): Entries
    requires p.rate > 0.0
  {
    if |events| == 0 then map[]
    else
      var n := |events| - 1;
      var ref := RefRun(p, events[..n]);
      if events[n].Prune? || OutcomeAt(p, events, n) == Full then ref
      else ref[events[n].key := RefTake(p, ref, events[n].key, events[n].at).0]
  }

  function RefOutcomeAt(p: Params, events: seq<Event>, i: nat): Outcome
    requires p.rate > 0.0 && i < |events| && events[i].Call?
  {
    RefTake(p, RefRun(p, events[..i]), events[i].key, events[i].at).1
  }

  /** Every call not refused for lack of room is answered as the reference answers it. */
  ghost predicate Agrees(p: Params, events: seq<Event>)
    requires p.rate > 0.0
  {
    forall i :: 0 <= i < |events| && events[i].Call? && OutcomeAt(p, events, i) != Full ==>
      OutcomeAt(p, events, i) == RefOutcomeAt(p, events, i)
  }

  // ------------------------------------------------------------------------ token levels

  ghost predicate WellFormed(p: Params, entries: Entries, now: real) {
    forall k :: k in entries ==>
      && 0.0 <= entries[k].tokens <= p.capacity as real
      && entries[k].lastRefill == entries[k].lastSeen <= now
  }

  /** Tokens `key` could spend at `now`; an unknown key has a full bucket. */
  function Level(p: Params, entries: Entries, key: Key, now: real): real {
    if key in entries then Refill(p, entries[key], now) else p.capacity as real
  }

  lemma InflowAdds(p: Params, a: real, b: real)
    requires p.rate > 0.0
    ensures Inflow(p, a + b) == Inflow(p, a) + Inflow(p, b)
    ensures Inflow(p, 0.0) == 0.0
  {
  }

  lemma InflowMonotone(p: Params, a: real, b: real)
    requires p.rate > 0.0 && a <= b
    ensures Inflow(p, a) <= Inflow(p, b)
  {
    assert (b - a) * p.rate >= 0.0;
    assert (b - a) * p.rate == b * p.rate - a * p.rate;
  }

  /** How a level grows while nobody calls. */
  lemma LevelLater(p: Params, entries: Entries, key: Key, now: real, later: real)
    requires p.Valid() && WellFormed(p, entries, now) && now <= later
    ensures Level(p, entries, key, later) == Min(Level(p, entries, key, now) + Inflow(p, later - now), p.capacity as real)
    ensures 0.0 <= Level(p, entries, key, now) <= Level(p, entries, key, later) <= p.capacity as real
  {
    hide Inflow;
    InflowMonotone(p, 0.0, later - now);
    InflowAdds(p, 0.0, 0.0);
    if key in entries {
      var b := entries[key];
      InflowMonotone(p, 0.0, now - b.lastRefill);
      InflowAdds(p, now - b.lastRefill, later - now);
      assert (now - b.lastRefill) + (later - now) == later - b.lastRefill;
    }
  }

  /** Pruning never takes tokens away, and adds none when buckets refill within the ttl. */
  lemma RetainLevel(p: Params, entries: Entries, key: Key, now: real)
    requires p.Valid() && WellFormed(p, entries, now)
    ensures WellFormed(p, Retain(p, entries, now), now)
    ensures Level(p, entries, key, now) <= Level(p, Retain(p, entries, now), key, now)
    ensures p.RefillsWithinTtl() ==> Level(p, Retain(p, entries, now), key, now) == Level(p, entries, key, now)
  {
    assert p.RefillsWithinTtl() ==> Inflow(p, p.ttl) >= p.capacity as real;
    hide Inflow;
    hide Params.RefillsWithinTtl;
    LevelLater(p, entries, key, now, now);
    if key in entries && key !in Retain(p, entries, now) {
      InflowMonotone(p, p.ttl, now - entries[key].lastRefill);
    }
  }

  lemma MaybeCleanupLevel(p: Params, s: Store, key: Key, now: real, contended: bool)
    requires p.Valid() && WellFormed(p, s.entries, now)
    ensures WellFormed(p, MaybeCleanup(p, s, now, contended).entries, now)
    ensures WellFormed(p, MaybeCleanupWhenFull(p, s, now, contended).entries, now)
    ensures Level(p, s.entries, key, now) <= Level(p, MaybeCleanup(p, s, now, contended).entries, key, now)
    ensures Level(p, s.entries, key, now) <= Level(p, MaybeCleanupWhenFull(p, s, now, contended).entries, key, now)
    ensures p.RefillsWithinTtl() ==>
              && Level(p, MaybeCleanup(p, s, now, contended).entries, key, now) == Level(p, s.entries, key, now)
              && Level(p, MaybeCleanupWhenFull(p, s, now, contended).entries, key, now) == Level(p, s.entries, key, now)
  {
    hide Inflow, Level;
    RetainLevel(p, s.entries, key, now);
  }

  /** A call on a bucket set: admitted exactly when a token is there, which it spends. */
  lemma TakeLevel(p: Params, entries: Entries, key: Key, other: Key, now: real)
    requires p.Valid() && WellFormed(p, entries, now)
    ensures var (b, o) := RefTake(p, entries, key, now);
            var level := Level(p, entries, key, now);
            && WellFormed(p, entries[key := b], now)
            && o == (if level >= 1.0 then Admitted else Throttled(RetryAfter(p, level)))
            && Level(p, entries[key := b], other, now) ==
               Level(p, entries, other, now) - if other == key && o == Admitted then 1.0 else 0.0
  {
    hide Inflow, RetryAfter;
    LevelLater(p, entries, key, now, now);
    LevelLater(p, entries, other, now, now);
    InflowAdds(p, 0.0, 0.0);
  }

  /** What `Consume` does to the level of any key, whatever it prunes. */
  ghost predicate CallOk(p: Params, before: Entries, after: Entries, o: Outcome, key: Key, other: Key, now: real)
    requires p.rate > 0.0
  {
    var level := Level(p, before, key, now);
    var spent := if other == key && o == Admitted then 1.0 else 0.0;
    && WellFormed(p, after, now)
    && (level >= 1.0 ==> !o.Throttled?)
    && (o.Throttled? ==> level <= Level(p, after, key, now) < 1.0 && o == Throttled(RetryAfter(p, Level(p, after, key, now))))
    && (other != key || o != Admitted ==> Level(p, before, other, now) <= Level(p, after, other, now))
    && (p.RefillsWithinTtl() ==>
          && (level < 1.0 ==> o != Admitted)
          && Level(p, after, other, now) == Level(p, before, other, now) - spent)
  }

  lemma ConsumeLevel(p: Params, s: Store, key: Key, other: Key, now: real, contended: bool)
    requires p.Valid() && WellFormed(p, s.entries, now)
    ensures var (s', o) := Consume(p, s, key, now, contended); CallOk(p, s.entries, s'.entries, o, key, other, now)
  {
    hide Inflow, RetryAfter, WellFormed, Retain, Params.RefillsWithinTtl;
    if key in s.entries {
      hide Level;
      TakeLevel(p, s.entries, key, other, now);
      TakeLevel(p, s.entries, key, key, now);
      assert RefTake(p, s.entries, key, now) == Take(p, s.entries[key], now);
    } else {
      var s' := if |s.entries| >= p.maxEntries then MaybeCleanupWhenFull(p, s, now, contended) else s;
      InsertLevel(p, s, s', key, other, now, contended);
    }
  }

  lemma InsertLevel(p: Params, s: Store, s': Store, key: Key, other: Key, now: real, contended: bool)
    requires p.Valid() && WellFormed(p, s.entries, now) && key !in s.entries
    requires s' == s || s' == MaybeCleanupWhenFull(p, s, now, contended)
    ensures CallOk(p, s.entries, s'.entries, Full, key, other, now)
    ensures CallOk(p, s.entries, s'.entries[key := Bucket(p.capacity as real - 1.0, now, now)], Admitted, key, other, now)
  {
    MaybeCleanupLevel(p, s, other, now, contended);
    LevelLater(p, s'.entries, key, now, now);
    TakeLevel(p, s'.entries, key, other, now);
    TakeLevel(p, s'.entries, key, key, now);
    assert key !in s'.entries;
    hide Inflow, RetryAfter, Params.RefillsWithinTtl;
    assert Level(p, s.entries, key, now) == p.capacity as real;
    InflowAdds(p, 0.0, 0.0);
    assert RefTake(p, s'.entries, key, now).0 == Bucket(p.capacity as real - 1.0, now, now);
  }

  /** What one call does to the levels of all keys. */
  lemma CallLevel(p: Params, s: Store, e: Event, other: Key)
    requires p.Valid() && e.Call? && WellFormed(p, s.entries, e.at)
    ensures var (s', o) := StepCall(p, s, e); CallOk(p, s.entries, s'.entries, o, e.key, other, e.at)
  {
    hide Inflow, Level, RetryAfter, WellFormed, Consume, MaybeCleanup, Params.RefillsWithinTtl;
    MaybeCleanupLevel(p, s, e.key, e.at, e.contended);
    MaybeCleanupLevel(p, s, other, e.at, e.contended);
    ConsumeLevel(p, MaybeCleanup(p, s, e.at, e.contended), e.key, other, e.at, e.contendedWhenFull);
  }

  lemma {:induction false} RunWellFormed(p: Params, events: seq<Event>, now: real)
    requires p.Valid() && Ordered(events) && (|events| > 0 ==> events[|events| - 1].at <= now)
    ensures WellFormed(p, Run(p, events).entries, now)
    ensures WellFormed(p, RefRun(p, events), now)
  {
    if |events| == 0 {
    } else {
      var n := |events| - 1;
      var e := events[n];
      RunWellFormed(p, events[..n], e.at);
      var s := Run(p, events[..n]);
      if e.Call? {
        CallLevel(p, s, e, e.key);
        TakeLevel(p, RefRun(p, events[..n]), e.key, e.key, e.at);
      } else {
        RetainLevel(p, s.entries, Global, e.at);
      }
    }
  }

  // --------------------------------------------------------------- pruning is invisible

  ghost predicate SameLevels(p: Params, a: Entries, b: Entries, now: real) {
    forall key :: Level(p, a, key, now) == Level(p, b, key, now)
  }

  lemma SameLevelsLater(p: Params, a: Entries, b: Entries, now: real, later: real)
    requires p.Valid() && WellFormed(p, a, now) && WellFormed(p, b, now) && now <= later
    requires SameLevels(p, a, b, now)
    ensures SameLevels(p, a, b, later)
  {
    forall key ensures Level(p, a, key, later) == Level(p, b, key, later) {
      LevelLater(p, a, key, now, later);
      LevelLater(p, b, key, now, later);
    }
  }

  /** The pruned, capped store and the reference hold the same levels after every run. */
  lemma {:induction false} SimulatesReference(p: Params, events: seq<Event>, now: real)
    requires p.Valid() && p.RefillsWithinTtl() && Ordered(events)
    requires |events| > 0 ==> events[|events| - 1].at <= now
    ensures SameLevels(p, Run(p, events).entries, RefRun(p, events), now)
    ensures Agrees(p, events)
  {
    RunWellFormed(p, events, now);
    if |events| == 0 {
    } else {
      hide WellFormed, Level, Inflow, Retain, StepCall, RefTake, RetryAfter, Params.RefillsWithinTtl;
      var n := |events| - 1;
      var e := events[n];
      var s, ref := Run(p, events[..n]), RefRun(p, events[..n]);
      SimulatesReference(p, events[..n], e.at);
      RunWellFormed(p, events[..n], e.at);
      StepSimulates(p, s, ref, e);
      RunWellFormed(p, events, e.at);
      SameLevelsLater(p, Run(p, events).entries, RefRun(p, events), e.at, now);
      AgreesNext(p, events);
    }
  }

  lemma AgreesNext(p: Params, events: seq<Event>)
    requires p.rate > 0.0 && |events| > 0
    requires var n := |events| - 1;
             && Agrees(p, events[..n])
             && (events[n].Call? && OutcomeAt(p, events, n) != Full ==> OutcomeAt(p, events, n) == RefOutcomeAt(p, events, n))
    ensures Agrees(p, events)
  {
    var n := |events| - 1;
    forall i | 0 <= i < n && events[i].Call? && OutcomeAt(p, events, i) != Full
      ensures OutcomeAt(p, events, i) == RefOutcomeAt(p, events, i)
    {
      SameOutcomes(p, events, n, i);
    }
    hide OutcomeAt, RefOutcomeAt;
  }

  lemma SameOutcomes(p: Params, events: seq<Event>, n: nat, i: nat)
    requires p.rate > 0.0 && i < n <= |events| && events[i].Call?
    ensures OutcomeAt(p, events[..n], i) == OutcomeAt(p, events, i)
    ensures RefOutcomeAt(p, events[..n], i) == RefOutcomeAt(p, events, i)
  {
    hide StepCall, RefTake;
    assert events[..n][..i] == events[..i];
  }

  lemma StepSimulates(p: Params, s: Store, ref: Entries, e: Event)
    requires p.Valid() && p.RefillsWithinTtl()
    requires WellFormed(p, s.entries, e.at) && WellFormed(p, ref, e.at) && SameLevels(p, s.entries, ref, e.at)
    ensures e.Prune? ==> SameLevels(p, Retain(p, s.entries, e.at), ref, e.at)
    ensures e.Call? ==>
              var (s', o) := StepCall(p, s, e);
              var (b, o') := RefTake(p, ref, e.key, e.at);
              if o == Full then SameLevels(p, s'.entries, ref, e.at)
              else o == o' && SameLevels(p, s'.entries, ref[e.key := b], e.at)
  {
    if e.Prune? {
      forall key ensures Level(p, Retain(p, s.entries, e.at), key, e.at) == Level(p, ref, key, e.at) {
        RetainLevel(p, s.entries, key, e.at);
      }
    } else {
      var (s', o) := StepCall(p, s, e);
      var (b, o') := RefTake(p, ref, e.key, e.at);
      forall key
        ensures o == Full ==> Level(p, s'.entries, key, e.at) == Level(p, ref, key, e.at)
        ensures o != Full ==> o == o' && Level(p, s'.entries, key, e.at) == Level(p, ref[e.key := b], key, e.at)
      {
        CallLevel(p, s, e, key);
        TakeLevel(p, ref, e.key, key, e.at);
      }
    }
  }

  /** A refusal for lack of room takes no token from any key and, when buckets refill within
      the ttl, changes no level at all. */
  lemma FullChangesNoLevel(p: Params, events: seq<Event>, i: nat, key: Key)
    requires p.Valid() && Ordered(events) && i < |events| && events[i].Call? && OutcomeAt(p, events, i) == Full
    ensures var at := events[i].at;
            var before, after := Run(p, events[..i]).entries, Run(p, events[..i + 1]).entries;
            && Level(p, before, key, at) <= Level(p, after, key, at)
            && (p.RefillsWithinTtl() ==> Level(p, after, key, at) == Level(p, before, key, at))
  {
    RunWellFormed(p, events[..i], events[i].at);
    CallLevel(p, Run(p, events[..i]), events[i], key);
    assert events[..i + 1][..i] == events[..i];
  }

  // ------------------------------------------------------------------- admission bound

  /** Whether event `k` is an admitted call of `key`, as a count. */
  function AdmittedAt(p: Params, events: seq<Event>, key: Key, k: nat): nat
    requires p.rate > 0.0 && k < |events|
  {
    if events[k].Call? && events[k].key == key && OutcomeAt(p, events, k) == Admitted then 1 else 0
  }

  /** Admitted calls of `key` among events `i` up to `j`. */
  function AdmittedIn(p: Params, events: seq<Event>, key: Key, i: nat, j: nat): nat
    requires p.rate > 0.0 && i <= j <= |events|
    decreases j
  {
    if i == j then 0 else AdmittedIn(p, events, key, i, j - 1) + AdmittedAt(p, events, key, j - 1)
  }

  /** One event of a run that agrees with the reference spends exactly what it admits. */
  lemma RefSpends(p: Params, events: seq<Event>, key: Key, k: nat)
    requires p.Valid() && Ordered(events) && Agrees(p, events) && k < |events|
    ensures WellFormed(p, RefRun(p, events[..k + 1]), events[k].at) && WellFormed(p, RefRun(p, events[..k]), events[k].at)
    ensures Level(p, RefRun(p, events[..k + 1]), key, events[k].at) ==
            Level(p, RefRun(p, events[..k]), key, events[k].at) - AdmittedAt(p, events, key, k) as real
  {
    hide Inflow, Level, WellFormed, RetryAfter, StepCall, Refill;
    var e := events[k];
    assert events[..k + 1][..k] == events[..k];
    RunWellFormed(p, events[..k], e.at);
    RunWellFormed(p, events[..k + 1], e.at);
    if e.Call? {
      assert OutcomeAt(p, events[..k + 1], k) == OutcomeAt(p, events, k);
      TakeLevel(p, RefRun(p, events[..k]), e.key, key, e.at);
    }
  }

  /** Tokens are conserved along a run that agrees with the reference: what was admitted plus
      what is left is at most a full bucket plus what flowed in. */
  lemma {:induction false} TokensConserved(p: Params, events: seq<Event>, key: Key, i: nat, j: nat)
    requires p.Valid() && Ordered(events) && Agrees(p, events) && i < j <= |events|
    ensures WellFormed(p, RefRun(p, events[..j]), events[j - 1].at)
    ensures AdmittedIn(p, events, key, i, j) as real + Level(p, RefRun(p, events[..j]), key, events[j - 1].at)
            <= p.capacity as real + Inflow(p, events[j - 1].at - events[i].at)
    decreases j
  {
    hide Inflow, Level, WellFormed, AdmittedAt, RefRun, Agrees;
    var at := events[j - 1].at;
    RefSpends(p, events, key, j - 1);
    InflowAdds(p, 0.0, 0.0);
    LevelLater(p, RefRun(p, events[..j - 1]), key, at, at);
    if i < j - 1 {
      var earlier := events[j - 2].at;
      TokensConserved(p, events, key, i, j - 1);
      LevelLater(p, RefRun(p, events[..j - 1]), key, earlier, at);
      InflowAdds(p, at - earlier, earlier - events[i].at);
      assert (at - earlier) + (earlier - events[i].at) == at - events[i].at;
    } else {
      assert AdmittedIn(p, events, key, i, j) == AdmittedAt(p, events, key, i);
    }
  }

  /** In every run, for every key and every stretch of it lasting T seconds, at most
      `capacity + rate * T` calls are admitted. */
  lemma AdmissionBound(p: Params, events: seq<Event>, key: Key, i: nat, j: nat)
    requires p.Valid() && p.RefillsWithinTtl() && Ordered(events) && i < j <= |events|
    ensures AdmittedIn(p, events, key, i, j) as real <= p.capacity as real + Inflow(p, events[j - 1].at - events[i].at)
  {
    SimulatesReference(p, events, events[|events| - 1].at);
    TokensConserved(p, events, key, i, j);
    LevelLater(p, RefRun(p, events[..j]), key, events[j - 1].at, events[j - 1].at);
  }

  // ---------------------------------------------------- the ttl condition is necessary

  /** Calls only, and no cleanup ever kept off by another task. */
  ghost predicate Ordinary(events: seq<Event>) {
    forall i :: 0 <= i < |events| ==> events[i].Call? && !events[i].contended && !events[i].contendedWhenFull
  }

  function Burst(n: nat, at: real): seq<Event> {
    seq(n, _ => Call(Global, at, false, false))
  }

  /** A pause long enough to be forgotten and, if buckets refill more slowly, too short to refill. */
  function Pause(p: Params): real
    requires p.rate > 0.0
  {
    if p.ttl > 0.0 then p.ttl else p.capacity as real / (2.0 * p.rate)
  }

  lemma PauseFacts(p: Params)
    requires p.Valid()
    ensures Pause(p) > 0.0 && Pause(p) >= p.ttl
    ensures !p.RefillsWithinTtl() ==> Inflow(p, Pause(p)) < p.capacity as real
  {
    if p.ttl <= 0.0 {
      var c := p.capacity as real;
      assert c / (2.0 * p.rate) * (2.0 * p.rate) == c;
      assert c / (2.0 * p.rate) > 0.0;
      assert Inflow(p, Pause(p)) == c / 2.0;
    }
  }

  const START := 10.0

  /** A full burst, a pause, and a second full burst, whose first call cleans up. */
  function TwoBursts(p: Params): seq<Event>
    requires p.rate > 0.0
  {
    Burst(p.capacity, START) + Burst(p.capacity, START + Pause(p))
  }

  /** The table after `n` calls of a burst on an empty table. */
  function AfterBurst(p: Params, n: nat, at: real): Entries {
    if n == 0 then map[] else map[Global := Bucket(p.capacity as real - n as real, at, at)]
  }

  /** A burst at `at` does not clean up its own bucket: none is due, or the table is empty. */
  predicate Rested(s: Store, at: real) {
    at - s.lastCleanup <= 10.0
  }

  lemma BurstCall(p: Params, s: Store, n: nat, at: real)
    requires p.Valid() && p.maxEntries >= 1 && n < p.capacity && s.entries == AfterBurst(p, n, at)
    requires n > 0 ==> Rested(s, at)
    ensures var (s', o) := StepCall(p, s, Call(Global, at, false, false));
            o == Admitted && s'.entries == AfterBurst(p, n + 1, at) && Rested(s', at)
            && (Rested(s, at) ==> s'.lastCleanup == s.lastCleanup)
  {
    InflowAdds(p, 0.0, 0.0);
    hide Inflow, RetryAfter;
    if n > 0 {
      var b := s.entries[Global];
      assert at - b.lastRefill == 0.0;
      assert Refill(p, b, at) == b.tokens;
      assert Take(p, b, at) == (Bucket(b.tokens - 1.0, at, at), Admitted);
      assert s.entries[Global := Bucket(b.tokens - 1.0, at, at)] == AfterBurst(p, n + 1, at);
    } else {
      assert Retain(p, s.entries, at) == map[];
      assert s.entries[Global := Bucket(p.capacity as real - 1.0, at, at)] == AfterBurst(p, 1, at);
    }
  }

  /** The first call after the pause forgets the spent bucket. */
  lemma FirstAfterPause(p: Params, s: Store, n: nat)
    requires p.Valid() && p.maxEntries >= 1 && n > 0 && s.entries == AfterBurst(p, n, START) && s.lastCleanup == 0.0
    ensures var at := START + Pause(p);
            var (s', o) := StepCall(p, s, Call(Global, at, false, false));
            o == Admitted && s'.entries == AfterBurst(p, 1, at) && s'.lastCleanup == at
  {
    var at := START + Pause(p);
    PauseFacts(p);
    hide Inflow, RetryAfter, Pause;
    assert Retain(p, s.entries, at) == map[];
    assert MaybeCleanup(p, s, at, false) == Store(map[], at);
    assert (map[])[Global := Bucket(p.capacity as real - 1.0, at, at)] == AfterBurst(p, 1, at);
  }

  /** One more admitted call at the end of a run. */
  lemma AdmittedLast(p: Params, events: seq<Event>, e: Event, i: nat)
    requires p.rate > 0.0 && i <= |events| && e.Call? && StepCall(p, Run(p, events), e).1 == Admitted
    ensures Run(p, events + [e]) == StepCall(p, Run(p, events), e).0
    ensures AdmittedIn(p, events + [e], e.key, i, |events| + 1) == AdmittedIn(p, events, e.key, i, |events|) + 1
  {
    hide StepCall;
    var n := |events|;
    assert (events + [e])[..n] == events;
    AdmittedInPrefix(p, events + [e], n, e.key, i, n);
    assert AdmittedAt(p, events + [e], e.key, n) == 1;
  }

  /** Calls `m` up to `n` of a burst are admitted, from the state after `m` of them on. */
  lemma {:induction false} BurstAdmitted(p: Params, events: seq<Event>, m: nat, n: nat, at: real)
    requires p.Valid() && p.maxEntries >= 1 && m <= n <= p.capacity
    requires Run(p, events).entries == AfterBurst(p, m, at) && Rested(Run(p, events), at)
    ensures AdmittedIn(p, events + Burst(n - m, at), Global, |events|, |events| + n - m) == n - m
    ensures var s := Run(p, events + Burst(n - m, at)); s.entries == AfterBurst(p, n, at) && s.lastCleanup == Run(p, events).lastCleanup
    decreases n
  {
    hide StepCall, Run, AdmittedAt, AfterBurst;
    if m == n {
      assert events + Burst(0, at) == events;
    } else {
      var shorter, e := events + Burst(n - 1 - m, at), Call(Global, at, false, false);
      BurstAdmitted(p, events, m, n - 1, at);
      BurstCall(p, Run(p, shorter), n - 1, at);
      AdmittedLast(p, shorter, e, |events|);
      assert events + Burst(n - m, at) == shorter + [e];
    }
  }

  lemma {:induction false} AdmittedInPrefix(p: Params, events: seq<Event>, n: nat, key: Key, i: nat, j: nat)
    requires p.rate > 0.0 && i <= j <= n <= |events|
    ensures AdmittedIn(p, events[..n], key, i, j) == AdmittedIn(p, events, key, i, j)
    decreases j
  {
    hide StepCall;
    if i == j {
    } else {
      AdmittedInPrefix(p, events, n, key, i, j - 1);
      assert events[..n][..j - 1] == events[..j - 1];
    }
  }

  lemma {:induction false} AdmittedInSplit(p: Params, events: seq<Event>, key: Key, i: nat, k: nat, j: nat)
    requires p.rate > 0.0 && i <= k <= j <= |events|
    ensures AdmittedIn(p, events, key, i, j) == AdmittedIn(p, events, key, i, k) + AdmittedIn(p, events, key, k, j)
    decreases j
  {
    hide AdmittedAt;
    if k == j {
    } else {
      AdmittedInSplit(p, events, key, i, k, j - 1);
    }
  }

  lemma TwoBurstsShape(p: Params)
    requires p.Valid()
    ensures var run, c := TwoBursts(p), p.capacity;
            var first, e := Burst(c, START), Call(Global, START + Pause(p), false, false);
            && |run| == 2 * c && Ordinary(run) && Ordered(run)
            && run[0].at == START && run[2 * c - 1].at == START + Pause(p)
            && run[..c] == [] + first && |first| == c
            && run == first + [e] + Burst(c - 1, START + Pause(p))
  {
    PauseFacts(p);
    hide Pause;
  }

  lemma TwoBurstsAdmitted(p: Params)
    requires p.Valid() && p.maxEntries >= 1
    ensures AdmittedIn(p, TwoBursts(p), Global, 0, |TwoBursts(p)|) == 2 * p.capacity
  {
    hide Run, Burst, TwoBursts, OutcomeAt, StepCall, AfterBurst, Ordinary, Ordered, Pause, AdmittedAt;
    var c, run, at := p.capacity, TwoBursts(p), START + Pause(p);
    var first, e := Burst(c, START), Call(Global, at, false, false);
    TwoBurstsShape(p);
    assert [] + first == first;
    EmptyRun(p);
    BurstAdmitted(p, [], 0, c, START);
    var s := Run(p, first);
    FirstAfterPause(p, s, c);
    AdmittedLast(p, first, e, c);
    BurstAdmitted(p, first + [e], 1, c, at);
    AdmittedInPrefix(p, run, c, Global, 0, c);
    assert run[..c + 1] == first + [e];
    AdmittedInPrefix(p, run, c + 1, Global, c, c + 1);
    AdmittedInSplit(p, run, Global, 0, c, |run|);
    AdmittedInSplit(p, run, Global, c, c + 1, |run|);
  }

  lemma EmptyRun(p: Params)
    requires p.rate > 0.0
    ensures Run(p, []) == Store(map[], 0.0) && AfterBurst(p, 0, START) == map[]
  {
  }

  ghost predicate BoundHolds(p: Params, events: seq<Event>)
    requires p.rate > 0.0
  {
    forall key, i, j :: 0 <= i < j <= |events| ==>
      AdmittedIn(p, events, key, i, j) as real <= p.capacity as real + Inflow(p, events[j - 1].at - events[i].at)
  }

  lemma BoundEverywhere(p: Params, events: seq<Event>)
    requires p.Valid() && p.RefillsWithinTtl() && Ordered(events)
    ensures Agrees(p, events) && BoundHolds(p, events)
  {
    hide Inflow, AdmittedIn, Agrees;
    SimulatesReference(p, events, if |events| > 0 then events[|events| - 1].at else 0.0);
    forall key, i, j | 0 <= i < j <= |events|
      ensures AdmittedIn(p, events, key, i, j) as real <= p.capacity as real + Inflow(p, events[j - 1].at - events[i].at)
    {
      AdmissionBound(p, events, key, i, j);
    }
  }

  /** Two bursts a pause apart beat the bound when a bucket does not refill within the ttl. */
  lemma TwoBurstsBreak(p: Params)
    requires p.Valid() && p.maxEntries >= 1 && !p.RefillsWithinTtl()
    ensures Ordinary(TwoBursts(p)) && Ordered(TwoBursts(p))
    ensures !BoundHolds(p, TwoBursts(p)) && !Agrees(p, TwoBursts(p))
  {
    PauseFacts(p);
    TwoBurstsShape(p);
    hide Inflow, AdmittedIn, Agrees, Level, WellFormed, TwoBursts, Ordered, Ordinary, RefRun, Pause, Burst;
    var run := TwoBursts(p);
    var n := |run|;
    TwoBurstsAdmitted(p);
    assert run[n - 1].at - run[0].at == Pause(p);
    assert AdmittedIn(p, run, Global, 0, n) as real > p.capacity as real + Inflow(p, run[n - 1].at - run[0].at);
    if Agrees(p, run) {
      TokensConserved(p, run, Global, 0, n);
      LevelLater(p, RefRun(p, run[..n]), Global, run[n - 1].at, run[n - 1].at);
      assert false;
    }
  }

  /** With no room for any entry every call is refused for lack of room. */
  lemma {:induction false} NoRoomAtAll(p: Params, events: seq<Event>)
    requires p.Valid() && p.maxEntries == 0
    ensures Run(p, events).entries == map[]
    ensures forall i :: 0 <= i < |events| && events[i].Call? ==> OutcomeAt(p, events, i) == Full
  {
    if |events| == 0 {
    } else {
      var n := |events| - 1;
      NoRoomAtAll(p, events[..n]);
      forall i | 0 <= i < |events| && events[i].Call? ensures OutcomeAt(p, events, i) == Full {
        if i < n { SameOutcomes(p, events, n, i); }
      }
    }
  }

  lemma {:induction false} NothingAdmitted(p: Params, events: seq<Event>, key: Key, i: nat, j: nat)
    requires p.Valid() && p.maxEntries == 0 && i <= j <= |events|
    ensures AdmittedIn(p, events, key, i, j) == 0
    decreases j
  {
    NoRoomAtAll(p, events);
    if i == j {
    } else {
      NothingAdmitted(p, events, key, i, j - 1);
    }
  }

  lemma NoRoomAgrees(p: Params, events: seq<Event>)
    requires p.Valid() && p.maxEntries == 0 && Ordered(events)
    ensures Agrees(p, events) && BoundHolds(p, events)
  {
    NoRoomAtAll(p, events);
    hide Inflow, OutcomeAt, RefOutcomeAt, AdmittedIn;
    assert Agrees(p, events);
    hide Agrees;
    InflowAdds(p, 0.0, 0.0);
    forall key, i, j | 0 <= i < j <= |events|
      ensures AdmittedIn(p, events, key, i, j) as real <= p.capacity as real + Inflow(p, events[j - 1].at - events[i].at)
    {
      NothingAdmitted(p, events, key, i, j);
      InflowMonotone(p, 0.0, events[j - 1].at - events[i].at);
    }
  }

  /** For every configuration the loader accepts: pruning is invisible, and the admission bound
      holds, in every run exactly when an idle bucket refills within the ttl or there is no room for
      any bucket. Otherwise a run of plain calls breaks both. */
  lemma PruningInvisibleIff(p: Params)
    requires p.Valid()
    ensures var harmless := p.RefillsWithinTtl() || p.maxEntries == 0;
            && ((forall events: seq<Event> :: Ordered(events) ==> Agrees(p, events)) <==> harmless)
            && ((forall events: seq<Event> :: Ordered(events) ==> BoundHolds(p, events)) <==> harmless)
            && ((forall events: seq<Event> :: Ordinary(events) && Ordered(events) ==> Agrees(p, events)) <==> harmless)
            && ((forall events: seq<Event> :: Ordinary(events) && Ordered(events) ==> BoundHolds(p, events)) <==> harmless)
  {
    hide Agrees, BoundHolds, Ordered, Ordinary, Inflow, TwoBursts, Params.RefillsWithinTtl;
    if p.RefillsWithinTtl() {
      forall events: seq<Event> | Ordered(events) ensures Agrees(p, events) && BoundHolds(p, events) {
        BoundEverywhere(p, events);
      }
    } else if p.maxEntries == 0 {
      forall events: seq<Event> | Ordered(events) ensures Agrees(p, events) && BoundHolds(p, events) {
        NoRoomAgrees(p, events);
      }
    } else {
      TwoBurstsBreak(p);
    }
  }

  // ------------------------------------------------------------------------ Retry-After

  lemma RetryAfterSuffices(p: Params, tokens: real)
    requires p.Valid() && tokens < 1.0
    ensures tokens + Inflow(p, RetryAfter(p, tokens) as real) >= 1.0
  {
    var wait := (1.0 - tokens) / p.rate;
    assert wait * p.rate == 1.0 - tokens;
    assert RetryAfter(p, tokens) as real >= wait;
    InflowMonotone(p, wait, RetryAfter(p, tokens) as real);
  }

  lemma ShorterIsTooShort(p: Params, tokens: real, wait: real)
    requires p.Valid() && tokens < 1.0 && 0.0 <= wait <= RetryAfter(p, tokens) as real - 1.0
    ensures tokens + Inflow(p, wait) < 1.0
  {
    var exact := (1.0 - tokens) / p.rate;
    assert exact * p.rate == 1.0 - tokens;
    assert exact > 0.0;
    assert wait < exact;
    assert (exact - wait) * p.rate > 0.0;
    assert (exact - wait) * p.rate == exact * p.rate - wait * p.rate;
  }

  /** An unknown key is refused for lack of room exactly when the table is at its cap after the
      pruning that was allowed; otherwise it is admitted. */
  lemma FullIff(p: Params, s: Store, key: Key, now: real, contended: bool)
    requires p.Valid()
    ensures var (s', o) := Consume(p, s, key, now, contended);
            && (o == Full <==> key !in s.entries && !HasRoom(p, s, now, contended))
            && (o == Full ==> key !in s'.entries && |s'.entries| >= p.maxEntries)
            && (key !in s.entries && o != Full ==> o == Admitted && key in s'.entries)
            && (key in s.entries || |s.entries| < p.maxEntries ==> o != Full)
  {
    hide Inflow, RetryAfter;
    assert Retain(p, s.entries, now).Keys == Lively(p, s.entries, now);
    SubsetSize(Lively(p, s.entries, now), s.entries.Keys);
  }

  lemma GainsOne(p: Params, events: seq<Event>, n: nat, key: Key)
    requires p.Valid() && Ordered(events) && n < |events|
    requires events[n].Call? && events[n].key == key ==> OutcomeAt(p, events, n) != Admitted
    ensures Level(p, Run(p, events[..n]).entries, key, events[n].at) <= Level(p, Run(p, events[..n + 1]).entries, key, events[n].at)
  {
    hide Inflow, Level, WellFormed, RetryAfter, StepCall, Params.RefillsWithinTtl;
    var s := Run(p, events[..n]);
    assert events[..n + 1][..n] == events[..n];
    RunWellFormed(p, events[..n], events[n].at);
    if events[n].Call? {
      CallLevel(p, s, events[n], key);
    } else {
      RetainLevel(p, s.entries, key, events[n].at);
    }
  }

  /** Between a rejection and a later moment without admissions, the key only gains tokens. */
  lemma {:induction false} LevelRecovers(p: Params, events: seq<Event>, i: nat, j: nat, now: real)
    requires p.Valid() && Ordered(events) && i < j <= |events| && events[i].Call?
    requires events[j - 1].at <= now
    requires forall k :: i <= k < j && events[k].Call? && events[k].key == events[i].key ==> OutcomeAt(p, events, k) != Admitted
    ensures var level := Level(p, Run(p, events[..i + 1]).entries, events[i].key, events[i].at);
            Min(level + Inflow(p, now - events[i].at), p.capacity as real) <= Level(p, Run(p, events[..j]).entries, events[i].key, now)
    decreases j
  {
    hide Inflow, Level, WellFormed, RetryAfter, StepCall, Params.RefillsWithinTtl;
    var key, at := events[i].key, events[j - 1].at;
    var level := Level(p, Run(p, events[..i + 1]).entries, key, events[i].at);
    RunWellFormed(p, events[..j], at);
    LevelLater(p, Run(p, events[..j]).entries, key, at, now);
    if i == j - 1 {
    } else {
      LevelRecovers(p, events, i, j - 1, at);
      GainsOne(p, events, j - 1, key);
      InflowAdds(p, now - at, at - events[i].at);
      assert (now - at) + (at - events[i].at) == now - events[i].at;
      InflowMonotone(p, 0.0, now - at);
      InflowAdds(p, 0.0, 0.0);
    }
  }

  /** Retry-After is honoured: a rejected key that waits the announced seconds, with no call of
      its own admitted meanwhile, is admitted unless the table has no room for it. No condition
      on the ttl is needed. */
  lemma RetryAfterHonoured(p: Params, events: seq<Event>, i: nat, j: nat)
    requires p.Valid() && Ordered(events) && i < j < |events|
    requires events[i].Call? && events[j].Call? && events[j].key == events[i].key
    requires OutcomeAt(p, events, i).Throttled?
    requires events[j].at >= events[i].at + OutcomeAt(p, events, i).retryAfter as real
    requires forall k :: i < k < j && events[k].Call? && events[k].key == events[i].key ==> OutcomeAt(p, events, k) != Admitted
    ensures OutcomeAt(p, events, j) == Admitted || OutcomeAt(p, events, j) == Full
  {
    hide Inflow, Level, WellFormed, RetryAfter, StepCall, Params.RefillsWithinTtl;
    var key := events[i].key;
    var level := Level(p, Run(p, events[..i + 1]).entries, key, events[i].at);
    ThrottledLevel(p, events, i);
    RetryAfterSuffices(p, level);
    InflowMonotone(p, RetryAfter(p, level) as real, events[j].at - events[i].at);
    LevelRecovers(p, events, i, j, events[j].at);
    RunWellFormed(p, events[..j], events[j].at);
    CallLevel(p, Run(p, events[..j]), events[j], key);
  }

  /** Under the ttl condition a key that is admitted nothing gains exactly what flows in. */
  lemma {:induction false} LevelDrifts(p: Params, events: seq<Event>, i: nat, j: nat, now: real)
    requires p.Valid() && p.RefillsWithinTtl() && Ordered(events) && i < j <= |events| && events[i].Call?
    requires events[j - 1].at <= now
    requires forall k :: i < k < j && events[k].Call? && events[k].key == events[i].key ==> OutcomeAt(p, events, k) != Admitted
    ensures var level := Level(p, Run(p, events[..i + 1]).entries, events[i].key, events[i].at);
            Level(p, Run(p, events[..j]).entries, events[i].key, now) == Min(level + Inflow(p, now - events[i].at), p.capacity as real)
    decreases j
  {
    hide Inflow, Level, WellFormed, RetryAfter, StepCall, Params.RefillsWithinTtl;
    var key, at := events[i].key, events[j - 1].at;
    RunWellFormed(p, events[..j], at);
    LevelLater(p, Run(p, events[..j]).entries, key, at, now);
    if i == j - 1 {
    } else {
      LevelDrifts(p, events, i, j - 1, at);
      DriftsOne(p, events, j - 1, key);
      InflowAdds(p, now - at, at - events[i].at);
      assert (now - at) + (at - events[i].at) == now - events[i].at;
      InflowMonotone(p, 0.0, now - at);
      InflowAdds(p, 0.0, 0.0);
    }
  }

  lemma DriftsOne(p: Params, events: seq<Event>, n: nat, key: Key)
    requires p.Valid() && p.RefillsWithinTtl() && Ordered(events) && n < |events|
    requires events[n].Call? && events[n].key == key ==> OutcomeAt(p, events, n) != Admitted
    ensures Level(p, Run(p, events[..n + 1]).entries, key, events[n].at) == Level(p, Run(p, events[..n]).entries, key, events[n].at)
  {
    hide Inflow, Level, WellFormed, RetryAfter, StepCall, Params.RefillsWithinTtl;
    var s := Run(p, events[..n]);
    assert events[..n + 1][..n] == events[..n];
    RunWellFormed(p, events[..n], events[n].at);
    if events[n].Call? {
      CallLevel(p, s, events[n], key);
    } else {
      RetainLevel(p, s.entries, key, events[n].at);
    }
  }

  /** And it is the least: under the ttl condition a call of that key at least one second short of
      the announced wait, with none admitted meanwhile, is throttled again. */
  lemma RetryAfterIsLeast(p: Params, events: seq<Event>, i: nat, j: nat)
    requires p.Valid() && p.RefillsWithinTtl() && Ordered(events) && i < j < |events|
    requires events[i].Call? && events[j].Call? && events[j].key == events[i].key
    requires OutcomeAt(p, events, i).Throttled?
    requires events[j].at <= events[i].at + OutcomeAt(p, events, i).retryAfter as real - 1.0
    requires forall k :: i < k < j && events[k].Call? && events[k].key == events[i].key ==> OutcomeAt(p, events, k) != Admitted
    ensures OutcomeAt(p, events, j).Throttled?
  {
    hide Inflow, Level, WellFormed, RetryAfter, StepCall, Params.RefillsWithinTtl;
    var key, at := events[i].key, events[j].at;
    var level := Level(p, Run(p, events[..i + 1]).entries, key, events[i].at);
    ThrottledLevel(p, events, i);
    ShorterIsTooShort(p, level, at - events[i].at);
    LevelDrifts(p, events, i, j, at);
    ThrottledBelowOne(p, events, j);
  }

  /** What is left after a throttled call, and what it was told. */
  lemma ThrottledLevel(p: Params, events: seq<Event>, i: nat)
    requires p.Valid() && Ordered(events) && i < |events| && events[i].Call? && OutcomeAt(p, events, i).Throttled?
    ensures var level := Level(p, Run(p, events[..i + 1]).entries, events[i].key, events[i].at);
            level < 1.0 && OutcomeAt(p, events, i).retryAfter == RetryAfter(p, level)
  {
    hide Inflow, Level, WellFormed, RetryAfter, StepCall, Params.RefillsWithinTtl;
    RunWellFormed(p, events[..i], events[i].at);
    CallLevel(p, Run(p, events[..i]), events[i], events[i].key);
    assert events[..i + 1][..i] == events[..i];
  }

  lemma ThrottledBelowOne(p: Params, events: seq<Event>, j: nat)
    requires p.Valid() && p.RefillsWithinTtl() && Ordered(events) && j < |events| && events[j].Call?
    requires Level(p, Run(p, events[..j]).entries, events[j].key, events[j].at) < 1.0
    ensures OutcomeAt(p, events, j).Throttled?
  {
    hide Inflow, Level, WellFormed, RetryAfter, StepCall, Params.RefillsWithinTtl;
    var s := Run(p, events[..j]);
    RunWellFormed(p, events[..j], events[j].at);
    CallLevel(p, s, events[j], events[j].key);
    if OutcomeAt(p, events, j) == Full { StillTracked(p, s, events[j]); }
  }

  lemma StillTracked(p: Params, s: Store, e: Event)
    requires p.Valid() && e.Call? && StepCall(p, s, e).1 == Full
    ensures Level(p, StepCall(p, s, e).0.entries, e.key, e.at) == p.capacity as real
  {
    hide Inflow, RetryAfter;
  }
}
