/** The QR-code login session store (server/src/middleware/idp/session.rs), one call at a time:
    every call runs undisturbed at the clock reading it is given. Interleavings of the
    critical sections inside the calls are the subject of SessionProtocol. */
module SessionStore {
  import opened Prelude
  import opened ClientIp

  const MAX_LOGIN_REQUESTS := 15
  const RATE_LIMIT_WINDOW: real := 60.0
  const MAX_ACTIVE_SESSIONS := 5000
  const CLEANUP_INTERVAL: real := 10.0
  const MAX_CONFIRM_ATTEMPTS := 3

  datatype Claims = Claims(sub: string, iss: string, aud: Option<string>, exp: nat, oids: seq<string>, jti: Option<string>)

  datatype Status = Pending | Confirmed(claims: Claims)

  datatype Entry = Entry(createdAt: real, pollSecret: string, userCode: string, failedAttempts: nat, aud: Option<string>, status: Status)

  datatype Rate = Rate(count: nat, start: real)

  /** The random material of a new session. */
  datatype Info = Info(id: string, pollSecret: string, userCode: string)

  datatype ConfirmError = NotFound | Expired | InvalidUserCode | AlreadyConfirmed

  datatype PollError = PollNotFound | Unauthorized

  /** `TableFull` and `StoreFull` are both reported as exceeded capacity. */
  datatype CreateOutcome = Created | RateLimited | TableFull | StoreFull

  type Sessions = map<string, Entry>

  type Rates = map<IpAddr, Rate>

  datatype Store = Store(sessions: Sessions, rates: Rates, lastCleanup: real)

  // ------------------------------------------------------------------ string comparison

  /** The comparison loop folds every pair of bytes, whatever it has seen, and still decides
      equality. */
  method ConstantTimeEq(a: seq<bv8>, b: seq<bv8>) returns (eq: bool)
    ensures eq <==> a == b
  {
    if |a| != |b| {
      return false;
    }
    var res: bv8 := 0;
    for i := 0 to |a|
      invariant res == 0 <==> a[..i] == b[..i]
    {
      OrXor(res, a[i], b[i]);
      assert a[..i + 1] == a[..i] + [a[i]] && b[..i + 1] == b[..i] + [b[i]];
      res := res | (a[i] ^ b[i]);
    }
    assert a[..|a|] == a && b[..|b|] == b;
    return res == 0;
  }

  lemma OrXor(r: bv8, x: bv8, y: bv8)
    ensures r | (x ^ y) == 0 <==> r == 0 && x == y
  {
  }

  /** A user code without dashes, in upper case. */
  function Clean(code: string): string {
    if |code| == 0 then ""
    else CleanChar(code[0]) + Clean(code[1..])
  }

  function CleanChar(c: char): string {
    if c == '-' then "" else [UpperChar(c)]
  }

  predicate IsBlank(code: string) {
    forall i :: 0 <= i < |code| ==> code[i] in {' ', '\t', '\n', '\r'}
  }

  /** A code is mandatory; case and dashes do not matter. */
  predicate CodeMatches(given: Option<string>, expected: string) {
    given.Some? && !IsBlank(given.value) && Clean(given.value) == Clean(expected)
  }

  /** The claims a confirmation stores: the session's audience wins when it has one. */
  function WithAudience(claims: Claims, aud: Option<string>): Claims {
    if aud.Some? then claims.(aud := aud) else claims
  }

  // -------------------------------------------------------------------------- the calls

  function Live(ttl: real, sessions: Sessions, now: real): Sessions {
    map id | id in sessions && now - sessions[id].createdAt <= ttl :: sessions[id]
  }

  function Current(rates: Rates, now: real): Rates {
    map ip | ip in rates && now - rates[ip].start <= RATE_LIMIT_WINDOW :: rates[ip]
  }

  function CleanupForce(ttl: real, s: Store, now: real): Store {
    Store(Live(ttl, s.sessions, now), Current(s.rates, now), s.lastCleanup)
  }

  function MaybeCleanup(ttl: real, s: Store, now: real, contended: bool): Store {
    if !contended && now - s.lastCleanup >= CLEANUP_INTERVAL then CleanupForce(ttl, s, now).(lastCleanup := now) else s
  }

  /** One request counted against `record`, and whether it is within the limit. */
  function Count(record: Rate, now: real): (Rate, bool) {
    if now - record.start > RATE_LIMIT_WINDOW then (Rate(1, now), true)
    else (Rate(record.count + 1, record.start), record.count + 1 <= MAX_LOGIN_REQUESTS)
  }

  predicate NoRoomForIp(rates: Rates, ip: IpAddr) {
    ip !in rates && |rates| >= MAX_ACTIVE_SESSIONS * 2
  }

  /** The per-address part of `create_session`: none if the request may go on. */
  function RateGate(ttl: real, s: Store, ip: IpAddr, now: real): (Store, Option<CreateOutcome>) {
    var s' := if NoRoomForIp(s.rates, ip) then CleanupForce(ttl, s, now) else s;
    if NoRoomForIp(s'.rates, ip) then (s', Some(TableFull))
    else
      var (record, ok) := Count(if ip in s'.rates then s'.rates[ip] else Rate(0, now), now);
      (s'.(rates := s'.rates[ip := record]), if ok then None else Some(RateLimited))
  }

  function Insert(ttl: real, s: Store, aud: Option<string>, info: Info, now: real): (Store, CreateOutcome) {
    var s' := if |s.sessions| >= MAX_ACTIVE_SESSIONS then CleanupForce(ttl, s, now) else s;
    if |s'.sessions| >= MAX_ACTIVE_SESSIONS then (s', StoreFull)
    else (s'.(sessions := s'.sessions[info.id := Entry(now, info.pollSecret, info.userCode, 0, aud, Pending)]), Created)
  }

  function Create(ttl: real, s: Store, raw: Option<IpAddr>, aud: Option<string>, info: Info, now: real, contended: bool): (Store, CreateOutcome) {
    var s1 := MaybeCleanup(ttl, s, now, contended);
    if raw.None? then Insert(ttl, s1, aud, info, now)
    else
      var (s2, refused) := RateGate(ttl, s1, CanonicalClientIp(raw.value), now);
      if refused.Some? then (s2, refused.value) else Insert(ttl, s2, aud, info, now)
  }

  function Verify(ttl: real, sessions: Sessions, id: string, code: Option<string>, now: real): (Sessions, Result<(), ConfirmError>) {
    if id !in sessions then (sessions, Err(NotFound))
    else
      var e := sessions[id];
      if now - e.createdAt > ttl then (sessions - {id}, Err(Expired))
      else if e.status.Confirmed? then (sessions, Err(AlreadyConfirmed))
      else if CodeMatches(code, e.userCode) then (sessions, Ok(()))
      else if e.failedAttempts + 1 >= MAX_CONFIRM_ATTEMPTS then (sessions - {id}, Err(InvalidUserCode))
      else (sessions[id := e.(failedAttempts := e.failedAttempts + 1)], Err(InvalidUserCode))
  }

  function Confirm(ttl: real, sessions: Sessions, id: string, code: Option<string>, claims: Claims, now: real): (Sessions, Result<(), ConfirmError>) {
    var (verified, r) := Verify(ttl, sessions, id, code, now);
    if r.Err? then (verified, r)
    else (verified[id := verified[id].(status := Confirmed(WithAudience(claims, verified[id].aud)))], Ok(()))
  }

  function Poll(ttl: real, sessions: Sessions, id: string, secret: string, now: real): (Sessions, Result<Status, PollError>) {
    if id !in sessions then (sessions, Err(PollNotFound))
    else
      var e := sessions[id];
      if e.pollSecret != secret then (sessions, Err(Unauthorized))
      else if now - e.createdAt > ttl then (sessions - {id}, Err(PollNotFound))
      else if e.status.Pending? then (sessions, Ok(Pending))
      else (sessions - {id}, Ok(e.status))
  }

  ghost predicate Bounded(s: Store) {
    |s.sessions| <= MAX_ACTIVE_SESSIONS && |s.rates| <= MAX_ACTIVE_SESSIONS * 2
  }

  lemma UpdateSize<K, V>(m: map<K, V>, k: K, v: V)
    ensures |m[k := v]| == if k in m then |m| else |m| + 1
  {
    assert m[k := v].Keys == m.Keys + {k};
  }

  lemma CleanupBounded(ttl: real, s: Store, now: real)
    requires Bounded(s)
    ensures Bounded(CleanupForce(ttl, s, now))
  {
    SubsetSize(Live(ttl, s.sessions, now).Keys, s.sessions.Keys);
    SubsetSize(Current(s.rates, now).Keys, s.rates.Keys);
  }

  class SessionStore {
    const ttl: real
    var sessions: Sessions
    var rates: Rates
    var lastCleanup: real

    ghost predicate Valid()
      reads this
    {
      Bounded(Value())
    }

    ghost function Value(): Store
      reads this
    {
      Store(sessions, rates, lastCleanup)
    }

    constructor (ttl: real, now: real)
      ensures Valid() && this.ttl == ttl && Value() == Store(map[], map[], now)
    {
      this.ttl := ttl;
      sessions, rates, lastCleanup := map[], map[], now;
    }

    method CleanupExpiredForce(now: real)
      requires Valid()
      modifies this`sessions, this`rates
      ensures Valid() && Value() == CleanupForce(ttl, old(Value()), now)
    {
      CleanupBounded(ttl, Value(), now);
      sessions := Live(ttl, sessions, now);
      rates := Current(rates, now);
    }

    method MaybeCleanupExpired(now: real, contended: bool)
      requires Valid()
      modifies this
      ensures Valid() && Value() == MaybeCleanup(ttl, old(Value()), now, contended)
    {
      if !contended && now - lastCleanup >= CLEANUP_INTERVAL {
        lastCleanup := now;
        CleanupExpiredForce(now);
      }
    }

    /** The per-address check and its counting. */
    method CheckRate(ip: IpAddr, now: real) returns (refused: Option<CreateOutcome>)
      requires Valid()
      modifies this
      ensures Valid() && (Value(), refused) == RateGate(ttl, old(Value()), ip, now)
    {
      if NoRoomForIp(rates, ip) {
        CleanupExpiredForce(now);
        if NoRoomForIp(rates, ip) {
          return Some(TableFull);
        }
      }
      refused := None;
      var record := if ip in rates then rates[ip] else Rate(0, now);
      if now - record.start > RATE_LIMIT_WINDOW {
        record := Rate(1, now);
      } else {
        record := record.(count := record.count + 1);
        if record.count > MAX_LOGIN_REQUESTS {
          refused := Some(RateLimited);
        }
      }
      UpdateSize(rates, ip, record);
      rates := rates[ip := record];
    }

    method CreateSession(raw: Option<IpAddr>, aud: Option<string>, info: Info, now: real, contended: bool) returns (outcome: CreateOutcome)
      requires Valid()
      modifies this
      ensures Valid() && (Value(), outcome) == Create(ttl, old(Value()), raw, aud, info, now, contended)
    {
      hide Bounded, CleanupForce, NoRoomForIp, Count;
      MaybeCleanupExpired(now, contended);
      if raw.Some? {
        var refused := CheckRate(CanonicalClientIp(raw.value), now);
        if refused.Some? {
          return refused.value;
        }
      }
      outcome := InsertSession(aud, info, now);
    }

    method InsertSession(aud: Option<string>, info: Info, now: real) returns (outcome: CreateOutcome)
      requires Valid()
      modifies this
      ensures Valid() && (Value(), outcome) == Insert(ttl, old(Value()), aud, info, now)
    {
      if |sessions| >= MAX_ACTIVE_SESSIONS {
        CleanupExpiredForce(now);
        if |sessions| >= MAX_ACTIVE_SESSIONS {
          return StoreFull;
        }
      }
      var entry := Entry(now, info.pollSecret, info.userCode, 0, aud, Pending);
      UpdateSize(sessions, info.id, entry);
      sessions := sessions[info.id := entry];
      return Created;
    }

    method VerifySessionCode(id: string, code: Option<string>, now: real) returns (r: Result<(), ConfirmError>)
      requires Valid()
      modifies this`sessions
      ensures Valid() && (sessions, r) == Verify(ttl, old(sessions), id, code, now)
    {
      if id !in sessions { return Err(NotFound); }
      var entry := sessions[id];
      SubsetSize((sessions - {id}).Keys, sessions.Keys);
      if now - entry.createdAt > ttl {
        sessions := sessions - {id};
        return Err(Expired);
      }
      if entry.status.Confirmed? { return Err(AlreadyConfirmed); }
      if !CodeMatches(code, entry.userCode) {
        var attempts := entry.failedAttempts + 1;
        if attempts >= MAX_CONFIRM_ATTEMPTS {
          sessions := sessions - {id};
        } else {
          UpdateSize(sessions, id, entry.(failedAttempts := attempts));
          sessions := sessions[id := entry.(failedAttempts := attempts)];
        }
        return Err(InvalidUserCode);
      }
      return Ok(());
    }

    method ConfirmSession(id: string, code: Option<string>, claims: Claims, now: real) returns (r: Result<(), ConfirmError>)
      requires Valid()
      modifies this`sessions
      ensures Valid() && (sessions, r) == Confirm(ttl, old(sessions), id, code, claims, now)
    {
      r := VerifySessionCode(id, code, now);
      if r.Err? { return; }
      var entry := sessions[id];
      entry := entry.(status := Confirmed(WithAudience(claims, entry.aud)));
      UpdateSize(sessions, id, entry);
      sessions := sessions[id := entry];
    }

    method GetAndConsume(id: string, secret: string, now: real) returns (r: Result<Status, PollError>)
      requires Valid()
      modifies this`sessions
      ensures Valid() && (sessions, r) == Poll(ttl, old(sessions), id, secret, now)
    {
      if id !in sessions { return Err(PollNotFound); }
      var entry := sessions[id];
      if entry.pollSecret != secret { return Err(Unauthorized); }
      SubsetSize((sessions - {id}).Keys, sessions.Keys);
      if now - entry.createdAt > ttl {
        sessions := sessions - {id};
        return Err(PollNotFound);
      }
      match entry.status {
        case Pending => return Ok(Pending);
        case Confirmed(_) =>
          sessions := sessions - {id};
          return Ok(entry.status);
      }
    }
  }
}
