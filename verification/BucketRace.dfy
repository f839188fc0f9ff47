/** Calls of the token-bucket store that overlap (server/src/middleware/rate_limiter.rs): a call that
    misses its key looks it up in one critical section and inserts a fresh bucket in another. All
    steps happen at one instant `now`, on any table the calls before it have left. */
module BucketRace {
  import opened Prelude
  import opened TokenBucket

  /** The table, and the calls that have missed their key and are about to insert it. */
  datatype State = State(entries: Entries, misses: map<nat, Key>)

  datatype Step =
    | Lookup(actor: nat, key: Key)
    | Insert(actor: nat)

  function Fresh(p: Params, now: real): Bucket {
    Bucket(p.capacity as real - 1.0, now, now)
  }

  /** One critical section; a step its actor is not at changes nothing. */
  function Apply(p: Params, now: real, s: State, step: Step): State
    requires p.rate > 0.0
  {
    match step
    case Lookup(actor, key) =>
      if actor in s.misses then s
      else if key in s.entries then s.(entries := s.entries[key := Take(p, s.entries[key], now).0])
      else if |s.entries| >= p.maxEntries then s
      else s.(misses := s.misses[actor := key])
    case Insert(actor) =>
      if actor in s.misses then State(s.entries[s.misses[actor] := Fresh(p, now)], s.misses - {actor}) else s
  }

  /** The step lets a call for `key` through; a miss is let through once it is past the entry cap. */
  predicate Admits(p: Params, now: real, s: State, step: Step, key: Key)
    requires p.rate > 0.0
  {
    && step.Lookup? && step.key == key && step.actor !in s.misses
    && if key in s.entries then Take(p, s.entries[key], now).1 == Admitted else |s.entries| < p.maxEntries
  }

  function Exec(p: Params, now: real, s: State, steps: seq<Step>): State
    requires p.rate > 0.0
  {
    if |steps| == 0 then s else Apply(p, now, Exec(p, now, s, steps[..|steps| - 1]), steps[|steps| - 1])
  }

  /** Calls for `key` let through. */
  function Passed(p: Params, now: real, s: State, steps: seq<Step>, key: Key): nat
    requires p.rate > 0.0
  {
    if |steps| == 0 then 0
    else
      var n := |steps| - 1;
      Passed(p, now, s, steps[..n], key) + if Admits(p, now, Exec(p, now, s, steps[..n]), steps[n], key) then 1 else 0
  }

  /** Undisturbed, a lookup and the insertion after it make up the call, when no cleanup is made. */
  lemma CallAlone(p: Params, now: real, s: State, actor: nat, key: Key, lastCleanup: real)
    requires p.Valid() && actor !in s.misses
    ensures var s' := Apply(p, now, Apply(p, now, s, Lookup(actor, key)), Insert(actor));
            var (after, o) := Consume(p, Store(s.entries, lastCleanup), key, now, true);
            s'.entries == after.entries && s'.misses == s.misses && (Admits(p, now, s, Lookup(actor, key), key) <==> o == Admitted)
  {
    hide Take;
    PutThenRemove(s.misses, actor, key);
  }

  // ---------------------------------------------------------------------------- accounting

  predicate Missed(s: State, key: Key) {
    exists a :: a in s.misses && s.misses[a] == key
  }

  /** What `key` has left, once the calls that missed it have inserted it. */
  function Left(p: Params, now: real, s: State, key: Key): real {
    if Missed(s, key) then p.capacity as real - 1.0 else Level(p, s.entries, key, now)
  }

  /** A call for `key` is let through while another that missed it has not inserted it yet. */
  predicate Overlaps(p: Params, now: real, s: State, step: Step, key: Key)
    requires p.rate > 0.0
  {
    Missed(s, key) && Admits(p, now, s, step, key)
  }

  /** No step of the run overlaps for `key`. */
  predicate Apart(p: Params, now: real, s: State, steps: seq<Step>, key: Key)
    requires p.rate > 0.0
  {
    |steps| > 0 ==>
      var n := |steps| - 1;
      Apart(p, now, s, steps[..n], key) && !Overlaps(p, now, Exec(p, now, s, steps[..n]), steps[n], key)
  }

  /** At `now` nothing flows in any more, and nothing was taken later. */
  ghost predicate Ready(p: Params, s: State, now: real) {
    p.Valid() && WellFormed(p, s.entries, now)
  }

  lemma StepKeepsReady(p: Params, now: real, s: State, step: Step)
    requires Ready(p, s, now)
    ensures Ready(p, Apply(p, now, s, step), now)
  {
    if step.Lookup? && step.key in s.entries {
      TakeLevel(p, s.entries, step.key, step.key, now);
    }
    hide Inflow, RetryAfter;
  }

  lemma {:induction false} RunKeepsReady(p: Params, now: real, s: State, steps: seq<Step>)
    requires Ready(p, s, now)
    ensures Ready(p, Exec(p, now, s, steps), now)
  {
    if |steps| == 0 {
    } else {
      hide Ready;
      assert p.Valid() by { ReadyIsValid(p, s, now); }
      RunKeepsReady(p, now, s, steps[..|steps| - 1]);
      StepKeepsReady(p, now, Exec(p, now, s, steps[..|steps| - 1]), steps[|steps| - 1]);
    }
  }

  lemma ReadyIsValid(p: Params, s: State, now: real)
    requires Ready(p, s, now)
    ensures p.Valid()
  {
  }

  lemma MissedAfter(p: Params, now: real, s: State, step: Step, key: Key)
    requires p.rate > 0.0
    ensures var s' := Apply(p, now, s, step);
            && (step.Lookup? ==> (Missed(s', key) <==> Missed(s, key) || (step.key == key && key !in s.entries && Admits(p, now, s, step, key))))
            && (step.Insert? && Missed(s', key) ==> Missed(s, key))
            && (step.Insert? && step.actor in s.misses && s.misses[step.actor] != key ==> (Missed(s', key) <==> Missed(s, key)))
  {
    hide Take;
    var s' := Apply(p, now, s, step);
    if Missed(s, key) {
      var a :| a in s.misses && s.misses[a] == key;
      if step.Lookup? || (step.actor in s.misses && s.misses[step.actor] != key) {
        assert a in s'.misses && s'.misses[a] == key;
      }
    }
    if step.Lookup? && step.key == key && key !in s.entries && Admits(p, now, s, step, key) {
      assert step.actor in s'.misses && s'.misses[step.actor] == key;
    }
  }

  /** A step takes from what `key` has left exactly what it lets through, unless it overlaps, when it
      takes nothing. */
  lemma StepAccounts(p: Params, now: real, s: State, step: Step, key: Key)
    requires Ready(p, s, now)
    ensures var taken := if Admits(p, now, s, step, key) && !Overlaps(p, now, s, step, key) then 1.0 else 0.0;
            Left(p, now, Apply(p, now, s, step), key) == Left(p, now, s, key) - taken
  {
    MissedAfter(p, now, s, step, key);
    InflowAdds(p, 0.0, 0.0);
    assert now - now == 0.0;
    var s' := Apply(p, now, s, step);
    hide Missed, Inflow, RetryAfter;
    match step {
      case Lookup(actor, k) =>
        if actor !in s.misses && k in s.entries { TakeLevel(p, s.entries, k, key, now); }
      case Insert(actor) =>
        if actor in s.misses {
          var k := s.misses[actor];
          if k == key { MissedBy(s, actor); }
        }
    }
  }

  lemma MissedBy(s: State, actor: nat)
    requires actor in s.misses
    ensures Missed(s, s.misses[actor])
  {
  }

  /** The overlapping steps of a run. */
  function Overlapping(p: Params, now: real, s: State, steps: seq<Step>, key: Key): nat
    requires p.rate > 0.0
  {
    if |steps| == 0 then 0
    else
      var n := |steps| - 1;
      Overlapping(p, now, s, steps[..n], key) + if Overlaps(p, now, Exec(p, now, s, steps[..n]), steps[n], key) then 1 else 0
  }

  /** In every interleaving: what was let through and what is left exceed what there was by the number
      of overlapping calls. */
  lemma {:induction false} RunAccounts(p: Params, now: real, s: State, steps: seq<Step>, key: Key)
    requires Ready(p, s, now)
    ensures Passed(p, now, s, steps, key) as real + Left(p, now, Exec(p, now, s, steps), key) ==
            Left(p, now, s, key) + Overlapping(p, now, s, steps, key) as real
    ensures Overlapping(p, now, s, steps, key) == 0 <==> Apart(p, now, s, steps, key)
  {
    if |steps| == 0 {
    } else {
      var n := |steps| - 1;
      ReadyIsValid(p, s, now);
      RunAccounts(p, now, s, steps[..n], key);
      RunKeepsReady(p, now, s, steps[..n]);
      hide Ready, Left, Admits, Overlaps;
      StepAccounts(p, now, Exec(p, now, s, steps[..n]), steps[n], key);
      OverlapAdmits(p, now, Exec(p, now, s, steps[..n]), steps[n], key);
    }
  }

  lemma OverlapAdmits(p: Params, now: real, s: State, step: Step, key: Key)
    requires p.rate > 0.0
    ensures Overlaps(p, now, s, step, key) ==> Admits(p, now, s, step, key)
  {
  }

  // ------------------------------------------------------------------------ continuations

  lemma ExecNext(p: Params, now: real, s: State, steps: seq<Step>, step: Step, key: Key)
    requires p.rate > 0.0
    ensures Exec(p, now, s, steps + [step]) == Apply(p, now, Exec(p, now, s, steps), step)
    ensures Passed(p, now, s, steps + [step], key) ==
            Passed(p, now, s, steps, key) + if Admits(p, now, Exec(p, now, s, steps), step, key) then 1 else 0
    ensures Apart(p, now, s, steps + [step], key) <==>
            Apart(p, now, s, steps, key) && !Overlaps(p, now, Exec(p, now, s, steps), step, key)
  {
    assert (steps + [step])[..|steps|] == steps;
  }

  lemma {:induction false} ExecAppend(p: Params, now: real, s: State, steps: seq<Step>, more: seq<Step>, key: Key)
    requires p.rate > 0.0
    ensures var s1 := Exec(p, now, s, steps);
            && Exec(p, now, s, steps + more) == Exec(p, now, s1, more)
            && Passed(p, now, s, steps + more, key) == Passed(p, now, s, steps, key) + Passed(p, now, s1, more, key)
  {
    if |more| == 0 {
      assert steps + more == steps;
    } else {
      var n, s1 := |more| - 1, Exec(p, now, s, steps);
      hide Apply, Admits, Exec, Passed, Apart;
      var init, last := more[..n], more[n];
      ExecAppend(p, now, s, steps, init, key);
      assert more == init + [last] && steps + more == (steps + init) + [last];
      ExecNext(p, now, s, steps + init, last, key);
      ExecNext(p, now, s1, init, last, key);
    }
  }

  /** The calls that missed `key` insert it, one after another. */
  lemma {:induction false} InsertAll(p: Params, now: real, s: State, key: Key) returns (more: seq<Step>)
    requires p.rate > 0.0
    ensures Apart(p, now, s, more, key) && Passed(p, now, s, more, key) == 0
    ensures !Missed(Exec(p, now, s, more), key)
    ensures Missed(s, key) ==> key in Exec(p, now, s, more).entries
    ensures key in s.entries ==> key in Exec(p, now, s, more).entries
    decreases |s.misses|
  {
    if !Missed(s, key) {
      more := [];
    } else {
      var a :| a in s.misses && s.misses[a] == key;
      var s1 := Apply(p, now, s, Insert(a));
      assert |s1.misses| < |s.misses| by { assert s1.misses.Keys == s.misses.Keys - {a}; assert a in s.misses.Keys; }
      var rest := InsertAll(p, now, s1, key);
      more := [Insert(a)] + rest;
      OneThenRest(p, now, s, Insert(a), rest, key);
    }
  }

  lemma OneThenRest(p: Params, now: real, s: State, step: Step, rest: seq<Step>, key: Key)
    requires p.rate > 0.0
    ensures var s1 := Apply(p, now, s, step);
            && Exec(p, now, s, [step] + rest) == Exec(p, now, s1, rest)
            && Passed(p, now, s, [step] + rest, key) == Passed(p, now, s1, rest, key) + (if Admits(p, now, s, step, key) then 1 else 0)
            && (Apart(p, now, s, [step] + rest, key) <==> !Overlaps(p, now, s, step, key) && Apart(p, now, s1, rest, key))
  {
    assert [] + [step] == [step];
    ExecNext(p, now, s, [], step, key);
    ExecAppend(p, now, s, [step], rest, key);
    ApartAppend(p, now, s, [step], rest, key);
    hide Apply, Admits, Overlaps;
  }

  /** With nothing missed, a tracked key lets through every whole token it has left. */
  lemma {:induction false} SpendAll(p: Params, now: real, s: State, key: Key) returns (more: seq<Step>)
    requires Ready(p, s, now) && key in s.entries && !Missed(s, key)
    ensures Apart(p, now, s, more, key)
    ensures Passed(p, now, s, more, key) as real > Level(p, s.entries, key, now) - 1.0
    decreases Level(p, s.entries, key, now).Floor
  {
    var level := Level(p, s.entries, key, now);
    LevelLater(p, s.entries, key, now, now);
    if level < 1.0 {
      more := [];
    } else {
      var a := UpperBound(s.misses.Keys);
      var step := Lookup(a, key);
      var s1 := Apply(p, now, s, step);
      StepKeepsReady(p, now, s, step);
      MissedAfter(p, now, s, step, key);
      StepAccounts(p, now, s, step, key);
      TakeLevel(p, s.entries, key, key, now);
      hide Inflow, RetryAfter, Ready, Missed;
      assert Admits(p, now, s, step, key) && !Overlaps(p, now, s, step, key);
      var level1 := Level(p, s1.entries, key, now);
      assert level1 == level - 1.0;
      assert level1.Floor < level.Floor;
      var rest := SpendAll(p, now, s1, key);
      more := [step] + rest;
      OneThenRest(p, now, s, step, rest, key);
    }
  }

  /** Whatever has been let through, the rest can be, to the last whole token. */
  lemma SpendRest(p: Params, now: real, s: State, key: Key) returns (more: seq<Step>)
    requires Ready(p, s, now) && (Missed(s, key) || key in s.entries)
    ensures Apart(p, now, s, more, key) && Passed(p, now, s, more, key) as real > Left(p, now, s, key) - 1.0
  {
    ReadyIsValid(p, s, now);
    var inserts := InsertAll(p, now, s, key);
    var s1 := Exec(p, now, s, inserts);
    RunKeepsReady(p, now, s, inserts);
    RunAccounts(p, now, s, inserts, key);
    var spends := SpendAll(p, now, s1, key);
    more := inserts + spends;
    ExecAppend(p, now, s, inserts, spends, key);
    ApartAppend(p, now, s, inserts, spends, key);
  }

  lemma {:induction false} ApartAppend(p: Params, now: real, s: State, steps: seq<Step>, more: seq<Step>, key: Key)
    requires p.rate > 0.0
    ensures Apart(p, now, s, steps + more, key) <==> Apart(p, now, s, steps, key) && Apart(p, now, Exec(p, now, s, steps), more, key)
  {
    if |more| == 0 {
      assert steps + more == steps;
    } else {
      var n, s1 := |more| - 1, Exec(p, now, s, steps);
      hide Apply, Overlaps, Exec, Apart, Passed;
      var init, last := more[..n], more[n];
      ApartAppend(p, now, s, steps, init, key);
      ExecAppend(p, now, s, steps, init, key);
      assert more == init + [last] && steps + more == (steps + init) + [last];
      ExecNext(p, now, s, steps + init, last, key);
      ExecNext(p, now, s1, init, last, key);
    }
  }

  /** A key that was ever let through is tracked or about to be. */
  lemma {:induction false} Touched(p: Params, now: real, s: State, steps: seq<Step>, key: Key)
    requires p.rate > 0.0 && !Apart(p, now, s, steps, key)
    ensures var s' := Exec(p, now, s, steps); Missed(s', key) || key in s'.entries
  {
    var n := |steps| - 1;
    var s1 := Exec(p, now, s, steps[..n]);
    MissedAfter(p, now, s1, steps[n], key);
    if Apart(p, now, s, steps[..n], key) {
      StaysTouched(p, now, s1, steps[n], key);
    } else {
      Touched(p, now, s, steps[..n], key);
      StaysTouched(p, now, s1, steps[n], key);
    }
  }

  lemma StaysTouched(p: Params, now: real, s: State, step: Step, key: Key)
    requires p.rate > 0.0 && (Missed(s, key) || key in s.entries)
    ensures var s' := Apply(p, now, s, step); Missed(s', key) || key in s'.entries
  {
    MissedAfter(p, now, s, step, key);
    if step.Insert? && step.actor in s.misses && s.misses[step.actor] == key {
      assert key in Apply(p, now, s, step).entries;
    }
    hide Missed, Take;
  }

  /** Exactly when overlapping calls can overspend: after any run of an instant that began with no call
      under way, no continuation without an overlap lets through more than the tokens there were if
      and only if no two calls for that key have overlapped. */
  lemma NoOverspendIff(p: Params, now: real, s: State, steps: seq<Step>, key: Key)
    requires Ready(p, s, now) && s.misses == map[]
    ensures (forall more: seq<Step> :: Apart(p, now, Exec(p, now, s, steps), more, key) ==>
               Passed(p, now, s, steps + more, key) as real <= Level(p, s.entries, key, now))
            <==> Apart(p, now, s, steps, key)
  {
    ReadyIsValid(p, s, now);
    var s1 := Exec(p, now, s, steps);
    RunKeepsReady(p, now, s, steps);
    RunAccounts(p, now, s, steps, key);
    assert !Missed(s, key);
    if Apart(p, now, s, steps, key) {
      forall more: seq<Step> | Apart(p, now, s1, more, key)
        ensures Passed(p, now, s, steps + more, key) as real <= Level(p, s.entries, key, now)
      {
        ApartAppend(p, now, s, steps, more, key);
        RunAccounts(p, now, s, steps + more, key);
        RunKeepsReady(p, now, s, steps + more);
        LeftNonNegative(p, now, Exec(p, now, s, steps + more), key);
      }
    } else {
      Touched(p, now, s, steps, key);
      var more := SpendRest(p, now, s1, key);
      ExecAppend(p, now, s, steps, more, key);
    }
  }

  lemma LeftNonNegative(p: Params, now: real, s: State, key: Key)
    requires Ready(p, s, now)
    ensures Left(p, now, s, key) >= 0.0
  {
    LevelLater(p, s.entries, key, now, now);
  }

  /** `n` calls for one key that look it up before any of them has inserted it. */
  function Rush(n: nat): seq<Step> {
    seq(n, i requires 0 <= i < n => Lookup(i, Global))
  }

  /** All of them pass, whatever the capacity. */
  lemma {:induction false} RushPasses(p: Params, now: real, n: nat)
    requires p.Valid() && p.maxEntries >= 1
    ensures var s := Exec(p, now, State(map[], map[]), Rush(n)); s.entries == map[] && forall a :: a in s.misses ==> a < n
    ensures Passed(p, now, State(map[], map[]), Rush(n), Global) == n
  {
    if n == 0 {
    } else {
      RushPasses(p, now, n - 1);
      assert Rush(n) == Rush(n - 1) + [Lookup(n - 1, Global)];
      ExecNext(p, now, State(map[], map[]), Rush(n - 1), Lookup(n - 1, Global), Global);
      hide Exec, Passed, Rush;
    }
  }

  // --------------------------------------------------------------------------- the entry cap

  function MissedKeys(s: State): set<Key> {
    set a | a in s.misses :: s.misses[a]
  }

  ghost predicate OnlyInserts(steps: seq<Step>) {
    forall i :: 0 <= i < |steps| ==> steps[i].Insert?
  }

  lemma InsertKeys(p: Params, now: real, s: State, step: Step)
    requires p.rate > 0.0 && step.Insert?
    ensures var s' := Apply(p, now, s, step);
            s.entries.Keys <= s'.entries.Keys && s'.entries.Keys + MissedKeys(s') == s.entries.Keys + MissedKeys(s)
  {
    var s' := Apply(p, now, s, step);
    forall k | k in s.entries.Keys + MissedKeys(s) ensures k in s'.entries.Keys + MissedKeys(s') {
      if k in MissedKeys(s) {
        var a :| a in s.misses && s.misses[a] == k;
        if a != step.actor { assert a in s'.misses && s'.misses[a] == k; }
      }
    }
    forall k | k in MissedKeys(s') ensures k in MissedKeys(s) {
      var a :| a in s'.misses && s'.misses[a] == k;
      assert a in s.misses && s.misses[a] == k;
    }
  }

  lemma {:induction false} InsertsKeys(p: Params, now: real, s: State, steps: seq<Step>)
    requires p.rate > 0.0 && OnlyInserts(steps)
    ensures var s' := Exec(p, now, s, steps); s'.entries.Keys + MissedKeys(s') == s.entries.Keys + MissedKeys(s)
  {
    if |steps| == 0 {
    } else {
      InsertsKeys(p, now, s, steps[..|steps| - 1]);
      InsertKeys(p, now, Exec(p, now, s, steps[..|steps| - 1]), steps[|steps| - 1]);
      hide Apply, MissedKeys;
    }
  }

  lemma {:induction false} InsertEverything(p: Params, now: real, s: State) returns (more: seq<Step>)
    requires p.rate > 0.0
    ensures OnlyInserts(more) && Exec(p, now, s, more).misses == map[]
    decreases |s.misses|
  {
    if s.misses == map[] {
      more := [];
    } else {
      var a :| a in s.misses;
      var s1 := Apply(p, now, s, Insert(a));
      assert |s1.misses| < |s.misses| by { assert s1.misses.Keys == s.misses.Keys - {a}; assert a in s.misses.Keys; }
      var rest := InsertEverything(p, now, s1);
      more := [Insert(a)] + rest;
      OneThenRest(p, now, s, Insert(a), rest, Global);
    }
  }

  /** The cap check and the insertion are apart too: in any state the calls under way keep the table
      within its cap if and only if the keys it holds and the keys they missed fit together. */
  lemma CapKeptIff(p: Params, now: real, s: State)
    requires p.rate > 0.0
    ensures (forall more: seq<Step> :: OnlyInserts(more) ==> |Exec(p, now, s, more).entries| <= p.maxEntries)
            <==> |s.entries.Keys + MissedKeys(s)| <= p.maxEntries
  {
    var all := s.entries.Keys + MissedKeys(s);
    if |all| <= p.maxEntries {
      forall more: seq<Step> | OnlyInserts(more) ensures |Exec(p, now, s, more).entries| <= p.maxEntries {
        InsertsKeys(p, now, s, more);
        SubsetSize(Exec(p, now, s, more).entries.Keys, all);
      }
    } else {
      var more := InsertEverything(p, now, s);
      InsertsKeys(p, now, s, more);
      var s' := Exec(p, now, s, more);
      assert MissedKeys(s') == {};
      assert s'.entries.Keys == all;
    }
  }
}
