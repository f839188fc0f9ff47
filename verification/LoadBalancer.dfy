/** Upstream selection and failover (server/src/configuration.rs, RouteTarget). Node health and load
    change under the balancer's feet, so every call is given the view it reads. */
module LoadBalancer {
  import opened Prelude

  type Uri = string

  datatype Strategy = RoundRobin | Random | LeastConnections | Sticky | HighestScore

  /** What one call reads of one node. */
  datatype Reading = Reading(available: bool, connections: nat, score: nat)

  /** `pick` stands for the random number or the hash of the client address. */
  datatype View = View(nodes: seq<Reading>, pick: nat)

  /** The three pools a call looks at in turn. */
  datatype Pool = AvailableUntried | Untried | Everything

  predicate InPool(pool: Pool, uris: seq<Uri>, view: View, failed: seq<Uri>, k: nat)
    requires |view.nodes| == |uris| && k < |uris|
  {
    match pool
    case AvailableUntried => view.nodes[k].available && uris[k] !in failed
    case Untried => uris[k] !in failed
    case Everything => true
  }

  ghost predicate Increasing(slice: seq<nat>) {
    forall i, j :: 0 <= i < j < |slice| ==> slice[i] < slice[j]
  }

  /** The positions below `n` that belong to a pool, in order. */
  function Filter(pool: Pool, uris: seq<Uri>, view: View, failed: seq<Uri>, n: nat): (slice: seq<nat>)
    requires |view.nodes| == |uris| && n <= |uris|
    ensures forall k: nat :: k in slice <==> k < n && InPool(pool, uris, view, failed, k)
  {
    if n == 0 then []
    else Filter(pool, uris, view, failed, n - 1) + if InPool(pool, uris, view, failed, n - 1) then [n - 1] else []
  }

  ghost predicate AnyIn(pool: Pool, uris: seq<Uri>, view: View, failed: seq<Uri>)
    requires |view.nodes| == |uris|
  {
    exists k: nat :: k < |uris| && InPool(pool, uris, view, failed, k)
  }

  /** The nodes a call chooses among: available and untried ones, else untried ones, else all. */
  function Candidates(uris: seq<Uri>, view: View, failed: seq<Uri>): (slice: seq<nat>)
    requires |view.nodes| == |uris| && |uris| > 0
    ensures |slice| > 0
    ensures forall k: nat :: k in slice ==> k < |uris|
    ensures AnyIn(AvailableUntried, uris, view, failed) ==>
              forall k: nat :: k in slice <==> k < |uris| && InPool(AvailableUntried, uris, view, failed, k)
    ensures !AnyIn(AvailableUntried, uris, view, failed) && AnyIn(Untried, uris, view, failed) ==>
              forall k: nat :: k in slice <==> k < |uris| && InPool(Untried, uris, view, failed, k)
    ensures !AnyIn(Untried, uris, view, failed) ==> forall k: nat :: k in slice <==> k < |uris|
    ensures AnyIn(Untried, uris, view, failed) ==> forall k: nat :: k in slice ==> InPool(Untried, uris, view, failed, k)
  {
    var n := |uris|;
    var available := Filter(AvailableUntried, uris, view, failed, n);
    if |available| > 0 then
      assert AnyIn(AvailableUntried, uris, view, failed) && AnyIn(Untried, uris, view, failed) by {
        assert available[0] in available;
        assert InPool(Untried, uris, view, failed, available[0]);
      }
      available
    else
      assert !AnyIn(AvailableUntried, uris, view, failed);
      var untried := Filter(Untried, uris, view, failed, n);
      if |untried| > 0 then
        assert AnyIn(Untried, uris, view, failed) by { assert untried[0] in untried; }
        untried
      else
        assert !AnyIn(Untried, uris, view, failed);
        var all := Filter(Everything, uris, view, failed, n);
        assert 0 in all by { assert InPool(Everything, uris, view, failed, 0); }
        all
  }

  /** What the pools are, written out. */
  lemma Pools(uris: seq<Uri>, view: View, failed: seq<Uri>, k: nat)
    requires |view.nodes| == |uris| && k < |uris|
    ensures InPool(AvailableUntried, uris, view, failed, k) <==> view.nodes[k].available && uris[k] !in failed
    ensures InPool(Untried, uris, view, failed, k) <==> uris[k] !in failed
  {
  }

  class RouteTarget {
    const uris: seq<Uri>
    const strategy: Strategy
    var rrCounter: nat

    constructor (uris: seq<Uri>, strategy: Strategy)
      ensures this.uris == uris && this.strategy == strategy && rrCounter == 0
    {
      this.uris, this.strategy, rrCounter := uris, strategy, 0;
    }

    /** Never a node tried before while an untried one is left, and an available one among the
        untried if there is any; then the strategy's choice among those. */
    method NextUpstream(view: View, failed: seq<Uri>) returns (k: nat)
      requires |uris| > 0 && |view.nodes| == |uris|
      modifies this
      ensures k < |uris|
      ensures |uris| == 1 ==> k == 0 && rrCounter == old(rrCounter)
      ensures |uris| > 1 ==>
                var slice := Candidates(uris, view, failed);
                && k in slice
                && rrCounter == (if |slice| > 1 && strategy == RoundRobin then old(rrCounter) + 1 else old(rrCounter))
                && (|slice| > 1 && strategy == RoundRobin ==> k == slice[old(rrCounter) % |slice|])
                && (|slice| > 1 && (strategy == Random || strategy == Sticky) ==> k == slice[view.pick % |slice|])
                && (strategy == LeastConnections ==> IsFirstMin(view, slice, k))
                && (strategy == HighestScore ==> IsLastMax(view, slice, k))
      ensures AnyIn(Untried, uris, view, failed) ==> uris[k] !in failed
    {
      hide Candidates;
      if |uris| == 1 {
        OnlyOne(uris, view, failed);
        return 0;
      }
      var slice := Candidates(uris, view, failed);
      assert forall i :: 0 <= i < |slice| ==> slice[i] in slice;
      if |slice| == 1 {
        return slice[0];
      }
      match strategy {
        case RoundRobin =>
          var count := rrCounter;
          rrCounter := rrCounter + 1;
          k := slice[count % |slice|];
        case Random => k := slice[view.pick % |slice|];
        case Sticky => k := slice[view.pick % |slice|];
        case LeastConnections => k := MinConnections(view, slice);
        case HighestScore => k := MaxScore(view, slice);
      }
      assert k in slice;
    }

    /** Round robin is fair: while the candidates stay the same `n > 1` nodes, any `n` calls in a row
        pick each of them exactly once, in order, from wherever the counter stands. */
    method Turn(views: seq<View>, failed: seq<Uri>) returns (picks: seq<nat>)
      requires strategy == RoundRobin && |uris| > 1 && |views| > 1
      requires forall i :: 0 <= i < |views| ==> |views[i].nodes| == |uris|
      requires forall i :: 0 <= i < |views| ==> Candidates(uris, views[i], failed) == Candidates(uris, views[0], failed)
      requires |Candidates(uris, views[0], failed)| == |views|
      modifies this
      ensures var slice := Candidates(uris, views[0], failed);
              var m := old(rrCounter) % |slice|;
              picks == slice[m..] + slice[..m] && forall k :: k in slice ==> multiset(picks)[k] == 1
    {
      hide Candidates, IsFirstMin, IsLastMax, AnyIn;
      ghost var slice, c := Candidates(uris, views[0], failed), rrCounter;
      picks := [];
      for i := 0 to |views|
        invariant rrCounter == c + i && |picks| == i
        invariant forall j :: 0 <= j < i ==> picks[j] == slice[(c + j) % |slice|]
      {
        var k := NextUpstream(views[i], failed);
        picks := picks + [k];
      }
      CandidatesIncreasing(uris, views[0], failed);
      RotationIs(slice, c, picks);
      RotationOnce(slice, c % |slice|);
    }

    /** The retry loop of the proxy: each chosen address joins the failed ones before the next
        call. Whatever the strategy, and however health and load change in between, no address
        is repeated before every distinct one has been tried. */
    method Failover(views: seq<View>) returns (tried: seq<Uri>)
      requires |uris| > 0 && forall i :: 0 <= i < |views| ==> |views[i].nodes| == |uris|
      modifies this
      ensures |tried| == |views|
      ensures forall i, j :: 0 <= i < j < |tried| && j < |Distinct(uris)| ==> tried[i] != tried[j]
      ensures |tried| >= |Distinct(uris)| ==> Distinct(tried) == Distinct(uris)
    {
      tried := [];
      var i := 0;
      while i < |views|
        invariant 0 <= i == |tried| <= |views|
        invariant AllFrom(uris, tried)
      {
        var k := NextUpstream(views[i], tried);
        if u :| u in uris && u !in tried {
          var m :| 0 <= m < |uris| && uris[m] == u;
          assert InPool(Untried, uris, views[i], tried, m);
        }
        ExtendsRun(uris, tried, uris[k]);
        tried := tried + [uris[k]];
        i := i + 1;
      }
      NoRepeatBeforeAll(uris, tried);
    }
  }

  /** `k` is the first node with the fewest connections. */
  ghost predicate IsFirstMin(view: View, slice: seq<nat>, k: nat) {
    && (forall i :: 0 <= i < |slice| ==> slice[i] < |view.nodes|)
    && exists p :: 0 <= p < |slice| && slice[p] == k
         && (forall i :: 0 <= i < p ==> view.nodes[slice[i]].connections > view.nodes[k].connections)
         && (forall i :: 0 <= i < |slice| ==> view.nodes[slice[i]].connections >= view.nodes[k].connections)
  }

  method MinConnections(view: View, slice: seq<nat>) returns (k: nat)
    requires |slice| > 0 && forall i :: 0 <= i < |slice| ==> slice[i] < |view.nodes|
    ensures k in slice && IsFirstMin(view, slice, k)
  {
    var p := 0;
    for i := 1 to |slice|
      invariant 0 <= p < i
      invariant forall m :: 0 <= m < p ==> view.nodes[slice[m]].connections > view.nodes[slice[p]].connections
      invariant forall m :: 0 <= m < i ==> view.nodes[slice[m]].connections >= view.nodes[slice[p]].connections
    {
      if view.nodes[slice[i]].connections < view.nodes[slice[p]].connections { p := i; }
    }
    k := slice[p];
  }

  /** `k` is the last node with the highest score. */
  ghost predicate IsLastMax(view: View, slice: seq<nat>, k: nat) {
    && (forall i :: 0 <= i < |slice| ==> slice[i] < |view.nodes|)
    && exists p :: 0 <= p < |slice| && slice[p] == k
         && (forall i :: p < i < |slice| ==> view.nodes[slice[i]].score < view.nodes[k].score)
         && (forall i :: 0 <= i < |slice| ==> view.nodes[slice[i]].score <= view.nodes[k].score)
  }

  method MaxScore(view: View, slice: seq<nat>) returns (k: nat)
    requires |slice| > 0 && forall i :: 0 <= i < |slice| ==> slice[i] < |view.nodes|
    ensures k in slice && IsLastMax(view, slice, k)
  {
    var p := 0;
    for i := 1 to |slice|
      invariant 0 <= p < i
      invariant forall m :: p < m < i ==> view.nodes[slice[m]].score < view.nodes[slice[p]].score
      invariant forall m :: 0 <= m < i ==> view.nodes[slice[m]].score <= view.nodes[slice[p]].score
    {
      if view.nodes[slice[i]].score >= view.nodes[slice[p]].score { p := i; }
    }
    k := slice[p];
  }

  lemma {:induction false} FilterIncreasing(pool: Pool, uris: seq<Uri>, view: View, failed: seq<Uri>, n: nat)
    requires |view.nodes| == |uris| && n <= |uris|
    ensures Increasing(Filter(pool, uris, view, failed, n))
  {
    if n == 0 {
    } else {
      var slice := Filter(pool, uris, view, failed, n - 1);
      FilterIncreasing(pool, uris, view, failed, n - 1);
      assert forall i :: 0 <= i < |slice| ==> slice[i] in slice;
    }
  }

  lemma CandidatesIncreasing(uris: seq<Uri>, view: View, failed: seq<Uri>)
    requires |view.nodes| == |uris| && |uris| > 0
    ensures Increasing(Candidates(uris, view, failed))
  {
    hide Filter, InPool, Increasing;
    FilterIncreasing(AvailableUntried, uris, view, failed, |uris|);
    FilterIncreasing(Untried, uris, view, failed, |uris|);
    FilterIncreasing(Everything, uris, view, failed, |uris|);
  }

  lemma ModShift(c: nat, i: nat, n: nat)
    requires i < n
    ensures (c + i) % n == if c % n + i < n then c % n + i else c % n + i - n
  {
    var q, m := c / n, c % n;
    if m + i < n { ModIs(c + i, n, q, m + i); } else { ModIs(c + i, n, q + 1, m + i - n); }
  }

  /** Quotient and remainder are unique. */
  lemma ModIs(a: nat, n: nat, q: nat, r: nat)
    requires r < n && a == q * n + r
    ensures a % n == r
  {
    var q', r' := a / n, a % n;
    assert a == q' * n + r';
    if q < q' {
      Multiples(q, q', n);
    } else if q' < q {
      Multiples(q', q, n);
    }
  }

  lemma Multiples(low: nat, high: nat, n: nat)
    requires low < high
    ensures low * n + n <= high * n
  {
    assert high * n - low * n == (high - low) * n;
    assert (high - low - 1) * n >= 0;
  }

  lemma RotationIs(slice: seq<nat>, c: nat, picks: seq<nat>)
    requires |slice| > 0 && |picks| == |slice| && forall j :: 0 <= j < |picks| ==> picks[j] == slice[(c + j) % |slice|]
    ensures var m := c % |slice|; picks == slice[m..] + slice[..m]
  {
    forall j | 0 <= j < |picks| ensures picks[j] == (slice[c % |slice|..] + slice[..c % |slice|])[j] {
      ModShift(c, j, |slice|);
    }
  }

  lemma RotationOnce(slice: seq<nat>, m: nat)
    requires Increasing(slice) && m <= |slice|
    ensures forall k :: k in slice ==> multiset(slice[m..] + slice[..m])[k] == 1
  {
    assert slice == slice[..m] + slice[m..];
    EachOnce(slice);
  }

  lemma {:induction false} EachOnce(slice: seq<nat>)
    requires Increasing(slice)
    ensures forall k :: k in slice ==> multiset(slice)[k] == 1
  {
    if |slice| == 0 {
    } else {
      var n := |slice| - 1;
      EachOnce(slice[..n]);
      assert slice == slice[..n] + [slice[n]];
      assert slice[n] !in slice[..n];
    }
  }

  lemma OnlyOne(uris: seq<Uri>, view: View, failed: seq<Uri>)
    requires |uris| == 1 && |view.nodes| == 1
    ensures AnyIn(Untried, uris, view, failed) ==> uris[0] !in failed
  {
  }

  function Distinct(uris: seq<Uri>): set<Uri> {
    set u | u in uris
  }

  /** A sequence of picks, each untried when it was made if any address was untried then. */
  ghost predicate AllFrom(uris: seq<Uri>, tried: seq<Uri>) {
    forall i :: 0 <= i < |tried| ==> PickOk(uris, tried[..i], tried[i])
  }

  ghost predicate PickOk(uris: seq<Uri>, failed: seq<Uri>, uri: Uri) {
    uri in uris && ((exists u :: u in uris && u !in failed) ==> uri !in failed)
  }

  lemma ExtendsRun(uris: seq<Uri>, tried: seq<Uri>, uri: Uri)
    requires AllFrom(uris, tried) && uri in uris
    requires (exists u :: u in uris && u !in tried) ==> uri !in tried
    ensures AllFrom(uris, tried + [uri])
  {
    var longer := tried + [uri];
    forall i | 0 <= i < |longer| ensures PickOk(uris, longer[..i], longer[i]) {
      if i < |tried| {
        assert longer[..i] == tried[..i] && PickOk(uris, tried[..i], tried[i]);
      } else {
        assert longer[..i] == tried;
      }
    }
  }

  lemma {:induction false} DistinctAtMost(s: seq<Uri>)
    ensures |Distinct(s)| <= |s|
  {
    if |s| == 0 {
    } else {
      var n := |s| - 1;
      DistinctAtMost(s[..n]);
      assert Distinct(s) == Distinct(s[..n]) + {s[n]} by { assert s == s[..n] + [s[n]]; }
    }
  }

  lemma {:induction false} DistinctExact(s: seq<Uri>)
    requires forall i, j :: 0 <= i < j < |s| ==> s[i] != s[j]
    ensures |Distinct(s)| == |s|
  {
    if |s| == 0 {
    } else {
      var n := |s| - 1;
      DistinctExact(s[..n]);
      assert s[n] !in s[..n];
      assert Distinct(s) == Distinct(s[..n]) + {s[n]} by { assert s == s[..n] + [s[n]]; }
    }
  }

  /** While fewer picks were made than there are distinct addresses, one is untried. */
  lemma SomeUntried(uris: seq<Uri>, failed: seq<Uri>)
    requires |failed| < |Distinct(uris)|
    ensures exists u :: u in uris && u !in failed
  {
    if forall u :: u in uris ==> u in failed {
      SubsetSize(Distinct(uris), Distinct(failed));
      DistinctAtMost(failed);
    }
  }

  lemma NoRepeatBeforeAll(uris: seq<Uri>, tried: seq<Uri>)
    requires AllFrom(uris, tried)
    ensures forall i, j :: 0 <= i < j < |tried| && j < |Distinct(uris)| ==> tried[i] != tried[j]
    ensures |tried| >= |Distinct(uris)| ==> Distinct(tried) == Distinct(uris)
  {
    var d := |Distinct(uris)|;
    forall i, j | 0 <= i < j < |tried| && j < d ensures tried[i] != tried[j] {
      assert PickOk(uris, tried[..j], tried[j]);
      SomeUntried(uris, tried[..j]);
      assert tried[..j][i] == tried[i];
    }
    if |tried| >= d {
      var first := tried[..d];
      DistinctExact(first);
      forall u | u in tried ensures u in uris {
        var i :| 0 <= i < |tried| && tried[i] == u;
        assert PickOk(uris, tried[..i], tried[i]);
      }
      SubsetSize(Distinct(first), Distinct(uris));
      assert Distinct(first) <= Distinct(tried);
    }
  }
}
