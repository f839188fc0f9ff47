/** The compiled access-rule table (server/src/configuration.rs, CompiledRbac). */
module Rbac {
  import opened Prelude

  type Role = string

  type Rules = map<string, seq<Role>>

  datatype Rule = Rule(prefix: string, roles: seq<Role>)

  datatype Compiled = Compiled(exact: Rules, prefix: seq<Rule>)

  predicate IsWildcard(pattern: string) {
    |pattern| > 0 && pattern[|pattern| - 1] == '*'
  }

  /** A rule whose pattern is `prefix` followed by a star. */
  predicate HasPrefixRule(raw: Rules, prefix: string) {
    prefix + "*" in raw
  }

  /** `k` is the length of the longest prefix of `path` that a rule names. */
  ghost predicate LongestMatch(raw: Rules, path: string, k: nat) {
    && k <= |path| && HasPrefixRule(raw, path[..k])
    && forall m :: k < m <= |path| ==> !HasPrefixRule(raw, path[..m])
  }

  /** The meaning of a rule table: the exact rule, else the rule with the longest matching prefix,
      else none. */
  ghost predicate Decides(raw: Rules, path: string, r: Option<seq<Role>>) {
    if path in raw && !IsWildcard(path) then r == Some(raw[path])
    else match r
      case Some(roles) => exists k: nat :: LongestMatch(raw, path, k) && roles == raw[path[..k] + "*"]
      case None => forall k :: 0 <= k <= |path| ==> !HasPrefixRule(raw, path[..k])
  }

  lemma DecidesOneAnswer(raw: Rules, path: string, a: Option<seq<Role>>, b: Option<seq<Role>>)
    requires Decides(raw, path, a) && Decides(raw, path, b)
    ensures a == b
  {
    if !(path in raw && !IsWildcard(path)) {
      if a.Some? {
        var i: nat :| LongestMatch(raw, path, i) && a.value == raw[path[..i] + "*"];
        assert b.Some?;
        var j: nat :| LongestMatch(raw, path, j) && b.value == raw[path[..j] + "*"];
        assert i == j;
      }
    }
  }

  ghost predicate Descending(rules: seq<Rule>) {
    forall i, j :: 0 <= i < j < |rules| ==> |rules[i].prefix| >= |rules[j].prefix|
  }

  /** The rules of the wildcard patterns among `seen`. */
  ghost predicate RulesOf(raw: Rules, seen: set<string>, rules: seq<Rule>) {
    && (forall i :: 0 <= i < |rules| ==>
          rules[i].prefix + "*" in seen && rules[i].prefix + "*" in raw && rules[i].roles == raw[rules[i].prefix + "*"])
    && (forall p :: p in seen && IsWildcard(p) ==> exists i :: 0 <= i < |rules| && rules[i].prefix == p[..|p| - 1])
  }

  /** The exact rules among the patterns not in `todo`. */
  ghost function ExactOf(raw: Rules, todo: set<string>): Rules {
    map p | p in raw && p !in todo && !IsWildcard(p) :: raw[p]
  }

  ghost predicate Compiles(c: Compiled, raw: Rules) {
    && c.exact == ExactOf(raw, {})
    && RulesOf(raw, raw.Keys, c.prefix)
    && Descending(c.prefix)
  }

  /** Compiles the rules, visiting the patterns in whatever order they come. */
  method FromRaw(raw: Rules) returns (c: Compiled)
    ensures Compiles(c, raw)
  {
    var exact: Rules := map[];
    var prefix: seq<Rule> := [];
    var todo := raw.Keys;
    assert ExactOf(raw, todo) == map[] && raw.Keys - todo == {};
    while todo != {}
      invariant todo <= raw.Keys
      invariant exact == ExactOf(raw, todo)
      invariant RulesOf(raw, raw.Keys - todo, prefix)
      decreases todo
    {
      hide RulesOf, ExactOf;
      var pattern :| pattern in todo;
      VisitExact(raw, todo, pattern);
      VisitRules(raw, todo, pattern, prefix);
      if IsWildcard(pattern) {
        prefix := prefix + [Rule(pattern[..|pattern| - 1], raw[pattern])];
      } else {
        exact := exact[pattern := raw[pattern]];
      }
      todo := todo - {pattern};
    }
    hide RulesOf, ExactOf, Descending;
    assert raw.Keys - {} == raw.Keys;
    var sorted := SortByLength(prefix);
    SameRules(raw, prefix, sorted);
    return Compiled(exact, sorted);
  }

  lemma VisitExact(raw: Rules, todo: set<string>, pattern: string)
    requires pattern in todo && todo <= raw.Keys
    ensures var exact := ExactOf(raw, todo);
            ExactOf(raw, todo - {pattern}) == if IsWildcard(pattern) then exact else exact[pattern := raw[pattern]]
  {
  }

  lemma VisitRules(raw: Rules, todo: set<string>, pattern: string, rules: seq<Rule>)
    requires pattern in todo && todo <= raw.Keys && RulesOf(raw, raw.Keys - todo, rules)
    ensures RulesOf(raw, raw.Keys - (todo - {pattern}),
                    if IsWildcard(pattern) then rules + [Rule(pattern[..|pattern| - 1], raw[pattern])] else rules)
  {
    assert raw.Keys - (todo - {pattern}) == (raw.Keys - todo) + {pattern};
    if IsWildcard(pattern) {
      var pfx := pattern[..|pattern| - 1];
      assert pattern == pfx + "*";
      AddRule(raw, raw.Keys - todo, rules, Rule(pfx, raw[pattern]));
    }
  }

  lemma AddRule(raw: Rules, seen: set<string>, rules: seq<Rule>, rule: Rule)
    requires RulesOf(raw, seen, rules) && rule.prefix + "*" in raw && rule.roles == raw[rule.prefix + "*"]
    ensures RulesOf(raw, seen + {rule.prefix + "*"}, rules + [rule])
  {
    var more := rules + [rule];
    assert more[|rules|] == rule;
    forall p | p in seen + {rule.prefix + "*"} && IsWildcard(p)
      ensures exists i :: 0 <= i < |more| && more[i].prefix == p[..|p| - 1]
    {
      if p in seen {
        var i :| 0 <= i < |rules| && rules[i].prefix == p[..|p| - 1];
        assert more[i] == rules[i];
      } else {
        assert p[..|p| - 1] == rule.prefix;
      }
    }
  }

  lemma SameRules(raw: Rules, a: seq<Rule>, b: seq<Rule>)
    requires RulesOf(raw, raw.Keys, a) && multiset(a) == multiset(b)
    ensures RulesOf(raw, raw.Keys, b)
  {
    forall i | 0 <= i < |b|
      ensures b[i].prefix + "*" in raw && b[i].roles == raw[b[i].prefix + "*"]
    {
      assert b[i] in multiset(a);
    }
    forall p | p in raw && IsWildcard(p) ensures exists i :: 0 <= i < |b| && b[i].prefix == p[..|p| - 1] {
      var i :| 0 <= i < |a| && a[i].prefix == p[..|p| - 1];
      assert a[i] in multiset(b);
      assert a[i] in b;
    }
  }

  lemma InsertSorted(sorted: seq<Rule>, k: nat, rule: Rule)
    requires k <= |sorted| && Descending(sorted)
    requires k > 0 ==> |sorted[k - 1].prefix| >= |rule.prefix|
    requires k < |sorted| ==> |sorted[k].prefix| < |rule.prefix|
    ensures var inserted := sorted[..k] + [rule] + sorted[k..];
            Descending(inserted) && multiset(inserted) == multiset(sorted) + multiset([rule])
  {
    InsertedSame(sorted, k, rule);
    var inserted := sorted[..k] + [rule] + sorted[k..];
    forall i, j | 0 <= i < j < |inserted| ensures |inserted[i].prefix| >= |inserted[j].prefix| {
      InsertedAt(sorted, k, rule, i);
      InsertedAt(sorted, k, rule, j);
    }
  }

  lemma InsertedSame(sorted: seq<Rule>, k: nat, rule: Rule)
    requires k <= |sorted|
    ensures multiset(sorted[..k] + [rule] + sorted[k..]) == multiset(sorted) + multiset([rule])
  {
    assert sorted == sorted[..k] + sorted[k..];
  }

  lemma InsertedAt(sorted: seq<Rule>, k: nat, rule: Rule, i: nat)
    requires k <= |sorted| && i <= |sorted|
    ensures (sorted[..k] + [rule] + sorted[k..])[i] == if i < k then sorted[i] else if i == k then rule else sorted[i - 1]
  {
  }

  /** Where `rule` goes: behind everything at least as long. */
  method InsertionPoint(sorted: seq<Rule>, rule: Rule) returns (k: nat)
    ensures k <= |sorted|
    ensures k > 0 ==> |sorted[k - 1].prefix| >= |rule.prefix|
    ensures k < |sorted| ==> |sorted[k].prefix| < |rule.prefix|
  {
    k := |sorted|;
    while k > 0 && |sorted[k - 1].prefix| < |rule.prefix|
      invariant k <= |sorted|
      invariant k < |sorted| ==> |sorted[k].prefix| < |rule.prefix|
    {
      k := k - 1;
    }
  }

  lemma TakeOneMore(rules: seq<Rule>, n: nat)
    requires n < |rules|
    ensures multiset(rules[..n + 1]) == multiset(rules[..n]) + multiset([rules[n]])
  {
    assert rules[..n + 1] == rules[..n] + [rules[n]];
  }

  /** Insertion, longest prefix first. */
  method SortByLength(rules: seq<Rule>) returns (sorted: seq<Rule>)
    ensures Descending(sorted) && multiset(sorted) == multiset(rules)
  {
    sorted := [];
    for n := 0 to |rules|
      invariant Descending(sorted) && multiset(sorted) == multiset(rules[..n])
    {
      hide Descending;
      var k := InsertionPoint(sorted, rules[n]);
      InsertSorted(sorted, k, rules[n]);
      TakeOneMore(rules, n);
      sorted := sorted[..k] + [rules[n]] + sorted[k..];
    }
    assert rules[..|rules|] == rules;
  }

  predicate Matches(rule: Rule, path: string) {
    rule.prefix <= path
  }

  /** The lookup gives the table's meaning, whatever order the rules were compiled in. */
  method MatchPath(c: Compiled, path: string, ghost raw: Rules) returns (r: Option<seq<Role>>)
    requires Compiles(c, raw)
    ensures Decides(raw, path, r)
  {
    hide Compiles, Matches, Decides;
    if path in c.exact {
      ExactDecides(c, raw, path);
      return Some(c.exact[path]);
    }
    for i := 0 to |c.prefix|
      invariant forall j :: 0 <= j < i ==> !Matches(c.prefix[j], path)
    {
      if Matches(c.prefix[i], path) {
        FirstDecides(c, raw, path, i);
        return Some(c.prefix[i].roles);
      }
    }
    NoneDecides(c, raw, path);
    return None;
  }

  lemma ExactDecides(c: Compiled, raw: Rules, path: string)
    requires Compiles(c, raw) && path in c.exact
    ensures Decides(raw, path, Some(c.exact[path]))
  {
  }

  /** The rule that names the prefix of length `m`. */
  lemma RuleFor(c: Compiled, raw: Rules, path: string, m: nat) returns (i: nat)
    requires Compiles(c, raw) && m <= |path| && HasPrefixRule(raw, path[..m])
    ensures i < |c.prefix| && c.prefix[i].prefix == path[..m] && Matches(c.prefix[i], path)
  {
    var p := path[..m] + "*";
    assert IsWildcard(p) && p[..|p| - 1] == path[..m];
    i :| 0 <= i < |c.prefix| && c.prefix[i].prefix == p[..|p| - 1];
  }

  /** The first rule that matches is the longest. */
  lemma FirstDecides(c: Compiled, raw: Rules, path: string, i: nat)
    requires Compiles(c, raw) && path !in c.exact && i < |c.prefix| && Matches(c.prefix[i], path)
    requires forall j :: 0 <= j < i ==> !Matches(c.prefix[j], path)
    ensures Decides(raw, path, Some(c.prefix[i].roles))
  {
    var k := |c.prefix[i].prefix|;
    assert path[..k] == c.prefix[i].prefix;
    forall m | k < m <= |path| ensures !HasPrefixRule(raw, path[..m]) {
      if HasPrefixRule(raw, path[..m]) {
        var j := RuleFor(c, raw, path, m);
      }
    }
    assert LongestMatch(raw, path, k);
  }

  lemma NoneDecides(c: Compiled, raw: Rules, path: string)
    requires Compiles(c, raw) && path !in c.exact && forall j :: 0 <= j < |c.prefix| ==> !Matches(c.prefix[j], path)
    ensures Decides(raw, path, None)
  {
    forall k | 0 <= k <= |path| ensures !HasPrefixRule(raw, path[..k]) {
      if HasPrefixRule(raw, path[..k]) {
        var j := RuleFor(c, raw, path, k);
      }
    }
  }
}
