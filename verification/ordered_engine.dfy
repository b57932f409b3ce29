/** OrderedRepositorySystem: the rule-driven choice and order of the remote
    repositories one artifact is resolved from. The regular-expression match
    of a rule's pattern against `group:artifact:version` is a parameter. */
module OrderedRepositorySystem {
  import opened Wrappers
  import opened JavaStrings
  import opened Repositories
  import opened OrderedRepositoryConfiguration

  // ---------------------------------------------------------------------------
  // Appending candidates that the result does not hold yet
  // ---------------------------------------------------------------------------

  /** Which candidates one pass over the list may add: those whose trimmed id
      equals a trimmed repository id from the configuration, or any. */
  datatype Filter = IdIs(name: string) | AnyRepo

  /** A configured id names a repository when the two are equal once both
      are trimmed. */
  predicate Named(name: string, r: Repo)
  {
    Trim(name) == Trim(r.id)
  }

  predicate Keeps(f: Filter, r: Repo)
  {
    match f
    case IdIs(name) => Named(name, r)
    case AnyRepo => true
  }

  /** One pass over the candidates: each one the filter keeps is appended
      unless an equal repository is already in the list. */
  function AddNew(acc: seq<Repo>, cands: seq<Repo>, f: Filter): (r: seq<Repo>)
    ensures |acc| <= |r| && r[..|acc|] == acc
    ensures forall x :: x in r <==> x in acc || (x in cands && Keeps(f, x))
    ensures NoDup(acc) ==> NoDup(r)
    ensures forall i :: |acc| <= i < |r| ==> r[i] !in acc && r[i] in cands && Keeps(f, r[i])
    ensures forall i, j :: |acc| <= i < j < |r| ==> Pos(cands, r[i]) < Pos(cands, r[j])
  {
    if cands == [] then acc
    else
      var n := |cands| - 1;
      var a := AddNew(acc, cands[..n], f);
      if Keeps(f, cands[n]) && cands[n] !in a then
        AddNewAppends(acc, cands, f, a);
        a + [cands[n]]
      else
        AddNewSkips(acc, cands, f, a);
        a
  }

  /** Membership and first positions in a list and in the list without its
      last element. */
  lemma EarlierPositions(cands: seq<Repo>)
    requires cands != []
    ensures forall x :: x in cands <==> x in cands[..|cands| - 1] || x == cands[|cands| - 1]
    ensures forall x :: x in cands[..|cands| - 1] ==> Pos(cands, x) == Pos(cands[..|cands| - 1], x)
  {
    var n := |cands| - 1;
    assert cands == cands[..n] + [cands[n]];
    forall x | x in cands[..n] ensures Pos(cands, x) == Pos(cands[..n], x) {
      PosOfPrefix(cands[..n], cands, x);
    }
  }

  /** The step of `AddNew` that appends the last candidate. */
  lemma AddNewAppends(acc: seq<Repo>, cands: seq<Repo>, f: Filter, a: seq<Repo>)
    requires cands != []
    requires var n := |cands| - 1; Keeps(f, cands[n]) && cands[n] !in a
    requires |acc| <= |a| && a[..|acc|] == acc
    requires forall x :: x in a <==> x in acc || (x in cands[..|cands| - 1] && Keeps(f, x))
    requires NoDup(acc) ==> NoDup(a)
    requires forall i :: |acc| <= i < |a| ==> a[i] !in acc && a[i] in cands[..|cands| - 1] && Keeps(f, a[i])
    requires forall i, j :: |acc| <= i < j < |a| ==> Pos(cands[..|cands| - 1], a[i]) < Pos(cands[..|cands| - 1], a[j])
    ensures var r := a + [cands[|cands| - 1]];
      && |acc| <= |r| && r[..|acc|] == acc
      && (forall x :: x in r <==> x in acc || (x in cands && Keeps(f, x)))
      && (NoDup(acc) ==> NoDup(r))
      && (forall i :: |acc| <= i < |r| ==> r[i] !in acc && r[i] in cands && Keeps(f, r[i]))
      && (forall i, j :: |acc| <= i < j < |r| ==> Pos(cands, r[i]) < Pos(cands, r[j]))
  {
    var n := |cands| - 1;
    var last := cands[n];
    EarlierPositions(cands);
    assert last !in cands[..n];
    assert Pos(cands, last) == n;
    var r := a + [last];
    assert r[..|acc|] == acc;
    assert forall i :: 0 <= i < |a| ==> r[i] == a[i];
  }

  /** The step of `AddNew` that leaves the last candidate out. */
  lemma AddNewSkips(acc: seq<Repo>, cands: seq<Repo>, f: Filter, a: seq<Repo>)
    requires cands != []
    requires var n := |cands| - 1; !(Keeps(f, cands[n]) && cands[n] !in a)
    requires |acc| <= |a| && a[..|acc|] == acc
    requires forall x :: x in a <==> x in acc || (x in cands[..|cands| - 1] && Keeps(f, x))
    requires forall i :: |acc| <= i < |a| ==> a[i] !in acc && a[i] in cands[..|cands| - 1] && Keeps(f, a[i])
    requires forall i, j :: |acc| <= i < j < |a| ==> Pos(cands[..|cands| - 1], a[i]) < Pos(cands[..|cands| - 1], a[j])
    ensures forall x :: x in a <==> x in acc || (x in cands && Keeps(f, x))
    ensures forall i :: |acc| <= i < |a| ==> a[i] in cands
    ensures forall i, j :: |acc| <= i < j < |a| ==> Pos(cands, a[i]) < Pos(cands, a[j])
  {
    EarlierPositions(cands);
  }

  /** First positions agree in a sequence and its prefix. */
  lemma {:induction false} PosOfPrefix<T>(pre: seq<T>, s: seq<T>, x: T)
    requires pre <= s && x in pre
    ensures x in s && Pos(s, x) == Pos(pre, x)
  {
    var k := Pos(pre, x);
    assert s[k] == x;
  }

  // ---------------------------------------------------------------------------
  // Arranging the candidates for one id list (lines 141-157 and 163-179)
  // ---------------------------------------------------------------------------

  /** Some configured id names the repository. */
  predicate NamedIn(names: seq<string>, r: Repo)
  {
    exists i :: 0 <= i < |names| && Named(names[i], r)
  }

  /** The position of the first configured id naming the repository. */
  function Rank(names: seq<string>, r: Repo): (k: nat)
    requires NamedIn(names, r)
    ensures k < |names| && Named(names[k], r)
    ensures forall j :: 0 <= j < k ==> !Named(names[j], r)
  {
    if Named(names[0], r) then 0
    else
      assert NamedIn(names[1..], r) by {
        var i :| 0 <= i < |names| && Named(names[i], r);
        assert names[1..][i - 1] == names[i];
      }
      1 + Rank(names[1..], r)
  }

  /** The order the id passes give: the repository named by the earlier id
      first, and candidate order among repositories first named by the same id. */
  predicate RankedBefore(names: seq<string>, cands: seq<Repo>, x: Repo, y: Repo)
    requires NamedIn(names, x) && NamedIn(names, y) && x in cands && y in cands
  {
    Rank(names, x) < Rank(names, y) ||
    (Rank(names, x) == Rank(names, y) && Pos(cands, x) < Pos(cands, y))
  }

  lemma RankOfPrefix(names: seq<string>, x: Repo)
    requires names != [] && NamedIn(names[..|names| - 1], x)
    ensures NamedIn(names, x) && Rank(names, x) == Rank(names[..|names| - 1], x)
  {
    var pre := names[..|names| - 1];
    var k := Rank(pre, x);
    assert names[k] == pre[k];
    assert forall j :: 0 <= j < |pre| ==> pre[j] == names[j];
  }

  lemma RankOfLast(names: seq<string>, x: Repo)
    requires names != [] && !NamedIn(names[..|names| - 1], x) && Named(names[|names| - 1], x)
    ensures NamedIn(names, x) && Rank(names, x) == |names| - 1
  {
    var pre := names[..|names| - 1];
    assert forall j :: 0 <= j < |pre| ==> pre[j] == names[j];
  }

  /** The passes over the configured ids, one per id in declared order. */
  function AddNamed(names: seq<string>, cands: seq<Repo>): (r: seq<Repo>)
    ensures NoDup(r)
    ensures forall x :: x in r <==> x in cands && NamedIn(names, x)
    ensures forall i, j :: 0 <= i < j < |r| ==> RankedBefore(names, cands, r[i], r[j])
  {
    if names == [] then []
    else
      var n := |names| - 1;
      var pre := names[..n];
      var p := AddNamed(pre, cands);
      var r := AddNew(p, cands, IdIs(names[n]));
      assert forall x :: NamedIn(names, x) <==> NamedIn(pre, x) || Named(names[n], x) by {
        assert forall j :: 0 <= j < n ==> pre[j] == names[j];
      }
      forall x | x in p ensures NamedIn(names, x) && Rank(names, x) == Rank(pre, x) {
        RankOfPrefix(names, x);
      }
      forall i | |p| <= i < |r| ensures NamedIn(names, r[i]) && Rank(names, r[i]) == n {
        RankOfLast(names, r[i]);
      }
      assert forall i :: 0 <= i < |p| ==> r[i] == p[i];
      r
  }

  /** The list built from one id list and its include flag: the repositories
      each id names, then, when the flag is set, every other candidate. */
  function Arrange(names: seq<string>, includeOthers: bool, cands: seq<Repo>): (r: seq<Repo>)
    ensures NoDup(r)
    ensures forall x :: x in r <==> x in cands && (includeOthers || NamedIn(names, x))
    ensures forall i, j :: 0 <= i < j < |r| && NamedIn(names, r[j]) ==>
      NamedIn(names, r[i]) && RankedBefore(names, cands, r[i], r[j])
    ensures forall i, j :: 0 <= i < j < |r| && !NamedIn(names, r[i]) ==>
      !NamedIn(names, r[j]) && Pos(cands, r[i]) < Pos(cands, r[j])
  {
    var named := AddNamed(names, cands);
    if includeOthers then
      var r := AddNew(named, cands, AnyRepo);
      assert forall i :: 0 <= i < |named| ==> r[i] == named[i];
      r
    else named
  }

  /** A list as long as the candidate list holds every candidate:
      the loop's cutoff test detects a list that drops none. */
  lemma FullLengthKeepsAll(names: seq<string>, includeOthers: bool, cands: seq<Repo>)
    requires |Arrange(names, includeOthers, cands)| == |cands|
    ensures forall x :: x in cands ==> x in Arrange(names, includeOthers, cands)
  {
    SameLengthSubsetIsAll(Arrange(names, includeOthers, cands), cands);
  }

  /** Nothing is selected exactly when no candidate is named and the others
      are not included; the list is then empty, not the candidates. */
  lemma ArrangeEmpty(names: seq<string>, includeOthers: bool, cands: seq<Repo>)
    ensures Arrange(names, includeOthers, cands) == [] <==>
      forall x :: x in cands ==> !includeOthers && !NamedIn(names, x)
  {
    var r := Arrange(names, includeOthers, cands);
    if r != [] {
      assert r[0] in r;
    }
  }

  // ---------------------------------------------------------------------------
  // Choosing the rule (lines 134-160) and the whole ordering (lines 133-192)
  // ---------------------------------------------------------------------------

  /** Whether a pattern matches the whole GAV string, left
      abstract; `None` stands for the PatternSyntaxException a malformed
      pattern raises. */
  type Matcher = (string, string) -> Option<bool>

  /** The exceptions the ordering can hit: a rule without a pattern reached by
      the scan, a reached pattern that does not compile, the chosen rule
      without a repository list, or no default list when no rule matches. */
  datatype OrderError =
    | PatternMissing(index: int)
    | InvalidPattern(index: int)
    | ReposMissing(index: int)
    | DefaultReposMissing

  /** The scan moves past this rule: it has a pattern and the pattern does not
      match. */
  predicate Passes(rule: Rule, gav: string, matches: Matcher)
  {
    rule.pattern.Some? && matches(gav, rule.pattern.value) == Some(false)
  }

  /** Rule `k` is the first in list order whose pattern matches. */
  predicate Selects(rules: seq<Rule>, gav: string, matches: Matcher, k: int)
  {
    && 0 <= k < |rules|
    && rules[k].pattern.Some? && matches(gav, rules[k].pattern.value) == Some(true)
    && forall j :: 0 <= j < k ==> Passes(rules[j], gav, matches)
  }

  /** The scan stops at this rule with error `e`: it has no pattern, or its
      pattern does not compile. */
  predicate Breaks(rule: Rule, gav: string, matches: Matcher, e: OrderError)
  {
    || (rule.pattern.None? && e == PatternMissing(rule.index))
    || (rule.pattern.Some? && matches(gav, rule.pattern.value).None? && e == InvalidPattern(rule.index))
  }

  /** The scan over the rules in list order, stopping at the first match. */
  function FirstMatch(rules: seq<Rule>, gav: string, matches: Matcher): (r: Result<Option<nat>, OrderError>)
    ensures r.Success? && r.value.Some? ==> Selects(rules, gav, matches, r.value.value)
    ensures r.Success? && r.value.None? ==> forall j :: 0 <= j < |rules| ==> Passes(rules[j], gav, matches)
    ensures r.Failure? ==> exists k :: (0 <= k < |rules| && Breaks(rules[k], gav, matches, r.error) &&
      forall j :: 0 <= j < k ==> Passes(rules[j], gav, matches))
  {
    if rules == [] then Success(None)
    else if rules[0].pattern.None? then Failure(PatternMissing(rules[0].index))
    else
      match matches(gav, rules[0].pattern.value)
      case None => Failure(InvalidPattern(rules[0].index))
      case Some(true) => Success(Some(0))
      case Some(false) =>
        match FirstMatch(rules[1..], gav, matches)
        case Failure(e) =>
          assert forall k :: 0 < k < |rules| ==> rules[1..][k - 1] == rules[k];
          Failure(e)
        case Success(None) => Success(None)
        case Success(Some(k)) =>
          assert forall j :: 0 < j <= k + 1 ==> rules[1..][j - 1] == rules[j];
          Success(Some(k + 1))
  }

  /** getOrderedRemoteRepositories: the list for one artifact from the first
      matching rule's ids and flag, or from the default ids and flag when no
      rule matches. The result never repeats a repository and only holds
      candidates. */
  function Order(c: Config, art: Artifact, cands: seq<Repo>, matches: Matcher): (r: Result<seq<Repo>, OrderError>)
    ensures r.Success? ==> NoDup(r.value) && forall x :: x in r.value ==> x in cands
  {
    match FirstMatch(c.rules, Gav(art), matches)
    case Failure(e) => Failure(e)
    case Success(Some(k)) =>
      var rule := c.rules[k];
      if rule.repos.None? then Failure(ReposMissing(rule.index))
      else Success(Arrange(rule.repos.value, rule.includeOthers, cands))
    case Success(None) =>
      if c.defaultRepos.None? then Failure(DefaultReposMissing)
      else Success(Arrange(c.defaultRepos.value, c.includeDefault, cands))
  }

  /** First match wins: the first rule whose pattern matches alone decides the
      list, whatever the rules after it say. */
  lemma OrderFollowsFirstMatch(c: Config, art: Artifact, cands: seq<Repo>, matches: Matcher, k: int)
    requires Selects(c.rules, Gav(art), matches, k)
    ensures c.rules[k].repos.None? ==> Order(c, art, cands, matches) == Failure(ReposMissing(c.rules[k].index))
    ensures c.rules[k].repos.Some? ==> (Order(c, art, cands, matches) ==
      Success(Arrange(c.rules[k].repos.value, c.rules[k].includeOthers, cands)))
  {
    var gav := Gav(art);
    var r := FirstMatch(c.rules, gav, matches);
    assert !Passes(c.rules[k], gav, matches);
    assert r == Success(Some(k));
  }

  /** With no matching rule, the default ids and the default flag decide. */
  lemma OrderWithoutMatch(c: Config, art: Artifact, cands: seq<Repo>, matches: Matcher)
    requires forall j :: 0 <= j < |c.rules| ==> Passes(c.rules[j], Gav(art), matches)
    ensures c.defaultRepos.None? ==> Order(c, art, cands, matches) == Failure(DefaultReposMissing)
    ensures c.defaultRepos.Some? ==> (Order(c, art, cands, matches) ==
      Success(Arrange(c.defaultRepos.value, c.includeDefault, cands)))
  {
    var r := FirstMatch(c.rules, Gav(art), matches);
    assert r == Success(None);
  }

  /** A rule without a pattern, or with one that does not compile, reached
      before any match aborts the ordering with that rule's error. */
  lemma OrderFailsAtBrokenRule(c: Config, art: Artifact, cands: seq<Repo>, matches: Matcher, k: int, e: OrderError)
    requires 0 <= k < |c.rules| && Breaks(c.rules[k], Gav(art), matches, e)
    requires forall j :: 0 <= j < k ==> Passes(c.rules[j], Gav(art), matches)
    ensures Order(c, art, cands, matches) == Failure(e)
  {
  }

  /** Rules after the first match are never read: replacing them changes
      nothing. */
  lemma LaterRulesIgnored(c: Config, art: Artifact, cands: seq<Repo>, matches: Matcher, k: int, later: seq<Rule>)
    requires Selects(c.rules, Gav(art), matches, k)
    ensures Order(c.(rules := c.rules[..k + 1] + later), art, cands, matches) == Order(c, art, cands, matches)
  {
    var c2 := c.(rules := c.rules[..k + 1] + later);
    assert forall j :: 0 <= j <= k ==> c2.rules[j] == c.rules[j];
    assert Selects(c2.rules, Gav(art), matches, k);
    OrderFollowsFirstMatch(c, art, cands, matches, k);
    OrderFollowsFirstMatch(c2, art, cands, matches, k);
  }
}
