/** How both repository systems apply an ordering to the requests they are
    handed before delegating to Maven's resolver: a request for one artifact
    gets the list ordered for that artifact; a request for many dependencies
    gets the list of the first dependency that keeps every repository, or of
    the last one. The delegation itself is outside the model. */
module RepositoryRequests {
  import opened Wrappers
  import opened Repositories
  import Ordered = OrderedRepositorySystem
  import RedHat = RedHatRepositorySystem
  import opened OrderedRepositoryConfiguration

  /** A request for one artifact and the repositories it will be resolved from. */
  datatype Request<A> = Request(artifact: A, repos: seq<Repo>)

  /** An ordering of the request's own repositories for its artifact. */
  type Ordering<!A, E> = (A, seq<Repo>) -> Result<seq<Repo>, E>

  // ---------------------------------------------------------------------------
  // One artifact: readArtifactDescriptor, resolveArtifact, resolveVersion,
  // resolveVersionRange, and each request of resolveArtifacts
  // ---------------------------------------------------------------------------

  /** One request keeps its artifact and carries its own repositories as
      ordered for that artifact; a failing ordering fails the request. */
  function ForRequest<A(==), E(==)>(req: Request<A>, order: Ordering<A, E>): (r: Result<Request<A>, E>)
    ensures r.Success? <==> order(req.artifact, req.repos).Success?
    ensures r.Success? ==> (r.value.artifact == req.artifact &&
      r.value.repos == order(req.artifact, req.repos).value)
    ensures r.Failure? ==> r.error == order(req.artifact, req.repos).error
  {
    match order(req.artifact, req.repos)
    case Failure(e) => Failure(e)
    case Success(repos) => Success(Request(req.artifact, repos))
  }

  /** resolveArtifacts: every request reordered from its own list, the first
      failing ordering aborting the call. */
  function ForRequests<A(==), E(==)>(reqs: seq<Request<A>>, order: Ordering<A, E>): (r: Result<seq<Request<A>>, E>)
    ensures r.Success? <==> forall i :: 0 <= i < |reqs| ==> order(reqs[i].artifact, reqs[i].repos).Success?
    ensures r.Success? ==> |r.value| == |reqs| && forall i :: 0 <= i < |reqs| ==>
      r.value[i] == Request(reqs[i].artifact, order(reqs[i].artifact, reqs[i].repos).value)
    ensures r.Failure? ==> exists i :: (0 <= i < |reqs| &&
      order(reqs[i].artifact, reqs[i].repos) == Failure(r.error) &&
      forall j :: 0 <= j < i ==> order(reqs[j].artifact, reqs[j].repos).Success?)
  {
    if reqs == [] then Success([])
    else
      match ForRequest(reqs[0], order)
      case Failure(e) => Failure(e)
      case Success(first) =>
        match ForRequests(reqs[1..], order)
        case Failure(e) =>
          assert forall i :: 0 < i < |reqs| ==> reqs[1..][i - 1] == reqs[i];
          Failure(e)
        case Success(rest) =>
          assert forall i :: 0 < i < |reqs| ==> reqs[1..][i - 1] == reqs[i];
          Success([first] + rest)
  }

  // ---------------------------------------------------------------------------
  // Many dependencies: resolveDependencies and collectDependencies
  // ---------------------------------------------------------------------------

  /** Where the dependency loop stops: every earlier dependency gave a list
      shorter than the original one, and this one gives a full list, fails,
      or is the last. */
  predicate StopsAt<A, E>(deps: seq<A>, all: seq<Repo>, order: Ordering<A, E>, k: int)
  {
    && 0 <= k < |deps|
    && (forall j :: 0 <= j < k ==> order(deps[j], all).Success? && |order(deps[j], all).value| != |all|)
    && (k == |deps| - 1 || order(deps[k], all).Failure? || |order(deps[k], all).value| == |all|)
  }

  /** The list the collect request carries after the loop: each dependency is
      ordered against the original list `all`; the loop keeps the latest list
      and stops at the first one as long as `all`. Without dependencies the
      request keeps `all`. */
  function ForDependencies<A(==), E(==)>(deps: seq<A>, all: seq<Repo>, order: Ordering<A, E>): (r: Result<seq<Repo>, E>)
    ensures deps == [] ==> r == Success(all)
    ensures deps != [] ==> exists k :: StopsAt(deps, all, order, k) && r == order(deps[k], all)
  {
    if deps == [] then Success(all)
    else
      match order(deps[0], all)
      case Failure(e) =>
        assert StopsAt(deps, all, order, 0);
        Failure(e)
      case Success(repos) =>
        if |repos| == |all| || |deps| == 1 then
          assert StopsAt(deps, all, order, 0);
          Success(repos)
        else
          var r := ForDependencies(deps[1..], all, order);
          var k :| StopsAt(deps[1..], all, order, k) && r == order(deps[1..][k], all);
          assert forall j :: 0 < j <= k + 1 ==> deps[1..][j - 1] == deps[j];
          assert StopsAt(deps, all, order, k + 1);
          r
  }

  /** The loop ends at the first dependency whose list is full, whatever the
      dependencies after it are. */
  lemma ForDependenciesTakesFirstFull<A, E>(deps: seq<A>, all: seq<Repo>, order: Ordering<A, E>, k: int)
    requires 0 <= k < |deps|
    requires forall j :: 0 <= j < k ==> order(deps[j], all).Success? && |order(deps[j], all).value| != |all|
    requires order(deps[k], all).Success? && |order(deps[k], all).value| == |all|
    ensures ForDependencies(deps, all, order) == order(deps[k], all)
  {
    var r := ForDependencies(deps, all, order);
    assert exists m :: StopsAt(deps, all, order, m) && r == order(deps[m], all);
    var m :| StopsAt(deps, all, order, m) && r == order(deps[m], all);
  }

  /** When no dependency gives a full list and none fails, the last one's list
      is kept. */
  lemma ForDependenciesTakesLast<A, E>(deps: seq<A>, all: seq<Repo>, order: Ordering<A, E>)
    requires deps != []
    requires forall j :: 0 <= j < |deps| ==> order(deps[j], all).Success? && |order(deps[j], all).value| != |all|
    ensures ForDependencies(deps, all, order) == order(deps[|deps| - 1], all)
  {
    var r := ForDependencies(deps, all, order);
    assert exists m :: StopsAt(deps, all, order, m) && r == order(deps[m], all);
    var m :| StopsAt(deps, all, order, m) && r == order(deps[m], all);
  }

  // ---------------------------------------------------------------------------
  // The two systems' orderings plugged in
  // ---------------------------------------------------------------------------

  /** OrderedRepositorySystem's ordering under a configuration and a matcher. */
  function OrderedOrdering(c: Config, matches: Ordered.Matcher): Ordering<Artifact, Ordered.OrderError>
  {
    (a: Artifact, cands: seq<Repo>) => Ordered.Order(c, a, cands, matches)
  }

  /** RedHatRepositorySystem's ordering, which cannot fail. */
  function RedHatOrdering(): Ordering<Option<Artifact>, ()>
  {
    (a: Option<Artifact>, cands: seq<Repo>) => Success(RedHat.Order(a, cands))
  }

  /** The ordered system's dependency loop leaves a duplicate-free list of
      original repositories, and a full-length one holds all of them. */
  lemma OrderedDependencies(c: Config, matches: Ordered.Matcher, deps: seq<Artifact>, all: seq<Repo>)
    requires deps != []
    ensures var r := ForDependencies(deps, all, OrderedOrdering(c, matches));
      r.Success? ==> (NoDup(r.value) && (forall x :: x in r.value ==> x in all) &&
        (|r.value| == |all| ==> forall x :: x in all ==> x in r.value))
  {
    var order := OrderedOrdering(c, matches);
    var r := ForDependencies(deps, all, order);
    var k :| StopsAt(deps, all, order, k) && r == order(deps[k], all);
    if r.Success? && |r.value| == |all| {
      SameLengthSubsetIsAll(r.value, all);
    }
  }

  /** In the heuristic system a dependency that is not a product build keeps
      every repository, so the loop then ends with a reordering of the whole
      original list. */
  lemma RedHatDependencies(deps: seq<Option<Artifact>>, all: seq<Repo>, i: int)
    requires 0 <= i < |deps| && !RedHat.IsProduct(deps[i])
    ensures ForDependencies(deps, all, RedHatOrdering()).Success?
    ensures multiset(ForDependencies(deps, all, RedHatOrdering()).value) == multiset(all)
  {
    var order := RedHatOrdering();
    var r := ForDependencies(deps, all, order);
    assert exists k :: StopsAt(deps, all, order, k) && r == order(deps[k], all);
    var k :| StopsAt(deps, all, order, k) && r == order(deps[k], all);
    OrdinaryIsFull(deps[i], all);
    assert order(deps[i], all) == Success(RedHat.Order(deps[i], all));
    assert k <= i;
    assert |RedHat.Order(deps[k], all)| == |all|;
    FullHeuristicListIsPermutation(deps[k], all);
  }

  lemma OrdinaryIsFull(a: Option<Artifact>, all: seq<Repo>)
    requires !RedHat.IsProduct(a)
    ensures |RedHat.Order(a, all)| == |all|
  {
    assert |multiset(RedHat.Order(a, all))| == |multiset(all)|;
  }

  /** A heuristic list as long as the original holds exactly its repositories. */
  lemma FullHeuristicListIsPermutation(a: Option<Artifact>, all: seq<Repo>)
    ensures |RedHat.Order(a, all)| == |all| ==> multiset(RedHat.Order(a, all)) == multiset(all)
  {
    var r := RedHat.Order(a, all);
    if |r| != |all| {
      return;
    }
    assert multiset(r) <= multiset(all) by {
      if RedHat.IsProduct(a) {
        forall x ensures multiset(r)[x] <= multiset(all)[x] {
          assert multiset(r)[x] == if RedHat.IsRedHat(x) then multiset(all)[x] else 0;
        }
      }
    }
    SubMultisetOfSameSize(multiset(r), multiset(all));
  }
}
