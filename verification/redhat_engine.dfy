/** RedHatRepositorySystem: the heuristic choice and order of remote
    repositories. Product builds (a version containing "redhat") only use
    repositories whose url contains "redhat"; the list is then sorted with
    those repositories last and by id otherwise. */
module RedHatRepositorySystem {
  import opened Wrappers
  import opened JavaStrings
  import opened Repositories

  const Marker := "redhat"

  predicate IsRedHat(r: Repo)
  {
    Contains(r.url, Marker)
  }

  /** A product build: an artifact is given and its version contains
      `redhat`. */
  predicate IsProduct(art: Option<Artifact>)
  {
    art.Some? && Contains(art.value.version, Marker)
  }

  // ---------------------------------------------------------------------------
  // The filter (lines 134-143)
  // ---------------------------------------------------------------------------

  /** The candidates the loop copies: all of them for an ordinary artifact,
      only the "redhat" ones for a product build, in candidate order. */
  function Eligible(art: Option<Artifact>, cands: seq<Repo>): (r: seq<Repo>)
    ensures !IsProduct(art) ==> r == cands
    ensures IsProduct(art) ==> forall x :: multiset(r)[x] == if IsRedHat(x) then multiset(cands)[x] else 0
    ensures forall x :: x in r <==> x in cands && (!IsProduct(art) || IsRedHat(x))
  {
    if cands == [] then []
    else
      var n := |cands| - 1;
      var earlier := Eligible(art, cands[..n]);
      assert cands == cands[..n] + [cands[n]];
      assert multiset(cands) == multiset(cands[..n]) + multiset{cands[n]};
      if !IsProduct(art) || IsRedHat(cands[n]) then earlier + [cands[n]] else earlier
  }

  // ---------------------------------------------------------------------------
  // The comparator (lines 149-169) and a stable sort by it
  // ---------------------------------------------------------------------------

  /** The comparator for two non-null repositories: "redhat" ones after the
      others, then `id.compareTo`. */
  function Compare(r1: Repo, r2: Repo): int
  {
    if IsRedHat(r1) && !IsRedHat(r2) then 1
    else if !IsRedHat(r1) && IsRedHat(r2) then -1
    else CompareTo(r1.id, r2.id)
  }

  /** The comparator's equivalence: same url class and the same id. */
  predicate SameKey(a: Repo, b: Repo)
  {
    IsRedHat(a) == IsRedHat(b) && a.id == b.id
  }

  lemma CompareZero(a: Repo, b: Repo)
    ensures Compare(a, b) == 0 <==> SameKey(a, b)
  {
  }

  /** The comparator is antisymmetric and transitive: a total preorder. */
  lemma CompareAntisymmetric(a: Repo, b: Repo)
    ensures Compare(a, b) == -Compare(b, a)
  {
    CompareToAntisymmetric(a.id, b.id);
  }

  lemma CompareTransitive(a: Repo, b: Repo, c: Repo)
    requires Compare(a, b) <= 0 && Compare(b, c) <= 0
    ensures Compare(a, c) <= 0
  {
    if IsRedHat(a) == IsRedHat(b) && IsRedHat(b) == IsRedHat(c) {
      CompareToTransitive(a.id, b.id, c.id);
    }
  }

  /** What is not below `a` is above whatever `a` is above. */
  lemma CompareAbove(a: Repo, b: Repo, c: Repo)
    requires Compare(a, b) <= 0 && Compare(a, c) > 0
    ensures Compare(b, c) > 0
  {
    if Compare(b, c) <= 0 {
      CompareTransitive(a, b, c);
    }
  }

  predicate Sorted(s: seq<Repo>)
  {
    forall i, j :: 0 <= i < j < |s| ==> Compare(s[i], s[j]) <= 0
  }

  /** The elements of `s` the comparator cannot tell from `y`, in order. */
  function Ties(s: seq<Repo>, y: Repo): (r: seq<Repo>)
  {
    if s == [] then []
    else (if SameKey(s[0], y) then [s[0]] else []) + Ties(s[1..], y)
  }

  lemma {:induction false} TiesOfConcat(a: seq<Repo>, b: seq<Repo>, y: Repo)
    ensures Ties(a + b, y) == Ties(a, y) + Ties(b, y)
  {
    if a != [] {
      assert (a + b)[1..] == a[1..] + b;
      TiesOfConcat(a[1..], b, y);
    } else {
      assert a + b == b;
    }
  }

  /** Places `x` after every element of a sorted list that is not greater than
      it, hence after the elements it ties with. */
  function Insert(x: Repo, s: seq<Repo>): (r: seq<Repo>)
    requires Sorted(s)
    ensures Sorted(r)
    ensures multiset(r) == multiset(s) + multiset{x}
    ensures forall y :: Ties(r, y) == Ties(s, y) + (if SameKey(x, y) then [x] else [])
  {
    if s == [] then [x]
    else if Compare(s[0], x) > 0 then
      InsertInFront(x, s);
      [x] + s
    else
      var rest := Insert(x, s[1..]);
      InsertBehind(x, s, rest);
      [s[0]] + rest
  }

  lemma InsertInFront(x: Repo, s: seq<Repo>)
    requires Sorted(s) && s != [] && Compare(s[0], x) > 0
    ensures Sorted([x] + s)
    ensures forall y :: Ties([x] + s, y) == Ties(s, y) + (if SameKey(x, y) then [x] else [])
  {
    SortedInFront(x, s);
    forall y ensures Ties([x] + s, y) == Ties(s, y) + (if SameKey(x, y) then [x] else []) {
      TiesOfConcat([x], s, y);
      if SameKey(x, y) {
        NoTieAbove(x, s, y);
        TiesNone(s, y);
      }
    }
  }

  lemma SortedInFront(x: Repo, s: seq<Repo>)
    requires Sorted(s) && s != [] && Compare(s[0], x) > 0
    ensures Sorted([x] + s)
  {
    CompareAntisymmetric(s[0], x);
    forall j | 0 <= j < |s| ensures Compare(x, s[j]) <= 0 {
      if j > 0 {
        CompareTransitive(x, s[0], s[j]);
      }
    }
  }

  lemma NoTieAbove(x: Repo, s: seq<Repo>, y: Repo)
    requires Sorted(s) && s != [] && Compare(s[0], x) > 0 && SameKey(x, y)
    ensures forall j :: 0 <= j < |s| ==> !SameKey(s[j], y)
  {
    forall j | 0 <= j < |s| ensures !SameKey(s[j], y) {
      if j > 0 {
        CompareAbove(s[0], s[j], x);
      }
      CompareZero(s[j], x);
    }
  }

  lemma InsertBehind(x: Repo, s: seq<Repo>, rest: seq<Repo>)
    requires Sorted(s) && s != [] && Compare(s[0], x) <= 0
    requires Sorted(rest) && multiset(rest) == multiset(s[1..]) + multiset{x}
    requires forall y :: Ties(rest, y) == Ties(s[1..], y) + (if SameKey(x, y) then [x] else [])
    ensures Sorted([s[0]] + rest)
    ensures multiset([s[0]] + rest) == multiset(s) + multiset{x}
    ensures forall y :: Ties([s[0]] + rest, y) == Ties(s, y) + (if SameKey(x, y) then [x] else [])
  {
    SortedBehind(x, s, rest);
    assert s == [s[0]] + s[1..];
    forall y ensures Ties([s[0]] + rest, y) == Ties(s, y) + (if SameKey(x, y) then [x] else []) {
      TiesBehind(x, s[0], s[1..], rest, y);
    }
  }

  lemma TiesBehind(x: Repo, h: Repo, t: seq<Repo>, rest: seq<Repo>, y: Repo)
    requires Ties(rest, y) == Ties(t, y) + (if SameKey(x, y) then [x] else [])
    ensures Ties([h] + rest, y) == Ties([h] + t, y) + (if SameKey(x, y) then [x] else [])
  {
    assert ([h] + rest)[1..] == rest;
    assert ([h] + t)[1..] == t;
  }

  lemma SortedBehind(x: Repo, s: seq<Repo>, rest: seq<Repo>)
    requires Sorted(s) && s != [] && Compare(s[0], x) <= 0
    requires Sorted(rest) && multiset(rest) == multiset(s[1..]) + multiset{x}
    ensures Sorted([s[0]] + rest)
  {
    forall j | 0 <= j < |rest| ensures Compare(s[0], rest[j]) <= 0 {
      assert rest[j] in multiset(rest);
      if rest[j] != x {
        assert rest[j] in multiset(s[1..]);
        var k :| 0 <= k < |s[1..]| && s[1..][k] == rest[j];
        assert s[k + 1] == rest[j];
      }
    }
  }

  lemma {:induction false} TiesNone(s: seq<Repo>, y: Repo)
    requires forall j :: 0 <= j < |s| ==> !SameKey(s[j], y)
    ensures Ties(s, y) == []
  {
    if s != [] {
      TiesNone(s[1..], y);
    }
  }

  /** `Collections.sort(repos, comparator)`: a stable sort, here inserting the
      elements in list order. */
  function SortRepos(s: seq<Repo>): (r: seq<Repo>)
    ensures Sorted(r)
    ensures multiset(r) == multiset(s)
    ensures forall y :: Ties(r, y) == Ties(s, y)
  {
    if s == [] then []
    else
      var n := |s| - 1;
      var r := Insert(s[n], SortRepos(s[..n]));
      assert s == s[..n] + [s[n]];
      TiesOfSnoc(s);
      r
  }

  lemma TiesOfSnoc(s: seq<Repo>)
    requires s != []
    ensures forall y :: Ties(s, y) == Ties(s[..|s| - 1], y) + (if SameKey(s[|s| - 1], y) then [s[|s| - 1]] else [])
  {
    var n := |s| - 1;
    assert s == s[..n] + [s[n]];
    forall y ensures Ties(s, y) == Ties(s[..n], y) + (if SameKey(s[n], y) then [s[n]] else []) {
      TiesOfAppend(s[..n], s[n], y);
    }
  }

  lemma TiesOfAppend(p: seq<Repo>, x: Repo, y: Repo)
    ensures Ties(p + [x], y) == Ties(p, y) + (if SameKey(x, y) then [x] else [])
  {
    TiesOfConcat(p, [x], y);
    assert Ties([x], y) == (if SameKey(x, y) then [x] else []) + Ties([], y);
  }

  /** A sorted list is determined by the order of its ties: every stable sort
      by the comparator, whatever its algorithm, gives `SortRepos`' list. */
  lemma {:induction false} StableSortUnique(a: seq<Repo>, b: seq<Repo>)
    requires Sorted(a) && Sorted(b)
    requires forall y :: Ties(a, y) == Ties(b, y)
    ensures a == b
  {
    EmptyTogether(a, b);
    if a != [] {
      HeadsAgree(a, b);
      TailsTie(a, b);
      StableSortUnique(a[1..], b[1..]);
      assert a == [a[0]] + a[1..] && b == [b[0]] + b[1..];
    }
  }

  lemma HeadInTies(a: seq<Repo>)
    requires a != []
    ensures Ties(a, a[0]) == [a[0]] + Ties(a[1..], a[0])
  {
  }

  lemma EmptyTogether(a: seq<Repo>, b: seq<Repo>)
    requires forall y :: Ties(a, y) == Ties(b, y)
    ensures a == [] <==> b == []
  {
    if a != [] {
      HeadInTies(a);
      assert Ties(b, a[0]) != [];
    }
    if b != [] {
      HeadInTies(b);
      assert Ties(a, b[0]) != [];
    }
  }

  lemma HeadsAgree(a: seq<Repo>, b: seq<Repo>)
    requires Sorted(a) && Sorted(b) && a != [] && b != []
    requires forall y :: Ties(a, y) == Ties(b, y)
    ensures a[0] == b[0]
  {
    var x, z := a[0], b[0];
    assert x in a && z in b;
    assert Ties(a, z) == Ties(b, z) && Ties(a, x) == Ties(b, x);
    InTies(b, z);
    InTies(a, x);
    TiesMembers(a, z);
    TiesMembers(b, x);
    assert z in a && x in b;
    HeadIsLeast(a, z);
    HeadIsLeast(b, x);
    CompareAntisymmetric(x, z);
    CompareZero(x, z);
    assert SameKey(z, x);
    HeadInTies(a);
    assert Ties(a, x)[0] == x;
    assert Ties(b, x) == [z] + Ties(b[1..], x);
    assert Ties(b, x)[0] == z;
  }

  lemma {:induction false} TiesMembers(s: seq<Repo>, y: Repo)
    ensures forall x :: x in Ties(s, y) ==> x in s && SameKey(x, y)
  {
    if s != [] {
      TiesMembers(s[1..], y);
      assert s == [s[0]] + s[1..];
    }
  }

  lemma InTies(s: seq<Repo>, x: Repo)
    requires x in s
    ensures x in Ties(s, x)
  {
    if s[0] != x {
      InTies(s[1..], x);
    }
  }

  lemma HeadIsLeast(s: seq<Repo>, x: Repo)
    requires Sorted(s) && x in s
    ensures Compare(s[0], x) <= 0
  {
    var k :| 0 <= k < |s| && s[k] == x;
    CompareZero(x, x);
  }

  lemma TailsTie(a: seq<Repo>, b: seq<Repo>)
    requires a != [] && b != [] && a[0] == b[0]
    requires forall y :: Ties(a, y) == Ties(b, y)
    ensures forall y :: Ties(a[1..], y) == Ties(b[1..], y)
  {
    forall y ensures Ties(a[1..], y) == Ties(b[1..], y) {
      TailTies(a, b, y);
    }
  }

  lemma TailTies(a: seq<Repo>, b: seq<Repo>, y: Repo)
    requires a != [] && b != [] && a[0] == b[0]
    requires Ties(a, y) == Ties(b, y)
    ensures Ties(a[1..], y) == Ties(b[1..], y)
  {
    var p := if SameKey(a[0], y) then [a[0]] else [];
    assert Ties(a, y) == p + Ties(a[1..], y);
    assert Ties(b, y) == p + Ties(b[1..], y);
    assert (p + Ties(a[1..], y))[|p|..] == Ties(a[1..], y);
    assert (p + Ties(b[1..], y))[|p|..] == Ties(b[1..], y);
  }

  /** The filter keeps every tie group of a kept class whole and in order. */
  lemma {:induction false} TiesOfEligible(art: Option<Artifact>, cands: seq<Repo>, y: Repo)
    ensures Ties(Eligible(art, cands), y) == if IsProduct(art) && !IsRedHat(y) then [] else Ties(cands, y)
  {
    if cands != [] {
      var n := |cands| - 1;
      var e := Eligible(art, cands[..n]);
      TiesOfEligible(art, cands[..n], y);
      TiesOfSnoc(cands);
      if !IsProduct(art) || IsRedHat(cands[n]) {
        assert Eligible(art, cands) == e + [cands[n]];
        TiesOfSnoc(e + [cands[n]]);
        assert (e + [cands[n]])[..|e|] == e;
      } else {
        assert Eligible(art, cands) == e;
      }
    }
  }

  // ---------------------------------------------------------------------------
  // The whole ordering (lines 132-177)
  // ---------------------------------------------------------------------------

  /** getRemoteRepositories: the eligible candidates, sorted with "redhat"
      repositories last and by id within each class, ties kept in candidate
      order; an empty list when nothing is eligible. */
  function Order(art: Option<Artifact>, cands: seq<Repo>): (r: seq<Repo>)
    ensures !IsProduct(art) ==> multiset(r) == multiset(cands)
    ensures IsProduct(art) ==> forall x :: multiset(r)[x] == if IsRedHat(x) then multiset(cands)[x] else 0
    ensures forall i, j :: 0 <= i < j < |r| && IsRedHat(r[i]) ==> IsRedHat(r[j])
    ensures forall i, j :: 0 <= i < j < |r| && IsRedHat(r[i]) == IsRedHat(r[j]) ==>
      CompareTo(r[i].id, r[j].id) <= 0
    ensures forall y :: Ties(r, y) == if IsProduct(art) && !IsRedHat(y) then [] else Ties(cands, y)
    ensures r == [] <==> forall x :: x in cands ==> IsProduct(art) && !IsRedHat(x)
  {
    var kept := Eligible(art, cands);
    var r := if kept == [] then [] else SortRepos(kept);
    OrderShape(art, cands, r);
    r
  }

  lemma OrderShape(art: Option<Artifact>, cands: seq<Repo>, r: seq<Repo>)
    requires Sorted(r) && multiset(r) == multiset(Eligible(art, cands))
    requires forall y :: Ties(r, y) == Ties(Eligible(art, cands), y)
    ensures forall i, j :: 0 <= i < j < |r| && IsRedHat(r[i]) ==> IsRedHat(r[j])
    ensures forall y :: Ties(r, y) == if IsProduct(art) && !IsRedHat(y) then [] else Ties(cands, y)
    ensures r == [] <==> forall x :: x in cands ==> IsProduct(art) && !IsRedHat(x)
  {
    forall y ensures Ties(r, y) == if IsProduct(art) && !IsRedHat(y) then [] else Ties(cands, y) {
      TiesOfEligible(art, cands, y);
    }
    RedHatLast(r);
    EmptyWhenNoneEligible(art, cands, r);
  }

  lemma RedHatLast(r: seq<Repo>)
    requires Sorted(r)
    ensures forall i, j :: 0 <= i < j < |r| && IsRedHat(r[i]) ==> IsRedHat(r[j])
  {
    forall i, j | 0 <= i < j < |r| && IsRedHat(r[i]) ensures IsRedHat(r[j]) {
      assert Compare(r[i], r[j]) <= 0;
    }
  }

  lemma EmptyWhenNoneEligible(art: Option<Artifact>, cands: seq<Repo>, r: seq<Repo>)
    requires multiset(r) == multiset(Eligible(art, cands))
    ensures r == [] <==> forall x :: x in cands ==> IsProduct(art) && !IsRedHat(x)
  {
    var kept := Eligible(art, cands);
    if r != [] {
      assert r[0] in multiset(r);
    }
    if kept != [] {
      assert kept[0] in multiset(kept);
      assert kept[0] in cands && (!IsProduct(art) || IsRedHat(kept[0]));
    } else {
      forall x | x in cands ensures IsProduct(art) && !IsRedHat(x) {
        assert x !in kept;
      }
    }
  }
}
