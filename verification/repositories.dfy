/** The values the ordering engines work on: remote repositories, artifact
    coordinates, and the sequence facts both engines state their results with. */
module Repositories {

  /** A remote repository, compared by value: two entries are the same
      repository exactly when their id and url agree. */
  datatype Repo = Repo(id: string, url: string)

  /** The coordinates of an artifact. */
  datatype Artifact = Artifact(groupId: string, artifactId: string, version: string)

  /** The `group:artifact:version` string rules are matched against. */
  function Gav(a: Artifact): string
  {
    a.groupId + ":" + a.artifactId + ":" + a.version
  }

  predicate NoDup<T(==)>(s: seq<T>)
  {
    forall i, j :: 0 <= i < j < |s| ==> s[i] != s[j]
  }

  /** The position of the first occurrence of `x` in `s`. */
  function Pos<T(==)>(s: seq<T>, x: T): (k: nat)
    requires x in s
    ensures k < |s| && s[k] == x
    ensures forall j :: 0 <= j < k ==> s[j] != x
  {
    if s[0] == x then 0 else 1 + Pos(s[1..], x)
  }

  /** A duplicate-free sequence holds as many distinct elements as it is long. */
  lemma {:induction false} NoDupCardinality<T>(s: seq<T>)
    requires NoDup(s)
    ensures |set x | x in s| == |s|
  {
    if s != [] {
      var rest := s[1..];
      assert NoDup(rest) by {
        forall i, j | 0 <= i < j < |rest| ensures rest[i] != rest[j] {
          assert rest[i] == s[i + 1] && rest[j] == s[j + 1];
        }
      }
      NoDupCardinality(rest);
      assert s[0] !in rest by {
        forall j | 0 <= j < |rest| ensures rest[j] != s[0] {
          assert rest[j] == s[j + 1];
        }
      }
      assert (set x | x in s) == (set x | x in rest) + {s[0]};
    }
  }

  /** A sequence holds at most as many distinct elements as it is long. */
  lemma {:induction false} CardinalityBound<T>(s: seq<T>)
    ensures |set x | x in s| <= |s|
  {
    if s != [] {
      CardinalityBound(s[1..]);
      assert (set x | x in s) == (set x | x in s[1..]) + {s[0]};
    }
  }

  /** A duplicate-free sequence drawn from another one and as long as it holds
      exactly the same elements. */
  lemma SameLengthSubsetIsAll<T>(sub: seq<T>, all: seq<T>)
    requires NoDup(sub)
    requires forall x :: x in sub ==> x in all
    requires |sub| == |all|
    ensures forall x :: x in all ==> x in sub
  {
    var a := set x | x in sub;
    var b := set x | x in all;
    NoDupCardinality(sub);
    CardinalityBound(all);
    assert a <= b;
    assert |b - a| == 0 by {
      assert b == a + (b - a) && a !! (b - a);
    }
    assert b - a == {};
    forall x | x in all ensures x in sub {
      assert x in b;
    }
  }

  /** A sub-multiset as large as the whole is the whole. */
  lemma SubMultisetOfSameSize<T>(m: multiset<T>, n: multiset<T>)
    requires m <= n && |m| == |n|
    ensures m == n
  {
    assert n == m + (n - m);
    assert |n - m| == 0;
    assert n - m == multiset{};
  }
}
