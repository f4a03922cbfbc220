/** Selection of the nearest cafes (`get_coffee_distance` in main.py):
    Python's `sorted` with key `distance`, which is stable, followed by the
    slice `[:5]`. Distances are exact reals here, so the key order is total. */
module Ranking {

  /** A ranked cafe as built by the record loop in `main`. */
  datatype Ranked = Ranked(title: string, distance: real, latitude: real, longitude: real)

  /** How many cafes are kept. */
  const Limit: nat := 5

  function Min(a: nat, b: nat): nat
  {
    if a <= b then a else b
  }

  /** Non-decreasing in distance. */
  predicate Sorted(s: seq<Ranked>)
  {
    forall i, j :: 0 <= i < j < |s| ==> s[i].distance <= s[j].distance
  }

  /** The subsequence of `s` whose distance is `d`, in the order of `s`.
      A sort is stable when it keeps every such subsequence as it was. */
  function WithDistance(s: seq<Ranked>, d: real): seq<Ranked>
  {
    if |s| == 0 then []
    else if s[0].distance == d then [s[0]] + WithDistance(s[1..], d)
    else WithDistance(s[1..], d)
  }

  /** Puts `x` in front of the first element that is not nearer than it. */
  function Insert(x: Ranked, s: seq<Ranked>): (r: seq<Ranked>)
    ensures |r| == |s| + 1
  {
    if |s| == 0 || x.distance <= s[0].distance then [x] + s
    else [s[0]] + Insert(x, s[1..])
  }

  /** Stable sort by distance: each element goes in front of the later
      elements of equal distance, which were already sorted. */
  function SortByDistance(s: seq<Ranked>): (sorted: seq<Ranked>)
    ensures |sorted| == |s|
  {
    if |s| == 0 then [] else Insert(s[0], SortByDistance(s[1..]))
  }

  /** `get_coffee_distance`: the first `Limit` entries of the stable sort. */
  function GetCoffeeDistance(cafes: seq<Ranked>): (closest: seq<Ranked>)
    ensures |closest| == Min(Limit, |cafes|)
    ensures Sorted(closest)
    ensures multiset(closest) <= multiset(cafes)
    ensures forall x, y :: x in multiset(cafes) - multiset(closest) && y in closest
              ==> y.distance <= x.distance
    ensures forall d :: IsPrefix(WithDistance(closest, d), WithDistance(cafes, d))
  {
    var sorted := SortByDistance(cafes);
    SortByDistanceSpec(cafes);
    var closest := if |sorted| <= Limit then sorted else sorted[..Limit];
    PrefixOfSorted(sorted, |closest|);
    forall d
      ensures IsPrefix(WithDistance(closest, d), WithDistance(cafes, d))
    {
      WithDistancePrefix(sorted, |closest|, d);
    }
    closest
  }

  predicate IsPrefix<T(==)>(a: seq<T>, b: seq<T>)
  {
    |a| <= |b| && a == b[..|a|]
  }

  // ---------------------------------------------------------------------
  // Insertion

  lemma {:induction false} InsertSpec(x: Ranked, s: seq<Ranked>)
    ensures |Insert(x, s)| == |s| + 1
    ensures multiset(Insert(x, s)) == multiset(s) + multiset{x}
    ensures Sorted(s) ==> Sorted(Insert(x, s))
    ensures forall d :: WithDistance(Insert(x, s), d)
              == if x.distance == d then [x] + WithDistance(s, d) else WithDistance(s, d)
  {
    InsertCount(x, s);
    if Sorted(s) {
      InsertSorted(x, s);
    }
    forall d
      ensures WithDistance(Insert(x, s), d)
        == if x.distance == d then [x] + WithDistance(s, d) else WithDistance(s, d)
    {
      InsertRuns(x, s, d);
    }
  }

  lemma {:induction false} InsertCount(x: Ranked, s: seq<Ranked>)
    ensures |Insert(x, s)| == |s| + 1
    ensures multiset(Insert(x, s)) == multiset(s) + multiset{x}
  {
    if |s| > 0 && x.distance > s[0].distance {
      InsertCount(x, s[1..]);
      assert s == [s[0]] + s[1..];
    }
  }

  lemma {:induction false} InsertSorted(x: Ranked, s: seq<Ranked>)
    requires Sorted(s)
    ensures Sorted(Insert(x, s))
  {
    if |s| > 0 && x.distance > s[0].distance {
      var rest := Insert(x, s[1..]);
      SortedTail(s);
      InsertSorted(x, s[1..]);
      InsertCount(x, s[1..]);
      var r := Insert(x, s);
      assert r == [s[0]] + rest;
      forall j | 0 < j < |r|
        ensures s[0].distance <= r[j].distance
      {
        assert r[j] == rest[j - 1];
        assert rest[j - 1] in multiset(s[1..]) + multiset{x};
        if rest[j - 1] in multiset(s[1..]) {
          var k :| 0 <= k < |s[1..]| && s[1..][k] == rest[j - 1];
          assert s[1..][k] == s[k + 1];
        }
      }
      forall i, j | 0 <= i < j < |r|
        ensures r[i].distance <= r[j].distance
      {
        if i > 0 {
          assert r[i] == rest[i - 1] && r[j] == rest[j - 1];
        }
      }
    }
  }

  lemma {:induction false} InsertRuns(x: Ranked, s: seq<Ranked>, d: real)
    ensures WithDistance(Insert(x, s), d)
      == if x.distance == d then [x] + WithDistance(s, d) else WithDistance(s, d)
  {
    if |s| == 0 || x.distance <= s[0].distance {
      assert Insert(x, s)[1..] == s;
    } else {
      InsertRuns(x, s[1..], d);
      assert Insert(x, s)[1..] == Insert(x, s[1..]);
    }
  }

  // ---------------------------------------------------------------------
  // Sorting

  /** The stable sort is a sorted permutation that keeps the order of
      every run of equal distances. */
  lemma {:induction false} SortByDistanceSpec(s: seq<Ranked>)
    ensures |SortByDistance(s)| == |s|
    ensures multiset(SortByDistance(s)) == multiset(s)
    ensures Sorted(SortByDistance(s))
    ensures SameRuns(SortByDistance(s), s)
  {
    if |s| > 0 {
      SortByDistanceSpec(s[1..]);
      InsertSpec(s[0], SortByDistance(s[1..]));
      assert s == [s[0]] + s[1..];
      forall d
        ensures WithDistance(SortByDistance(s), d) == WithDistance(s, d)
      {
      }
    }
  }

  /** Every element of `WithDistance(s, d)` is an element of `s` at
      distance `d`. */
  lemma {:induction false} WithDistanceMembers(s: seq<Ranked>, d: real, x: Ranked)
    ensures x in WithDistance(s, d) <==> x in s && x.distance == d
  {
    if |s| > 0 {
      WithDistanceMembers(s[1..], d, x);
      assert s == [s[0]] + s[1..];
    }
  }

  /** Sortedness and the runs of equal distance determine a sequence:
      two sorted sequences with the same runs are equal. */
  lemma {:induction false} SortedRunsDetermine(a: seq<Ranked>, b: seq<Ranked>)
    requires Sorted(a) && Sorted(b)
    requires SameRuns(a, b)
    ensures a == b
  {
    if |a| == 0 && |b| > 0 {
      HeadRun(b);
      assert false;
    } else if |a| > 0 && |b| == 0 {
      HeadRun(a);
      assert false;
    } else if |a| > 0 {
      var da, db := a[0].distance, b[0].distance;
      WithDistanceMembers(b, da, a[0]);
      WithDistanceMembers(a, db, b[0]);
      assert a[0] in WithDistance(a, da);
      assert b[0] in WithDistance(b, db);
      assert a[0] in b;
      assert b[0] in a;
      assert db <= da;
      assert da <= db;
      assert WithDistance(a, da)[0] == a[0];
      assert WithDistance(b, da)[0] == b[0];
      forall d
        ensures WithDistance(a[1..], d) == WithDistance(b[1..], d)
      {
        assert WithDistance(a, d) == WithDistance(b, d);
        if d == da {
          assert WithDistance(a[1..], d) == WithDistance(a, d)[1..];
          assert WithDistance(b[1..], d) == WithDistance(b, d)[1..];
        } else {
          assert WithDistance(a[1..], d) == WithDistance(a, d);
          assert WithDistance(b[1..], d) == WithDistance(b, d);
        }
      }
      SortedTail(a);
      SortedTail(b);
      SortedRunsDetermine(a[1..], b[1..]);
      assert a == [a[0]] + a[1..];
      assert b == [b[0]] + b[1..];
    }
  }

  /** The run of the first element's distance is never empty. */
  lemma HeadRun(s: seq<Ranked>)
    ensures |s| > 0 ==> WithDistance(s, s[0].distance) != []
  {
  }

  lemma SortedTail(s: seq<Ranked>)
    requires Sorted(s) && |s| > 0
    ensures Sorted(s[1..])
  {
  }

  /** `a` and `b` have the same run of elements at every distance. */
  ghost predicate SameRuns(a: seq<Ranked>, b: seq<Ranked>)
  {
    forall d :: WithDistance(a, d) == WithDistance(b, d)
  }

  /** Python's stable `sorted` by distance is characterised by two facts:
      its result is sorted and keeps every run of equal distances. Any
      sequence with both facts is the result of `SortByDistance`. */
  lemma StableSortUnique(s: seq<Ranked>, t: seq<Ranked>)
    ensures Sorted(t) && SameRuns(t, s) <==> t == SortByDistance(s)
  {
    var sorted := SortByDistance(s);
    SortByDistanceSpec(s);
    if Sorted(t) && SameRuns(t, s) {
      forall d
        ensures WithDistance(t, d) == WithDistance(sorted, d)
      {
        assert WithDistance(t, d) == WithDistance(s, d);
      }
      SortedRunsDetermine(t, sorted);
    }
  }

  // ---------------------------------------------------------------------
  // Taking the first entries

  /** A prefix of a sorted sequence is sorted, and nothing outside it is
      nearer than anything inside it. */
  lemma PrefixOfSorted(s: seq<Ranked>, k: nat)
    requires Sorted(s) && k <= |s|
    ensures Sorted(s[..k])
    ensures multiset(s[..k]) <= multiset(s)
    ensures forall x, y :: x in multiset(s) - multiset(s[..k]) && y in s[..k]
              ==> y.distance <= x.distance
  {
    assert s == s[..k] + s[k..];
    assert multiset(s) == multiset(s[..k]) + multiset(s[k..]);
    forall x, y | x in multiset(s) - multiset(s[..k]) && y in s[..k]
      ensures y.distance <= x.distance
    {
      assert x in multiset(s[k..]);
      var j :| k <= j < |s| && s[j] == x;
      var i :| 0 <= i < k && s[i] == y;
    }
  }

  /** The runs of a prefix are prefixes of the runs. */
  lemma {:induction false} WithDistancePrefix(s: seq<Ranked>, k: nat, d: real)
    requires k <= |s|
    ensures IsPrefix(WithDistance(s[..k], d), WithDistance(s, d))
  {
    if k > 0 {
      WithDistancePrefix(s[1..], k - 1, d);
      assert s[..k][1..] == s[1..][..k - 1];
    }
  }
}
