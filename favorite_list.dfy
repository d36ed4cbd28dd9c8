/** The list operations the favorites store applies to its list of recipe
    ids, and what they guarantee. */
module FavoriteList {

  /** `ids.includes(x)`: a scan from the front. */
  function Includes(ids: seq<int>, x: int): (r: bool)
    ensures r <==> x in ids
  {
    if ids == [] then false
    else ids[0] == x || Includes(ids[1..], x)
  }

  /** `ids.filter(y => y !== x)`. */
  function Without(ids: seq<int>, x: int): (r: seq<int>)
    ensures x !in r
    ensures forall y :: y in r <==> y in ids && y != x
    ensures |r| <= |ids|
  {
    if ids == [] then []
    else if ids[0] == x then Without(ids[1..], x)
    else [ids[0]] + Without(ids[1..], x)
  }

  /** The list after one toggle of `x`: every occurrence is filtered out when
      `x` is present, otherwise `x` is pushed at the end. */
  function Toggled(ids: seq<int>, x: int): (r: seq<int>)
    ensures x in r <==> x !in ids
    ensures forall y :: y != x ==> (y in r <==> y in ids)
    ensures x !in ids ==> |r| == |ids| + 1 && r[..|ids|] == ids && r[|ids|] == x
  {
    if x in ids then Without(ids, x) else ids + [x]
  }

  predicate NoDuplicates(s: seq<int>)
  {
    forall i, j :: 0 <= i < j < |s| ==> s[i] != s[j]
  }

  /** `a` can be obtained from `b` by deleting elements, keeping the order of
      the rest (greedy matching from the front). */
  predicate IsSubsequence(a: seq<int>, b: seq<int>)
    decreases |b|
  {
    if a == [] then true
    else if b == [] then false
    else if a[0] == b[0] then IsSubsequence(a[1..], b[1..])
    else IsSubsequence(a, b[1..])
  }

  /** Filtering drops exactly the occurrences of `x` and keeps the count of
      every other id. */
  lemma {:induction false} WithoutCounts(ids: seq<int>, x: int)
    ensures multiset(Without(ids, x)) == multiset(ids)[x := 0]
  {
    if ids != [] {
      WithoutCounts(ids[1..], x);
      assert ids == [ids[0]] + ids[1..];
    }
  }

  /** Filtering keeps the remaining ids in their relative order. */
  lemma {:induction false} WithoutIsSubsequence(ids: seq<int>, x: int)
    ensures IsSubsequence(Without(ids, x), ids)
  {
    if ids != [] {
      var rest := Without(ids[1..], x);
      WithoutIsSubsequence(ids[1..], x);
      if ids[0] != x {
        assert ([ids[0]] + rest)[1..] == rest;
      }
    }
  }

  /** Filtering works element by element: it distributes over concatenation. */
  lemma {:induction false} WithoutConcat(a: seq<int>, b: seq<int>, x: int)
    ensures Without(a + b, x) == Without(a, x) + Without(b, x)
  {
    if a == [] {
      assert a + b == b;
    } else {
      assert (a + b)[1..] == a[1..] + b;
      WithoutConcat(a[1..], b, x);
    }
  }

  /** Filtering out an id that is absent leaves the list as it was. */
  lemma {:induction false} WithoutAbsent(ids: seq<int>, x: int)
    requires x !in ids
    ensures Without(ids, x) == ids
  {
    if ids != [] {
      WithoutAbsent(ids[1..], x);
      assert ids == [ids[0]] + ids[1..];
    }
  }

  /** Filtering never introduces a duplicate. */
  lemma {:induction false} WithoutKeepsNoDuplicates(ids: seq<int>, x: int)
    requires NoDuplicates(ids)
    ensures NoDuplicates(Without(ids, x))
  {
    if ids != [] {
      var rest := Without(ids[1..], x);
      assert NoDuplicates(ids[1..]) by {
        forall i, j | 0 <= i < j < |ids[1..]| ensures ids[1..][i] != ids[1..][j] {
          assert ids[1..][i] == ids[i + 1] && ids[1..][j] == ids[j + 1];
        }
      }
      WithoutKeepsNoDuplicates(ids[1..], x);
      if ids[0] != x {
        var r := [ids[0]] + rest;
        assert ids[0] !in ids[1..] by {
          forall k | 0 <= k < |ids[1..]| ensures ids[1..][k] != ids[0] {
            assert ids[1..][k] == ids[k + 1];
          }
        }
        assert ids[0] !in rest;
        forall i, j | 0 <= i < j < |r| ensures r[i] != r[j] {
          if i == 0 {
            assert r[j] == rest[j - 1];
            assert r[j] in rest;
          } else {
            assert r[i] == rest[i - 1] && r[j] == rest[j - 1];
          }
        }
      }
    }
  }

  /** In a duplicate-free list an id that occurs, occurs once. */
  lemma {:induction false} OccursOnce(ids: seq<int>, x: int)
    requires NoDuplicates(ids) && x in ids
    ensures multiset(ids)[x] == 1
  {
    assert ids == [ids[0]] + ids[1..];
    assert NoDuplicates(ids[1..]) by {
      forall i, j | 0 <= i < j < |ids[1..]| ensures ids[1..][i] != ids[1..][j] {
        assert ids[1..][i] == ids[i + 1] && ids[1..][j] == ids[j + 1];
      }
    }
    if ids[0] == x {
      assert x !in ids[1..] by {
        forall k | 0 <= k < |ids[1..]| ensures ids[1..][k] != x {
          assert ids[1..][k] == ids[k + 1];
        }
      }
      assert multiset(ids[1..])[x] == 0;
    } else {
      OccursOnce(ids[1..], x);
    }
  }

  /** Toggling off removes every occurrence of the id, keeps the count of
      every other id and keeps the remaining ids in order. */
  lemma ToggleRemovesEveryOccurrence(ids: seq<int>, x: int)
    requires x in ids
    ensures multiset(Toggled(ids, x)) == multiset(ids)[x := 0]
    ensures IsSubsequence(Toggled(ids, x), ids)
  {
    WithoutCounts(ids, x);
    WithoutIsSubsequence(ids, x);
  }

  /** Toggling keeps a duplicate-free list duplicate-free: the id is pushed
      only when it is absent. */
  lemma ToggleKeepsNoDuplicates(ids: seq<int>, x: int)
    requires NoDuplicates(ids)
    ensures NoDuplicates(Toggled(ids, x))
  {
    if x in ids {
      WithoutKeepsNoDuplicates(ids, x);
    } else {
      var r := ids + [x];
      forall i, j | 0 <= i < j < |r| ensures r[i] != r[j] {
        if j == |ids| {
          assert r[i] == ids[i];
        } else {
          assert r[i] == ids[i] && r[j] == ids[j];
        }
      }
    }
  }

  /** Two toggles of the same id restore the membership of every id; on a
      duplicate-free list they also restore how often each id occurs. */
  lemma ToggleTwiceRestoresMembership(ids: seq<int>, x: int)
    ensures forall y :: y in Toggled(Toggled(ids, x), x) <==> y in ids
    ensures NoDuplicates(ids) ==> multiset(Toggled(Toggled(ids, x), x)) == multiset(ids)
  {
    if x in ids {
      var once := Without(ids, x);
      assert Toggled(once, x) == once + [x];
      if NoDuplicates(ids) {
        WithoutCounts(ids, x);
        OccursOnce(ids, x);
        assert multiset(ids)[x := 0][x := 1] == multiset(ids);
      }
    } else {
      ToggleTwiceRestoresListWhenAbsent(ids, x);
    }
  }

  /** Toggling an absent id on and off again gives back the very same list. */
  lemma ToggleTwiceRestoresListWhenAbsent(ids: seq<int>, x: int)
    requires x !in ids
    ensures Toggled(Toggled(ids, x), x) == ids
  {
    WithoutConcat(ids, [x], x);
    WithoutAbsent(ids, x);
    assert Without([x], x) == [];
  }

  /** Toggling a present id off and on again leaves the other ids in order
      and puts the id once at the end. */
  lemma ToggleOffOnMovesToEnd(ids: seq<int>, x: int)
    requires x in ids
    ensures Toggled(Toggled(ids, x), x) == Without(ids, x) + [x]
  {
  }

  /** An instance of the above: the list order is not restored in general. */
  lemma ToggleTwiceMayReorder()
    ensures Toggled(Toggled([1, 2], 1), 1) == [2, 1]
  {
  }
}
