/** Generic operations on the rows of a table held as a sequence: a WHERE
    filter, an ORDER BY ... DESC (a stable insertion sort) and a LIMIT. */
module Tables {

  /** `rel` holds of every pair of rows in table order. */
  ghost predicate Pairwise<T>(s: seq<T>, rel: (T, T) -> bool)
  {
    forall i, j :: 0 <= i < j < |s| ==> rel(s[i], s[j])
  }

  /** The rows of `s` that satisfy `keep`, in table order (a WHERE clause). */
  function Filter<T(!new)>(s: seq<T>, keep: T -> bool): (r: seq<T>)
    ensures |r| <= |s|
    ensures forall x :: x in r <==> x in s && keep(x)
    ensures forall x :: multiset(r)[x] == if keep(x) then multiset(s)[x] else 0
  {
    if s == [] then []
    else
      assert s == [s[0]] + s[1..];
      if keep(s[0]) then [s[0]] + Filter(s[1..], keep) else Filter(s[1..], keep)
  }

  /** Deleting rows keeps every pairwise property of the rows that remain. */
  lemma {:induction false} FilterPairwise<T(!new)>(s: seq<T>, keep: T -> bool, rel: (T, T) -> bool)
    requires Pairwise(s, rel)
    ensures Pairwise(Filter(s, keep), rel)
  {
    if s != [] {
      var rest := Filter(s[1..], keep);
      assert Pairwise(s[1..], rel) by {
        forall i, j | 0 <= i < j < |s[1..]| ensures rel(s[1..][i], s[1..][j]) {
          assert s[1..][i] == s[i + 1] && s[1..][j] == s[j + 1];
        }
      }
      FilterPairwise(s[1..], keep, rel);
      if keep(s[0]) {
        var r := [s[0]] + rest;
        forall i, j | 0 <= i < j < |r| ensures rel(r[i], r[j]) {
          if i == 0 {
            assert r[j] in s[1..];
            var k :| 0 <= k < |s[1..]| && s[1..][k] == r[j];
            assert s[k + 1] == r[j];
          } else {
            assert r[i] == rest[i - 1] && r[j] == rest[j - 1];
          }
        }
      }
    }
  }

  /** Appending a row that stands in `rel` to every earlier row keeps `rel` pairwise. */
  lemma PairwiseAppend<T>(s: seq<T>, x: T, rel: (T, T) -> bool)
    requires Pairwise(s, rel)
    requires forall y :: y in s ==> rel(y, x)
    ensures Pairwise(s + [x], rel)
  {
    var r := s + [x];
    forall i, j | 0 <= i < j < |r| ensures rel(r[i], r[j]) {
      assert r[i] == s[i] && r[i] in s;
    }
  }

  /** Rows in descending order of `key`. */
  predicate SortedDesc<T>(s: seq<T>, key: T -> int)
  {
    forall i, j :: 0 <= i < j < |s| ==> key(s[j]) <= key(s[i])
  }

  /** Inserts `x` into a descending sequence, in front of the rows with an equal key. */
  function InsertDesc<T(!new)>(x: T, s: seq<T>, key: T -> int): (r: seq<T>)
    requires SortedDesc(s, key)
    ensures SortedDesc(r, key)
    ensures multiset(r) == multiset(s) + multiset{x}
  {
    if s == [] || key(s[0]) <= key(x) then
      ConsSorted(x, s, key);
      [x] + s
    else
      var rest := InsertDesc(x, s[1..], key);
      assert s == [s[0]] + s[1..];
      assert forall y :: y in rest ==> key(y) <= key(s[0]) by {
        forall y | y in rest ensures key(y) <= key(s[0]) {
          assert y in multiset(rest);
          if y != x {
            var k :| 0 <= k < |s[1..]| && s[1..][k] == y;
            assert s[k + 1] == y;
          }
        }
      }
      ConsSorted(s[0], rest, key);
      [s[0]] + rest
  }

  /** A row no smaller than every row of a descending sequence may head it. */
  lemma ConsSorted<T>(h: T, s: seq<T>, key: T -> int)
    requires SortedDesc(s, key)
    requires forall y :: y in s ==> key(y) <= key(h)
    ensures SortedDesc([h] + s, key)
  {
    var r := [h] + s;
    forall i, j | 0 <= i < j < |r| ensures key(r[j]) <= key(r[i]) {
      assert r[j] == s[j - 1];
      if i > 0 { assert r[i] == s[i - 1]; }
    }
  }

  /** A stable sort into descending order of `key` (ORDER BY key DESC). */
  function SortDesc<T(!new)>(s: seq<T>, key: T -> int): (r: seq<T>)
    ensures SortedDesc(r, key)
    ensures multiset(r) == multiset(s)
    ensures |r| == |s|
  {
    if s == [] then []
    else
      assert s == [s[0]] + s[1..];
      InsertDesc(s[0], SortDesc(s[1..], key), key)
  }

  /** SQLite's LIMIT: a negative limit means no limit. */
  function Take<T>(s: seq<T>, limit: int): (r: seq<T>)
    ensures limit >= 0 ==> |r| <= limit
    ensures |r| <= |s| && r == s[..|r|]
    ensures limit < 0 || limit >= |s| ==> r == s
    ensures 0 <= limit <= |s| ==> |r| == limit
  {
    if limit < 0 || limit >= |s| then s else s[..limit]
  }

  /** `SELECT ... WHERE keep ORDER BY key DESC LIMIT limit`. */
  function NewestFirst<T(!new)>(s: seq<T>, keep: T -> bool, key: T -> int, limit: int): (r: seq<T>)
    ensures limit >= 0 ==> |r| <= limit
    ensures |r| == if limit < 0 || limit >= |Filter(s, keep)| then |Filter(s, keep)| else limit
    ensures SortedDesc(r, key)
    ensures forall x :: x in r ==> x in s && keep(x)
    ensures multiset(r) <= multiset(Filter(s, keep))
    ensures limit < 0 || |Filter(s, keep)| <= limit ==> multiset(r) == multiset(Filter(s, keep))
    ensures limit != 0 && Filter(s, keep) != [] ==> r != []
    // the rows that LIMIT cuts off are no newer than any row it keeps
    ensures forall x, i :: x in multiset(Filter(s, keep)) - multiset(r) && 0 <= i < |r| ==> key(x) <= key(r[i])
  {
    var f := Filter(s, keep);
    var all := SortDesc(f, key);
    TakeOfSorted(all, key, limit);
    SameMembers(all, f);
    Take(all, limit)
  }

  /** `LIMIT 1` of a newest-first query: nothing exactly when no row
      passes the filter, and otherwise one passing row no other passing
      row sorts above. */
  lemma NewestOfOne<T(!new)>(s: seq<T>, keep: T -> bool, key: T -> int)
    ensures var page := NewestFirst(s, keep, key, 1);
      && (page == [] <==> forall x :: x in s ==> !keep(x))
      && (page != [] ==> |page| == 1 && page[0] in s && keep(page[0]))
      && (page != [] ==> forall x :: x in s && keep(x) ==> key(x) <= key(page[0]))
  {
    var f := Filter(s, keep);
    var page := NewestFirst(s, keep, key, 1);
    if f != [] {
      assert f[0] in f;
    }
    if page != [] {
      assert page == [page[0]];
      assert page[0] in page;
      forall x | x in s && keep(x) ensures key(x) <= key(page[0]) {
        assert x in f;
        if x != page[0] {
          assert multiset(page)[x] == 0;
          assert x in multiset(f) - multiset(page);
        }
      }
    }
  }

  /** Sequences with equal multisets have the same members. */
  lemma SameMembers<T>(a: seq<T>, b: seq<T>)
    requires multiset(a) == multiset(b)
    ensures forall x :: x in a <==> x in b
  {
    forall x ensures x in a <==> x in b {
      assert x in a <==> x in multiset(a);
      assert x in b <==> x in multiset(b);
    }
  }

  /** What a LIMIT keeps of a descending sequence: a descending prefix,
      with every row it cuts off no greater than every row it keeps. */
  lemma TakeOfSorted<T>(all: seq<T>, key: T -> int, limit: int)
    requires SortedDesc(all, key)
    ensures SortedDesc(Take(all, limit), key)
    ensures forall x :: x in Take(all, limit) ==> x in all
    ensures multiset(Take(all, limit)) <= multiset(all)
    ensures forall x, i :: x in multiset(all) - multiset(Take(all, limit)) && 0 <= i < |Take(all, limit)| ==>
      key(x) <= key(Take(all, limit)[i])
  {
    var r := Take(all, limit);
    var rest := all[|r|..];
    assert all == r + rest;
    assert multiset(all) == multiset(r) + multiset(rest);
    forall x, i | x in multiset(all) - multiset(r) && 0 <= i < |r|
      ensures key(x) <= key(r[i])
    {
      assert x in multiset(rest);
      var j :| 0 <= j < |rest| && rest[j] == x;
      assert all[|r| + j] == x && all[i] == r[i];
    }
    forall x | x in r ensures x in all {
      var j :| 0 <= j < |r| && r[j] == x;
      assert all[j] == x;
    }
  }
}
