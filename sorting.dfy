/** The library sorts the system calls: JavaScript's `Array.prototype.sort`
    with a comparator and Python's `list.sort(key=...)`. Both are stable, so
    both are specified here by one stable insertion sort over a total
    preorder `le` ("a sorts no later than b"): its result is ordered, is a
    permutation of its input, and keeps the input order among elements that
    compare equal. */
module Sorting {

  /** `le` is a total preorder: any two elements compare, and comparison chains. */
  ghost predicate TotalPreorder<T(!new)>(le: (T, T) -> bool) {
    && (forall a, b :: le(a, b) || le(b, a))
    && (forall a, b, c :: le(a, b) && le(b, c) ==> le(a, c))
  }

  ghost predicate Sorted<T>(s: seq<T>, le: (T, T) -> bool) {
    forall i, j :: 0 <= i < j < |s| ==> le(s[i], s[j])
  }

  /** `x` placed after every element of sorted `s` that sorts no later than it. */
  function Insert<T>(x: T, s: seq<T>, le: (T, T) -> bool): (r: seq<T>)
    ensures |r| == |s| + 1
  {
    if s == [] || !le(s[0], x) then [x] + s else [s[0]] + Insert(x, s[1..], le)
  }

  /** The stable sort of `s` by `le`: each element in turn inserted into the
      sorted prefix before it. */
  function SortBy<T>(s: seq<T>, le: (T, T) -> bool): (r: seq<T>)
    ensures |r| == |s|
  {
    if s == [] then [] else Insert(s[|s| - 1], SortBy(s[..|s| - 1], le), le)
  }

  /** The elements of `s` that compare equal to `x`, in their order in `s`. */
  function Peers<T>(s: seq<T>, x: T, le: (T, T) -> bool): seq<T> {
    if s == [] then []
    else (if le(s[0], x) && le(x, s[0]) then [s[0]] else []) + Peers(s[1..], x, le)
  }

  lemma {:induction false} InsertElements<T>(x: T, s: seq<T>, le: (T, T) -> bool)
    ensures multiset(Insert(x, s, le)) == multiset(s) + multiset{x}
  {
    if s != [] && le(s[0], x) {
      InsertElements(x, s[1..], le);
      assert s == [s[0]] + s[1..];
    }
  }

  lemma {:induction false} InsertSorted<T(!new)>(x: T, s: seq<T>, le: (T, T) -> bool)
    requires TotalPreorder(le) && Sorted(s, le)
    ensures Sorted(Insert(x, s, le), le)
  {
    var r := Insert(x, s, le);
    if s == [] {
    } else if !le(s[0], x) {
      assert le(x, s[0]);
      forall i, j | 0 <= i < j < |r|
        ensures le(r[i], r[j])
      {
        if i == 0 {
          assert le(s[0], s[j - 1]) || j == 1;
        }
      }
    } else {
      var t := Insert(x, s[1..], le);
      InsertSorted(x, s[1..], le);
      InsertElements(x, s[1..], le);
      forall k | 0 <= k < |t|
        ensures le(s[0], t[k])
      {
        assert t[k] in multiset(t);
        if t[k] != x {
          var m :| 1 <= m < |s| && s[m] == t[k] by {
            assert t[k] in multiset(s[1..]);
            var m' :| 0 <= m' < |s[1..]| && s[1..][m'] == t[k];
            assert s[m' + 1] == t[k];
          }
        }
      }
      assert r == [s[0]] + t;
    }
  }

  /** The sort orders its result. */
  lemma {:induction false} SortBySorted<T(!new)>(s: seq<T>, le: (T, T) -> bool)
    requires TotalPreorder(le)
    ensures Sorted(SortBy(s, le), le)
  {
    if s != [] {
      SortBySorted(s[..|s| - 1], le);
      InsertSorted(s[|s| - 1], SortBy(s[..|s| - 1], le), le);
    }
  }

  /** The sort neither loses nor adds nor duplicates an element. */
  lemma {:induction false} SortByPermutation<T>(s: seq<T>, le: (T, T) -> bool)
    ensures multiset(SortBy(s, le)) == multiset(s)
  {
    if s != [] {
      SortByPermutation(s[..|s| - 1], le);
      InsertElements(s[|s| - 1], SortBy(s[..|s| - 1], le), le);
      assert s == s[..|s| - 1] + [s[|s| - 1]];
    }
  }

  lemma {:induction false} PeersAppend<T>(a: seq<T>, b: seq<T>, x: T, le: (T, T) -> bool)
    ensures Peers(a + b, x, le) == Peers(a, x, le) + Peers(b, x, le)
  {
    if a == [] {
      assert a + b == b;
    } else {
      assert (a + b)[0] == a[0] && (a + b)[1..] == a[1..] + b;
      PeersAppend(a[1..], b, x, le);
      assert Peers(a + b, x, le)
          == (if le(a[0], x) && le(x, a[0]) then [a[0]] else []) + (Peers(a[1..], x, le) + Peers(b, x, le));
    }
  }

  /** Inserting `y` into a sorted sequence appends it to its own peers and
      leaves every other class of peers alone. */
  lemma {:induction false} InsertPeers<T(!new)>(y: T, s: seq<T>, x: T, le: (T, T) -> bool)
    requires TotalPreorder(le) && Sorted(s, le)
    ensures Peers(Insert(y, s, le), x, le)
         == Peers(s, x, le) + (if le(y, x) && le(x, y) then [y] else [])
  {
    if s == [] {
    } else if !le(s[0], y) {
      // everything in s sorts strictly after y, so none of it is a peer of y
      PeersAfter(y, s, x, le);
      assert Insert(y, s, le) == [y] + s;
    } else {
      forall i, j | 0 <= i < j < |s[1..]|
        ensures le(s[1..][i], s[1..][j])
      {
        assert s[1..][i] == s[i + 1] && s[1..][j] == s[j + 1];
      }
      InsertPeers(y, s[1..], x, le);
    }
  }

  /** When every element of sorted `s` sorts strictly after `y`, a peer of `y`
      has no peer in `s`. */
  lemma PeersAfter<T(!new)>(y: T, s: seq<T>, x: T, le: (T, T) -> bool)
    requires TotalPreorder(le) && Sorted(s, le)
    requires s != [] && !le(s[0], y)
    ensures le(y, x) && le(x, y) ==> Peers(s, x, le) == []
  {
    if le(y, x) && le(x, y) {
      forall k | 0 <= k < |s|
        ensures !le(s[k], y)
      {
        assert k == 0 || le(s[0], s[k]);
      }
      NoPeers(s, x, le, y);
    }
  }

  lemma {:induction false} NoPeers<T(!new)>(s: seq<T>, x: T, le: (T, T) -> bool, y: T)
    requires TotalPreorder(le)
    requires le(x, y) && forall k :: 0 <= k < |s| ==> !le(s[k], y)
    ensures Peers(s, x, le) == []
  {
    if s != [] {
      assert !le(s[0], y);
      NoPeers(s[1..], x, le, y);
    }
  }

  /** Stability: among elements that compare equal, the sort keeps the input order. */
  lemma {:induction false} SortByStable<T(!new)>(s: seq<T>, x: T, le: (T, T) -> bool)
    requires TotalPreorder(le)
    ensures Peers(SortBy(s, le), x, le) == Peers(s, x, le)
  {
    if s != [] {
      var p := s[..|s| - 1];
      var y := s[|s| - 1];
      SortByStable(p, x, le);
      SortBySorted(p, le);
      InsertPeers(y, SortBy(p, le), x, le);
      assert s == p + [y];
      PeersAppend(p, [y], x, le);
    }
  }

  /** No value occurs twice. */
  predicate NoDuplicates<T(==)>(s: seq<T>) {
    forall i, j :: 0 <= i < j < |s| ==> s[i] != s[j]
  }

  /** Reordering a list without duplicates keeps its values and leaves no duplicates. */
  lemma PermutationKeepsDistinct<T>(d: seq<T>, r: seq<T>)
    requires NoDuplicates(d) && multiset(r) == multiset(d)
    ensures NoDuplicates(r)
    ensures forall x :: x in r <==> x in d
  {
    forall x
      ensures x in r <==> x in d
    {
      assert x in r <==> x in multiset(r);
      assert x in d <==> x in multiset(d);
    }
    forall i, j | 0 <= i < j < |r|
      ensures r[i] != r[j]
    {
      if r[i] == r[j] {
        Twice(r, i, j);
        Once(d, r[i]);
      }
    }
  }

  /** A value at two places of a list occurs at least twice in it. */
  lemma Twice<T>(s: seq<T>, i: nat, j: nat)
    requires i < j < |s| && s[i] == s[j]
    ensures multiset(s)[s[i]] >= 2
  {
    assert s == s[..j] + [s[j]] + s[j + 1..];
    assert s[i] in s[..j];
  }

  /** A list without duplicates holds each value at most once. */
  lemma {:induction false} Once<T>(s: seq<T>, x: T)
    requires NoDuplicates(s)
    ensures multiset(s)[x] <= 1
  {
    if s != [] {
      var p := s[..|s| - 1];
      assert NoDuplicates(p);
      Once(p, x);
      assert s == p + [s[|s| - 1]];
      if s[|s| - 1] == x {
        assert x !in p;
      }
    }
  }
}
