/** A stable sort on a real-valued key. Python's `sorted`/`list.sort` (with or
    without `reverse=True`) is stable, and the model also uses this sort for
    SQL `ORDER BY`, keeping rows with equal keys in table order. Descending
    orders use the negated key. */
module Sorting {

  predicate SortedBy<T>(s: seq<T>, key: T -> real) {
    forall i, j :: 0 <= i < j < |s| ==> key(s[i]) <= key(s[j])
  }

  /** The elements of `s` whose key is `v`, in their order in `s`. */
  function KeyFilter<T>(s: seq<T>, key: T -> real, v: real): seq<T> {
    if |s| == 0 then []
    else (if key(s[0]) == v then [s[0]] else []) + KeyFilter(s[1..], key, v)
  }

  /** `r` orders the elements of `s` by key and keeps equal keys in their order in `s`. */
  ghost predicate IsStableSortOf<T>(r: seq<T>, s: seq<T>, key: T -> real) {
    SortedBy(r, key) && multiset(r) == multiset(s)
    && forall v :: KeyFilter(r, key, v) == KeyFilter(s, key, v)
  }

  /** Python's `s[:n]` for `n >= 0`. */
  function Take<T>(s: seq<T>, n: nat): (r: seq<T>)
    ensures |r| <= n && |r| <= |s|
    ensures |r| == if n < |s| then n else |s|
    ensures r == s[..|r|]
  {
    if n < |s| then s[..n] else s
  }

  /** Insert `x` after every element whose key is at most `key(x)`. */
  function Insert<T(==)>(x: T, s: seq<T>, key: T -> real): (r: seq<T>)
    ensures |r| == |s| + 1
    ensures multiset(r) == multiset(s) + multiset{x}
    ensures forall i :: 0 <= i < |r| ==> r[i] == x || r[i] in s
    ensures SortedBy(s, key) ==> SortedBy(r, key)
  {
    if |s| == 0 then [x]
    else if key(x) < key(s[0]) then [x] + s
    else
      var rest := Insert(x, s[1..], key);
      assert s == [s[0]] + s[1..];
      InsertBehindSorted(x, s, rest, key);
      [s[0]] + rest
  }

  /** Keeping the head in front of the insertion into the tail keeps order. */
  lemma InsertBehindSorted<T>(x: T, s: seq<T>, rest: seq<T>, key: T -> real)
    requires |s| > 0 && key(s[0]) <= key(x)
    requires forall i :: 0 <= i < |rest| ==> rest[i] == x || rest[i] in s[1..]
    requires SortedBy(s[1..], key) ==> SortedBy(rest, key)
    ensures SortedBy(s, key) ==> SortedBy([s[0]] + rest, key)
  {
    if SortedBy(s, key) {
      assert SortedBy(s[1..], key);
      var r := [s[0]] + rest;
      forall i, j | 0 <= i < j < |r|
        ensures key(r[i]) <= key(r[j])
      {
        if i == 0 && rest[j - 1] != x {
          var q :| 0 <= q < |s[1..]| && s[1..][q] == rest[j - 1];
          assert s[q + 1] == r[j];
        }
      }
    }
  }

  function SortBy<T(==)>(s: seq<T>, key: T -> real): (r: seq<T>)
    ensures |r| == |s|
    ensures multiset(r) == multiset(s)
    ensures SortedBy(r, key)
  {
    if |s| == 0 then []
    else
      var init := s[..|s| - 1];
      assert s == init + [s[|s| - 1]];
      Insert(s[|s| - 1], SortBy(init, key), key)
  }

  lemma {:induction false} KeyFilterAppend<T>(a: seq<T>, b: seq<T>, key: T -> real, v: real)
    ensures KeyFilter(a + b, key, v) == KeyFilter(a, key, v) + KeyFilter(b, key, v)
    decreases |a|
  {
    if |a| > 0 {
      assert (a + b)[1..] == a[1..] + b;
      KeyFilterAppend(a[1..], b, key, v);
    } else {
      assert a + b == b;
    }
  }

  lemma {:induction false} KeyFilterNone<T>(s: seq<T>, key: T -> real, v: real)
    requires forall i :: 0 <= i < |s| ==> key(s[i]) != v
    ensures KeyFilter(s, key, v) == []
    decreases |s|
  {
    if |s| > 0 {
      KeyFilterNone(s[1..], key, v);
    }
  }

  lemma KeyFilterCons<T>(x: T, s: seq<T>, key: T -> real, v: real)
    ensures KeyFilter([x] + s, key, v) == (if key(x) == v then [x] else []) + KeyFilter(s, key, v)
  {
    assert ([x] + s)[1..] == s;
  }

  lemma {:induction false} InsertKeyFilter<T>(x: T, s: seq<T>, key: T -> real, v: real)
    requires SortedBy(s, key)
    ensures KeyFilter(Insert(x, s, key), key, v)
         == KeyFilter(s, key, v) + (if key(x) == v then [x] else [])
    decreases |s|
  {
    if |s| == 0 {
      KeyFilterCons(x, [], key, v);
    } else if key(x) < key(s[0]) {
      InsertFrontKeyFilter(x, s, key, v);
    } else {
      var rest := Insert(x, s[1..], key);
      assert Insert(x, s, key) == [s[0]] + rest;
      assert SortedBy(s[1..], key);
      InsertKeyFilter(x, s[1..], key, v);
      InsertBehindKeyFilter(x, s, rest, key, v);
    }
  }

  /** Inserting in front of a sorted sequence whose keys are all larger. */
  lemma InsertFrontKeyFilter<T>(x: T, s: seq<T>, key: T -> real, v: real)
    requires SortedBy(s, key) && |s| > 0 && key(x) < key(s[0])
    ensures KeyFilter([x] + s, key, v) == KeyFilter(s, key, v) + (if key(x) == v then [x] else [])
  {
    KeyFilterCons(x, s, key, v);
    if key(x) == v {
      assert forall i :: 0 <= i < |s| ==> key(s[0]) <= key(s[i]);
      KeyFilterNone(s, key, v);
    }
  }

  /** Inserting behind the head, given the claim for the tail. */
  lemma InsertBehindKeyFilter<T>(x: T, s: seq<T>, rest: seq<T>, key: T -> real, v: real)
    requires |s| > 0
    requires KeyFilter(rest, key, v) == KeyFilter(s[1..], key, v) + (if key(x) == v then [x] else [])
    ensures KeyFilter([s[0]] + rest, key, v) == KeyFilter(s, key, v) + (if key(x) == v then [x] else [])
  {
    KeyFilterCons(s[0], rest, key, v);
    KeyFilterCons(s[0], s[1..], key, v);
    assert [s[0]] + s[1..] == s;
  }

  lemma {:induction false} SortByStable<T>(s: seq<T>, key: T -> real, v: real)
    ensures KeyFilter(SortBy(s, key), key, v) == KeyFilter(s, key, v)
    decreases |s|
  {
    if |s| > 0 {
      var init := s[..|s| - 1];
      var last := s[|s| - 1];
      assert s == init + [last];
      assert SortBy(s, key) == Insert(last, SortBy(init, key), key);
      SortByStable(init, key, v);
      InsertKeyFilter(last, SortBy(init, key), key, v);
      KeyFilterAppend(init, [last], key, v);
      KeyFilterCons(last, [], key, v);
      assert [last] + [] == [last];
    }
  }

  /** `SortBy` keeps exactly the elements it is given. */
  lemma SortByMembers<T>(s: seq<T>, key: T -> real)
    ensures forall x :: x in SortBy(s, key) <==> x in s
  {
    var r := SortBy(s, key);
    forall x
      ensures x in r <==> x in s
    {
      assert x in r <==> x in multiset(r);
      assert x in s <==> x in multiset(s);
    }
  }

  /** `SortBy` is a stable sort. */
  lemma SortByIsStableSort<T>(s: seq<T>, key: T -> real)
    ensures IsStableSortOf(SortBy(s, key), s, key)
  {
    forall v {
      SortByStable(s, key, v);
    }
  }

  /** Among elements with equal keys, `rank` increases along `s`. */
  predicate TiesRanked<T>(s: seq<T>, key: T -> real, rank: T -> int) {
    forall i, j :: 0 <= i < j < |s| && key(s[i]) == key(s[j]) ==> rank(s[i]) < rank(s[j])
  }

  predicate RankIncreasing<T>(s: seq<T>, rank: T -> int) {
    forall i, j :: 0 <= i < j < |s| ==> rank(s[i]) < rank(s[j])
  }

  lemma {:induction false} InsertTiesRanked<T>(x: T, s: seq<T>, key: T -> real, rank: T -> int)
    requires SortedBy(s, key) && TiesRanked(s, key, rank)
    requires forall i :: 0 <= i < |s| ==> rank(s[i]) < rank(x)
    ensures TiesRanked(Insert(x, s, key), key, rank)
    decreases |s|
  {
    if |s| == 0 {
    } else if key(x) < key(s[0]) {
      var r := [x] + s;
      assert forall j :: 0 <= j < |s| ==> key(s[0]) <= key(s[j]);
      assert forall j :: 1 <= j < |r| ==> r[j] == s[j - 1];
    } else {
      var rest := Insert(x, s[1..], key);
      assert SortedBy(s[1..], key) && TiesRanked(s[1..], key, rank);
      InsertTiesRanked(x, s[1..], key, rank);
      assert Insert(x, s, key) == [s[0]] + rest;
      HeadTiesRanked(x, s, rest, key, rank);
    }
  }

  /** The head keeps its rank order against the insertion into the tail. */
  lemma HeadTiesRanked<T>(x: T, s: seq<T>, rest: seq<T>, key: T -> real, rank: T -> int)
    requires |s| > 0 && TiesRanked(s, key, rank) && TiesRanked(rest, key, rank) && rank(s[0]) < rank(x)
    requires forall i :: 0 <= i < |rest| ==> rest[i] == x || rest[i] in s[1..]
    ensures TiesRanked([s[0]] + rest, key, rank)
  {
    var r := [s[0]] + rest;
    forall i, j | 0 <= i < j < |r| && key(r[i]) == key(r[j])
      ensures rank(r[i]) < rank(r[j])
    {
      if i == 0 {
        if rest[j - 1] != x {
          var q :| 0 <= q < |s[1..]| && s[1..][q] == rest[j - 1];
          assert s[q + 1] == r[j];
        }
      } else {
        assert r[i] == rest[i - 1] && r[j] == rest[j - 1];
      }
    }
  }

  /** Sorting a sequence whose ranks increase keeps equal keys in rank order. */
  lemma {:induction false} SortByTiesRanked<T>(s: seq<T>, key: T -> real, rank: T -> int)
    requires RankIncreasing(s, rank)
    ensures TiesRanked(SortBy(s, key), key, rank)
    decreases |s|
  {
    if |s| > 0 {
      var init := s[..|s| - 1];
      var last := s[|s| - 1];
      assert s == init + [last];
      RankPrefix(init, last, rank);
      SortByTiesRanked(init, key, rank);
      SortedBelow(init, last, key, rank);
      InsertTiesRanked(last, SortBy(init, key), key, rank);
      assert SortBy(s, key) == Insert(last, SortBy(init, key), key);
    }
  }

  /** Ranks increase along the prefix, and stay below the last one. */
  lemma RankPrefix<T>(init: seq<T>, last: T, rank: T -> int)
    requires RankIncreasing(init + [last], rank)
    ensures RankIncreasing(init, rank)
    ensures forall i :: 0 <= i < |init| ==> rank(init[i]) < rank(last)
  {
    var s := init + [last];
    assert forall i :: 0 <= i < |init| ==> init[i] == s[i];
    assert s[|init|] == last;
  }

  /** Sorting keeps every rank below that of `last`. */
  lemma SortedBelow<T>(init: seq<T>, last: T, key: T -> real, rank: T -> int)
    requires forall i :: 0 <= i < |init| ==> rank(init[i]) < rank(last)
    ensures forall i :: 0 <= i < |SortBy(init, key)| ==> rank(SortBy(init, key)[i]) < rank(last)
  {
    var t := SortBy(init, key);
    forall i | 0 <= i < |t|
      ensures rank(t[i]) < rank(last)
    {
      assert t[i] in multiset(init);
      var q :| 0 <= q < |init| && init[q] == t[i];
    }
  }

  lemma {:induction false} DistinctCount<T>(s: seq<T>, x: T)
    requires forall i, j :: 0 <= i < j < |s| ==> s[i] != s[j]
    ensures multiset(s)[x] <= 1
    decreases |s|
  {
    if |s| > 0 {
      assert s == [s[0]] + s[1..];
      DistinctCount(s[1..], x);
      if s[0] == x {
        assert x !in s[1..];
      }
    }
  }

  lemma RepeatCount<T>(r: seq<T>, i: nat, j: nat)
    requires i < j < |r| && r[i] == r[j]
    ensures multiset(r)[r[i]] >= 2
  {
    assert r == r[..j] + r[j..];
    assert r[..j][i] == r[i];
    assert r[j..][0] == r[i];
  }

  /** A permutation of a sequence with distinct labels has distinct labels. */
  lemma DistinctLabelsPermute<T, U>(r: seq<T>, s: seq<T>, lab: T -> U)
    requires multiset(r) == multiset(s)
    requires forall i, j :: 0 <= i < j < |s| ==> lab(s[i]) != lab(s[j])
    ensures forall i, j :: 0 <= i < j < |r| ==> lab(r[i]) != lab(r[j])
  {
    forall i, j | 0 <= i < j < |r|
      ensures lab(r[i]) != lab(r[j])
    {
      assert r[i] in multiset(s) && r[j] in multiset(s);
      var p :| 0 <= p < |s| && s[p] == r[i];
      var q :| 0 <= q < |s| && s[q] == r[j];
      if lab(r[i]) == lab(r[j]) {
        assert p == q;
        RepeatCount(r, i, j);
        DistinctCount(s, r[i]);
        assert false;
      }
    }
  }
}
