/** `Array.prototype.sort` with a numeric comparator `(a, b) => key(a) - key(b)`.
    ECMAScript requires this sort to be stable, so it is modelled as an
    insertion sort over integer keys: the output is ordered by key, is a
    permutation of the input, and keeps elements with equal keys in their
    input order. */
module StableSort {
  import opened Seqs

  predicate Sorted<T>(s: seq<T>, key: T -> int) {
    forall i, j :: 0 <= i < j < |s| ==> key(s[i]) <= key(s[j])
  }

  /** In a sorted sequence an element with a smaller key comes first. */
  lemma SmallerKeyFirst<T>(s: seq<T>, key: T -> int, i: int, j: int)
    requires Sorted(s, key) && 0 <= i < |s| && 0 <= j < |s|
    requires key(s[j]) < key(s[i])
    ensures j < i
  {
  }

  /** The elements of `s` whose key is `k`, in order. Stability is stated
      with it: for every key, sorting leaves this subsequence unchanged. */
  function KeyFilter<T>(s: seq<T>, key: T -> int, k: int): seq<T> {
    if |s| == 0 then []
    else (if key(s[0]) == k then [s[0]] else []) + KeyFilter(s[1..], key, k)
  }

  /** Inserts `x` in front of the first element whose key is not smaller. */
  function Insert<T>(x: T, s: seq<T>, key: T -> int): (r: seq<T>)
    ensures |r| == |s| + 1
    ensures multiset(r) == multiset(s) + multiset{x}
    ensures r[0] == x || (|s| > 0 && r[0] == s[0])
  {
    if |s| == 0 || key(x) <= key(s[0]) then
      [x] + s
    else
      assert s == [s[0]] + s[1..];
      [s[0]] + Insert(x, s[1..], key)
  }

  /** Insertion into an ordered sequence keeps it ordered. */
  lemma {:induction false} InsertSorted<T>(x: T, s: seq<T>, key: T -> int)
    requires Sorted(s, key)
    ensures Sorted(Insert(x, s, key), key)
  {
    if |s| > 0 && key(x) <= key(s[0]) {
      SortedCons(x, s, key);
    } else if |s| > 0 {
      var t := Insert(x, s[1..], key);
      assert Sorted(s[1..], key);
      InsertSorted(x, s[1..], key);
      assert key(s[0]) <= key(t[0]);
      SortedCons(s[0], t, key);
    }
  }

  /** An element no larger than the head of an ordered sequence can go in
      front of it. */
  lemma SortedCons<T>(x: T, t: seq<T>, key: T -> int)
    requires Sorted(t, key) && |t| > 0 && key(x) <= key(t[0])
    ensures Sorted([x] + t, key)
  {
    var r := [x] + t;
    forall i, j | 0 <= i < j < |r|
      ensures key(r[i]) <= key(r[j])
    {
      if i > 0 {
        assert r[i] == t[i - 1] && r[j] == t[j - 1];
      } else {
        assert r[j] == t[j - 1];
      }
    }
  }

  function Sort<T>(s: seq<T>, key: T -> int): (r: seq<T>)
    ensures |r| == |s|
    ensures multiset(r) == multiset(s)
    ensures Sorted(r, key)
  {
    if |s| == 0 then []
    else
      var t := Sort(s[1..], key);
      assert s == [s[0]] + s[1..];
      InsertSorted(s[0], t, key);
      Insert(s[0], t, key)
  }

  /** Insertion puts `x` in front of every element with the same key. */
  lemma {:induction false} InsertKeyFilter<T>(x: T, s: seq<T>, key: T -> int, k: int)
    ensures KeyFilter(Insert(x, s, key), key, k) == (if key(x) == k then [x] else []) + KeyFilter(s, key, k)
  {
    if |s| == 0 || key(x) <= key(s[0]) {
      KeyFilterCons(x, s, key, k);
    } else {
      var t := Insert(x, s[1..], key);
      assert Insert(x, s, key) == [s[0]] + t;
      assert s == [s[0]] + s[1..];
      KeyFilterCons(s[0], t, key, k);
      KeyFilterCons(s[0], s[1..], key, k);
      InsertKeyFilter(x, s[1..], key, k);
      SwapEmpty(if key(s[0]) == k then [s[0]] else [], if key(x) == k then [x] else [], KeyFilter(s[1..], key, k));
    }
  }

  lemma KeyFilterCons<T>(a: T, t: seq<T>, key: T -> int, k: int)
    ensures KeyFilter([a] + t, key, k) == (if key(a) == k then [a] else []) + KeyFilter(t, key, k)
  {
    assert ([a] + t)[0] == a && ([a] + t)[1..] == t;
  }

  lemma SwapEmpty<T>(a: seq<T>, b: seq<T>, c: seq<T>)
    requires a == [] || b == []
    ensures a + (b + c) == b + (a + c)
  {
    if a == [] {
      assert a + (b + c) == b + c && a + c == c;
    } else {
      assert b + c == c && b + (a + c) == a + c;
    }
  }

  /** Stability: for every key, the elements carrying it keep their input
      order. */
  lemma {:induction false} SortStable<T>(s: seq<T>, key: T -> int, k: int)
    ensures KeyFilter(Sort(s, key), key, k) == KeyFilter(s, key, k)
  {
    if |s| > 0 {
      SortStable(s[1..], key, k);
      InsertKeyFilter(s[0], Sort(s[1..], key), key, k);
    }
  }

  lemma SortStableAll<T>(s: seq<T>, key: T -> int)
    ensures forall k :: KeyFilter(Sort(s, key), key, k) == KeyFilter(s, key, k)
  {
    forall k
      ensures KeyFilter(Sort(s, key), key, k) == KeyFilter(s, key, k)
    {
      SortStable(s, key, k);
    }
  }

  /** Sorting an already ordered sequence changes nothing; in particular
      sorting is idempotent. */
  lemma {:induction false} SortOfSorted<T>(s: seq<T>, key: T -> int)
    requires Sorted(s, key)
    ensures Sort(s, key) == s
  {
    if |s| > 0 {
      SortOfSorted(s[1..], key);
      assert s == [s[0]] + s[1..];
    }
  }

  /** A permutation cannot create two elements with the same projection:
      if `proj` tells the elements of `s` apart, it tells those of `Sort(s)`
      apart too, and both have the same projected values. Projections are
      the string keys of association lists. */
  lemma {:induction false} SortKeepsDistinct<T>(s: seq<T>, key: T -> int, proj: T -> string)
    requires Distinct(Project(s, proj))
    ensures Distinct(Project(Sort(s, key), proj))
    ensures forall y :: y in Project(Sort(s, key), proj) <==> y in Project(s, proj)
  {
    if |s| > 0 {
      var tail := Sort(s[1..], key);
      assert Project(s[1..], proj) == Project(s, proj)[1..];
      SortKeepsDistinct(s[1..], key, proj);
      assert Project(s, proj) == [proj(s[0])] + Project(s[1..], proj);
      DistinctCons(proj(s[0]), Project(s[1..], proj));
      assert proj(s[0]) !in Project(tail, proj);
      InsertKeepsDistinct(s[0], tail, key, proj);
      forall y
        ensures y in Project(Sort(s, key), proj) <==> y in Project(s, proj)
      {
        assert Project(s, proj) == [proj(s[0])] + Project(s[1..], proj);
      }
    }
  }

  lemma {:induction false} InsertKeepsDistinct<T>(x: T, s: seq<T>, key: T -> int, proj: T -> string)
    requires Distinct(Project(s, proj)) && proj(x) !in Project(s, proj)
    ensures Distinct(Project(Insert(x, s, key), proj))
    ensures forall y :: y in Project(Insert(x, s, key), proj) <==> y == proj(x) || y in Project(s, proj)
  {
    if |s| == 0 || key(x) <= key(s[0]) {
      ProjectCons(x, s, proj);
      DistinctCons(proj(x), Project(s, proj));
    } else {
      var rest := Insert(x, s[1..], key);
      ProjectCons(s[0], s[1..], proj);
      assert s == [s[0]] + s[1..];
      DistinctCons(proj(s[0]), Project(s[1..], proj));
      InsertKeepsDistinct(x, s[1..], key, proj);
      ProjectCons(s[0], rest, proj);
      DistinctCons(proj(s[0]), Project(rest, proj));
    }
  }

  /** `x` occurs before `y` in `s`. */
  ghost predicate Before<T>(s: seq<T>, x: T, y: T) {
    exists p, q :: 0 <= p < q < |s| && s[p] == x && s[q] == y
  }

  /** The key filter holds exactly the elements with that key. */
  lemma {:induction false} KeyFilterMember<T>(t: seq<T>, key: T -> int, k: int, x: T)
    ensures x in KeyFilter(t, key, k) <==> x in t && key(x) == k
  {
    if |t| > 0 {
      KeyFilterMember(t[1..], key, k, x);
      assert t == [t[0]] + t[1..];
    }
  }

  /** Two elements with the key, in this order in `t`, keep their order in
      the key filter. */
  lemma {:induction false} KeyFilterKeepsOrder<T>(t: seq<T>, key: T -> int, k: int, i: int, j: int)
    requires 0 <= i < j < |t| && key(t[i]) == k && key(t[j]) == k
    ensures Before(KeyFilter(t, key, k), t[i], t[j])
  {
    var rest := KeyFilter(t[1..], key, k);
    if i == 0 {
      assert t[j] == t[1..][j - 1];
      KeyFilterMember(t[1..], key, k, t[j]);
      var b :| 0 <= b < |rest| && rest[b] == t[j];
      assert KeyFilter(t, key, k) == [t[0]] + rest;
      assert KeyFilter(t, key, k)[0] == t[i] && KeyFilter(t, key, k)[b + 1] == t[j];
    } else {
      assert t[i] == t[1..][i - 1] && t[j] == t[1..][j - 1];
      KeyFilterKeepsOrder(t[1..], key, k, i - 1, j - 1);
      var a, b :| 0 <= a < b < |rest| && rest[a] == t[i] && rest[b] == t[j];
      var pre := if key(t[0]) == k then [t[0]] else [];
      assert KeyFilter(t, key, k) == pre + rest;
      assert (pre + rest)[a + |pre|] == t[i] && (pre + rest)[b + |pre|] == t[j];
    }
  }

  /** Order in the key filter is order in the sequence. */
  lemma {:induction false} KeyFilterOrderSource<T>(t: seq<T>, key: T -> int, k: int, x: T, y: T)
    requires Before(KeyFilter(t, key, k), x, y)
    ensures Before(t, x, y)
  {
    var f := KeyFilter(t, key, k);
    var rest := KeyFilter(t[1..], key, k);
    var pre := if key(t[0]) == k then [t[0]] else [];
    assert f == pre + rest;
    var a, b :| 0 <= a < b < |f| && f[a] == x && f[b] == y;
    if |pre| == 1 && a == 0 {
      assert y == rest[b - 1];
      KeyFilterMember(t[1..], key, k, y);
      var q :| 0 <= q < |t| - 1 && t[1..][q] == y;
      assert t[0] == x && t[q + 1] == y;
    } else {
      assert rest[a - |pre|] == x && rest[b - |pre|] == y;
      KeyFilterOrderSource(t[1..], key, k, x, y);
      var p, q :| 0 <= p < q < |t| - 1 && t[1..][p] == x && t[1..][q] == y;
      assert t[p + 1] == x && t[q + 1] == y;
    }
  }

  /** Stability by position: two elements with equal keys leave the sort in
      the order they had in its input. */
  lemma SortKeepsTieOrder<T>(s: seq<T>, key: T -> int, i: int, j: int)
    requires 0 <= i < j < |Sort(s, key)|
    requires key(Sort(s, key)[i]) == key(Sort(s, key)[j])
    ensures Before(s, Sort(s, key)[i], Sort(s, key)[j])
  {
    var r := Sort(s, key);
    var k := key(r[i]);
    KeyFilterKeepsOrder(r, key, k, i, j);
    SortStable(s, key, k);
    KeyFilterOrderSource(s, key, k, r[i], r[j]);
  }
}
