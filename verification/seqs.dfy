/** Sequence helpers shared by the components: `Array.prototype.filter` and
    `map`, duplicate-freedom, and first-occurrence de-duplication (the key
    order of a JavaScript `Map` filled by repeated `set`). */
module Seqs {

  /** Keeps, in order, the elements satisfying `p` (`Array.prototype.filter`). */
  function Filter<T>(s: seq<T>, p: T -> bool): (r: seq<T>)
    ensures |r| <= |s|
    ensures forall i :: 0 <= i < |r| ==> r[i] in s && p(r[i])
    ensures forall i :: 0 <= i < |s| && p(s[i]) ==> s[i] in r
    ensures (forall i :: 0 <= i < |s| ==> p(s[i])) ==> r == s
  {
    if |s| == 0 then []
    else (if p(s[0]) then [s[0]] else []) + Filter(s[1..], p)
  }

  /** Filtering distributes over concatenation: what `Filter` keeps of one
      element does not depend on its neighbours. */
  lemma {:induction false} FilterConcat<T>(a: seq<T>, b: seq<T>, p: T -> bool)
    ensures Filter(a + b, p) == Filter(a, p) + Filter(b, p)
  {
    if |a| == 0 {
      assert a + b == b;
    } else {
      assert (a + b)[0] == a[0];
      assert (a + b)[1..] == a[1..] + b;
      FilterConcat(a[1..], b, p);
    }
  }

  /** `Array.prototype.map` with a total function. */
  function Project<T, U>(s: seq<T>, f: T -> U): (r: seq<U>)
    ensures |r| == |s|
    ensures forall i :: 0 <= i < |s| ==> r[i] == f(s[i])
  {
    if |s| == 0 then [] else [f(s[0])] + Project(s[1..], f)
  }

  lemma ProjectCons<T, U>(x: T, s: seq<T>, f: T -> U)
    ensures Project([x] + s, f) == [f(x)] + Project(s, f)
  {
    assert ([x] + s)[1..] == s;
  }

  lemma {:induction false} ProjectSnoc<T, U>(s: seq<T>, x: T, f: T -> U)
    ensures Project(s + [x], f) == Project(s, f) + [f(x)]
  {
    if |s| > 0 {
      assert (s + [x])[1..] == s[1..] + [x];
      ProjectSnoc(s[1..], x, f);
    } else {
      assert s + [x] == [x];
    }
  }

  /** The position of the first occurrence of `x`, or `|s|` when there is
      none (`Array.prototype.findIndex`, with `|s|` for `-1`). */
  function FirstIndex<T(==)>(s: seq<T>, x: T): (r: nat)
    ensures r <= |s|
    ensures r < |s| ==> s[r] == x
    ensures forall j :: 0 <= j < r ==> s[j] != x
  {
    if |s| == 0 || s[0] == x then 0 else 1 + FirstIndex(s[1..], x)
  }

  predicate Distinct<T(==)>(s: seq<T>) {
    forall i, j :: 0 <= i < j < |s| ==> s[i] != s[j]
  }

  lemma DistinctCons<K>(a: K, t: seq<K>)
    ensures Distinct([a] + t) <==> a !in t && Distinct(t)
  {
    var s := [a] + t;
    if a !in t && Distinct(t) {
      forall i, j | 0 <= i < j < |s|
        ensures s[i] != s[j]
      {
        if i > 0 {
          assert s[i] == t[i - 1] && s[j] == t[j - 1];
        } else {
          assert s[j] == t[j - 1];
        }
      }
    }
    if Distinct(s) {
      forall i, j | 0 <= i < j < |t|
        ensures t[i] != t[j]
      {
        assert t[i] == s[i + 1] && t[j] == s[j + 1];
      }
      forall j | 0 <= j < |t|
        ensures t[j] != a
      {
        assert t[j] == s[j + 1] && a == s[0];
      }
    }
  }

  lemma DistinctSnoc<K>(t: seq<K>, a: K)
    requires Distinct(t) && a !in t
    ensures Distinct(t + [a])
  {
  }

  /** The distinct elements of `s` in order of first occurrence. */
  function Dedup<T(==)>(s: seq<T>): (r: seq<T>)
    ensures Distinct(r)
    ensures forall i :: 0 <= i < |r| ==> r[i] in s
    ensures forall i :: 0 <= i < |s| ==> s[i] in r
    ensures |r| <= |s|
  {
    if |s| == 0 then []
    else
      var d := Dedup(s[..|s| - 1]);
      if s[|s| - 1] in d then d else d + [s[|s| - 1]]
  }

  /** De-duplicating one more element appends it when it is new. */
  lemma DedupSnoc<T>(s: seq<T>, x: T)
    ensures Dedup(s + [x]) == if x in Dedup(s) then Dedup(s) else Dedup(s) + [x]
  {
    var t := s + [x];
    assert t[..|t| - 1] == s && t[|t| - 1] == x;
  }

  /** De-duplication keeps exactly the elements of the input. */
  lemma DedupSameElements<T>(s: seq<T>)
    ensures forall x :: x in Dedup(s) <==> x in s
  {
    var d := Dedup(s);
    forall x | x in d
      ensures x in s
    {
      var i :| 0 <= i < |d| && d[i] == x;
    }
    forall x | x in s
      ensures x in d
    {
      var i :| 0 <= i < |s| && s[i] == x;
    }
  }
  /** Appending an element does not move the first occurrence of an
      element already present. */
  lemma {:induction false} FirstIndexSnoc<T>(s: seq<T>, y: T, x: T)
    requires x in s
    ensures FirstIndex(s + [y], x) == FirstIndex(s, x)
  {
    if s[0] != x {
      assert (s + [y])[1..] == s[1..] + [y];
      FirstIndexSnoc(s[1..], y, x);
    }
  }

  /** An element not yet present first occurs where it is appended. */
  lemma {:induction false} FirstIndexOfNew<T>(s: seq<T>, y: T)
    requires y !in s
    ensures FirstIndex(s + [y], y) == |s|
  {
    if |s| > 0 {
      assert (s + [y])[1..] == s[1..] + [y];
      FirstIndexOfNew(s[1..], y);
    }
  }

  /** De-duplication lists the elements in the order of their first
      occurrence. */
  lemma {:induction false} DedupOrder<T>(s: seq<T>, p: int, q: int)
    requires 0 <= p < q < |Dedup(s)|
    ensures FirstIndex(s, Dedup(s)[p]) < FirstIndex(s, Dedup(s)[q])
  {
    var init := s[..|s| - 1];
    var last := s[|s| - 1];
    var d := Dedup(init);
    assert s == init + [last];
    var x := Dedup(s)[p];
    assert x == d[p] && x in init;
    FirstIndexSnoc(init, last, x);
    if q < |d| {
      var y := Dedup(s)[q];
      assert y == d[q] && y in init;
      FirstIndexSnoc(init, last, y);
      DedupOrder(init, p, q);
    } else {
      assert last !in init;
      FirstIndexOfNew(init, last);
    }
  }
}
