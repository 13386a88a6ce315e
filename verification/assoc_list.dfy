/** A JavaScript `Map` with string keys, modelled as the sequence of its
    entries in insertion order, since `Map.prototype.entries` yields them in
    that order and the components rely on it to break ties. */
module AssocList {
  import opened Optional
  import opened Seqs

  function KeyOf<V>(e: (string, V)): string {
    e.0
  }

  /** The keys in insertion order (`Array.from(m.keys())`). */
  function Keys<V>(m: seq<(string, V)>): seq<string> {
    Project(m, KeyOf)
  }

  /** `Map.prototype.get`: the value of the first entry with key `k`. */
  function Get<V>(m: seq<(string, V)>, k: string): (r: Option<V>)
    ensures r.Some? <==> k in Keys(m)
    ensures r.Some? ==> (k, r.value) in m
  {
    if |m| == 0 then None
    else if m[0].0 == k then Some(m[0].1)
    else Get(m[1..], k)
  }

  /** `Map.prototype.set`: an existing key keeps its position and takes the
      new value; a new key is appended. */
  function Put<V>(m: seq<(string, V)>, k: string, v: V): (r: seq<(string, V)>)
    ensures Keys(r) == if k in Keys(m) then Keys(m) else Keys(m) + [k]
  {
    if |m| == 0 then [(k, v)]
    else if m[0].0 == k then
      ProjectCons(m[0], m[1..], KeyOf);
      ProjectCons((k, v), m[1..], KeyOf);
      assert m == [m[0]] + m[1..];
      [(k, v)] + m[1..]
    else
      var rest := Put(m[1..], k, v);
      ProjectCons(m[0], m[1..], KeyOf);
      ProjectCons(m[0], rest, KeyOf);
      assert m == [m[0]] + m[1..];
      [m[0]] + rest
  }

  /** Setting a key keeps the keys distinct. */
  lemma PutDistinct<V>(m: seq<(string, V)>, k: string, v: V)
    requires Distinct(Keys(m))
    ensures Distinct(Keys(Put(m, k, v)))
  {
    if k !in Keys(m) {
      DistinctSnoc(Keys(m), k);
    }
  }

  /** After `set(k, v)`, `get(k)` yields `v` and every other key reads as
      before. */
  lemma {:induction false} PutGet<V>(m: seq<(string, V)>, k: string, v: V, k': string)
    ensures Get(Put(m, k, v), k') == if k' == k then Some(v) else Get(m, k')
  {
    if |m| > 0 {
      if m[0].0 == k {
        assert ([(k, v)] + m[1..])[1..] == m[1..];
      } else {
        var rest := Put(m[1..], k, v);
        assert ([m[0]] + rest)[1..] == rest;
        PutGet(m[1..], k, v, k');
      }
    }
  }

  /** With distinct keys every entry is what `get` returns for its key. */
  lemma {:induction false} GetOfEntry<V>(m: seq<(string, V)>, e: (string, V))
    requires Distinct(Keys(m)) && e in m
    ensures Get(m, e.0) == Some(e.1)
  {
    ProjectCons(m[0], m[1..], KeyOf);
    assert m == [m[0]] + m[1..];
    DistinctCons(m[0].0, Keys(m[1..]));
    if m[0] != e {
      assert e in m[1..];
      assert e.0 in Keys(m[1..]) by {
        var i :| 0 <= i < |m| - 1 && m[1..][i] == e;
        assert Keys(m[1..])[i] == e.0;
      }
      GetOfEntry(m[1..], e);
    }
  }
}
