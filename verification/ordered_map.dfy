/**
 * Insertion-ordered maps, the model of Java's `LinkedHashMap`: a sequence of
 * key/value pairs whose keys are distinct. Re-putting an existing key
 * replaces its value in place, so the key order only ever grows at the end.
 */
module OrderedMap {
  import opened Wrappers

  predicate DistinctKeys<K(==), V>(m: seq<(K, V)>) {
    forall i, j | 0 <= i < j < |m| :: m[i].0 != m[j].0
  }

  /** A pair whose key is new in front of a map with distinct keys keeps the keys distinct. */
  lemma DistinctCons<K, V>(x: (K, V), t: seq<(K, V)>)
    requires DistinctKeys(t)
    requires forall j | 0 <= j < |t| :: x.0 != t[j].0
    ensures DistinctKeys([x] + t)
  {
    var r := [x] + t;
    forall i, j | 0 <= i < j < |r| ensures r[i].0 != r[j].0 {
      assert r[j] == t[j - 1];
      if i > 0 {
        assert r[i] == t[i - 1];
      }
    }
  }

  predicate HasKey<K(==), V>(m: seq<(K, V)>, k: K) {
    exists i | 0 <= i < |m| :: m[i].0 == k
  }

  /** The keys in iteration order. */
  function Keys<K, V>(m: seq<(K, V)>): (ks: seq<K>)
    ensures |ks| == |m| && forall i | 0 <= i < |m| :: ks[i] == m[i].0
  {
    seq(|m|, i requires 0 <= i < |m| => m[i].0)
  }

  /** A key is in the key sequence exactly when some pair holds it. */
  lemma InKeys<K, V>(m: seq<(K, V)>, k: K)
    ensures k in Keys(m) <==> HasKey(m, k)
  {
    if k in Keys(m) {
      var i :| 0 <= i < |m| && Keys(m)[i] == k;
      assert m[i].0 == k;
    }
  }

  /** Position of key `k`, or -1 when it is absent. */
  function Find<K(==), V>(m: seq<(K, V)>, k: K): (r: int)
    ensures -1 <= r < |m|
    ensures r == -1 <==> !HasKey(m, k)
    ensures 0 <= r ==> m[r].0 == k && forall i | 0 <= i < r :: m[i].0 != k
  {
    if |m| == 0 then -1
    else if m[0].0 == k then 0
    else
      var i := Find(m[1..], k);
      if i == -1 then
        assert forall j | 1 <= j < |m| :: m[j] == m[1..][j - 1];
        -1
      else i + 1
  }

  /** `map.get(k)`: `None` stands for Java's null. */
  function Get<K(==), V>(m: seq<(K, V)>, k: K): (r: Option<V>)
    ensures r.Some? <==> HasKey(m, k)
    ensures DistinctKeys(m) ==> forall i | 0 <= i < |m| && m[i].0 == k :: r == Some(m[i].1)
  {
    var i := Find(m, k);
    if i == -1 then None else Some(m[i].1)
  }

  /** With distinct keys, a pair is stored exactly when `Get` returns its value. */
  lemma GetIffMember<K, V>(m: seq<(K, V)>, k: K, v: V)
    requires DistinctKeys(m)
    ensures Get(m, k) == Some(v) <==> (k, v) in m
  {
    if (k, v) in m {
      var i :| 0 <= i < |m| && m[i] == (k, v);
      assert m[i].0 == k;
    }
  }

  /** The first position holding `k` is the one `Find` returns. */
  lemma FindIs<K, V>(m: seq<(K, V)>, k: K, p: int)
    requires 0 <= p < |m| && m[p].0 == k
    requires forall i | 0 <= i < p :: m[i].0 != k
    ensures Find(m, k) == p
  {
    assert HasKey(m, k);
  }

  /**
   * `map.put(k, v)`: a known key keeps its position and gets the new value;
   * an unknown key is appended.
   */
  function Put<K(==,!new), V>(m: seq<(K, V)>, k: K, v: V): (r: seq<(K, V)>)
    ensures Keys(r) == if HasKey(m, k) then Keys(m) else Keys(m) + [k]
    ensures Get(r, k) == Some(v)
    ensures forall k' | k' != k :: Get(r, k') == Get(m, k')
    ensures DistinctKeys(m) ==> DistinctKeys(r)
  {
    var i := Find(m, k);
    if i == -1 then
      var r := m + [(k, v)];
      FindIs(r, k, |m|);
      PutFrame(m, r, k);
      r
    else
      var r := m[i := (k, v)];
      FindIs(r, k, i);
      PutFrame(m, r, k);
      r
  }

  /** Where a put writes: in place at the key's position, or at the end. */
  lemma PutShape<K(!new), V>(m: seq<(K, V)>, k: K, v: V)
    ensures Find(m, k) >= 0 ==> Put(m, k, v) == m[Find(m, k) := (k, v)]
    ensures Find(m, k) == -1 ==> Put(m, k, v) == m + [(k, v)]
  {
  }

  /** Lookups of other keys see the same positions after a put of `k`. */
  lemma PutFrame<K(!new), V>(m: seq<(K, V)>, r: seq<(K, V)>, k: K)
    requires |m| <= |r| && forall i | 0 <= i < |m| :: r[i] == m[i] || r[i].0 == k == m[i].0
    requires forall i | |m| <= i < |r| :: r[i].0 == k
    ensures forall k' | k' != k :: Find(r, k') == Find(m, k')
  {
    forall k' | k' != k
      ensures Find(r, k') == Find(m, k')
    {
      var p := Find(m, k');
      if p >= 0 {
        FindIs(r, k', p);
      } else {
        assert forall j | 0 <= j < |r| :: r[j].0 != k';
      }
    }
  }

  /** Replaces the values in place, keeping every key at its position. */
  function MapValues<K, V, W>(m: seq<(K, V)>, f: (K, V) -> W): (r: seq<(K, W)>)
    ensures Keys(r) == Keys(m)
    ensures forall i | 0 <= i < |m| :: r[i].1 == f(m[i].0, m[i].1)
  {
    seq(|m|, i requires 0 <= i < |m| => (m[i].0, f(m[i].0, m[i].1)))
  }

  // ---------------------------------------------------------------- sorting by integer key

  predicate StrictlySorted<V>(m: seq<(int, V)>) {
    forall i, j | 0 <= i < j < |m| :: m[i].0 < m[j].0
  }

  lemma SortedCons<V>(x: (int, V), t: seq<(int, V)>)
    requires StrictlySorted(t)
    requires forall j | 0 <= j < |t| :: x.0 < t[j].0
    ensures StrictlySorted([x] + t)
  {
    var r := [x] + t;
    forall i, j | 0 <= i < j < |r| ensures r[i].0 < r[j].0 {
      assert r[j] == t[j - 1];
      if i > 0 {
        assert r[i] == t[i - 1];
      }
    }
  }

  /** Inserts `e` before the first pair with a larger key. */
  function InsertByKey<V>(e: (int, V), m: seq<(int, V)>): (r: seq<(int, V)>)
    ensures multiset(r) == multiset(m) + multiset{e}
  {
    if |m| == 0 then [e]
    else if e.0 < m[0].0 then [e] + m
    else
      assert m == [m[0]] + m[1..];
      [m[0]] + InsertByKey(e, m[1..])
  }

  /** Inserting a new key into a strictly sorted sequence keeps it strictly sorted. */
  lemma {:induction false} InsertByKeySorted<V>(e: (int, V), m: seq<(int, V)>)
    requires StrictlySorted(m) && !HasKey(m, e.0)
    ensures StrictlySorted(InsertByKey(e, m))
    ensures InsertByKey(e, m)[0] == e || (0 < |m| && InsertByKey(e, m)[0] == m[0])
    decreases |m|
  {
    if |m| == 0 {
    } else if e.0 < m[0].0 {
      SortedCons(e, m);
    } else {
      var tail := m[1..];
      assert m[0].0 != e.0;
      assert StrictlySorted(tail);
      assert !HasKey(tail, e.0) by {
        forall i | 0 <= i < |tail| ensures tail[i].0 != e.0 {
          assert tail[i] == m[i + 1];
        }
      }
      InsertByKeySorted(e, tail);
      var t := InsertByKey(e, tail);
      assert forall j | 0 <= j < |t| :: m[0].0 < t[j].0 by {
        forall j | 0 <= j < |t| ensures m[0].0 < t[j].0 {
          assert t[j] in multiset(tail) + multiset{e};
          if t[j] != e {
            assert t[j] in multiset(tail);
            var l :| 0 <= l < |tail| && tail[l] == t[j];
            assert m[l + 1] == t[j];
          }
        }
      }
      SortedCons(m[0], t);
    }
  }

  /**
   * Sorting by key (Java's `Collections.sort` with `Integer.compareTo`); the
   * recursion inserts the head into the sorted tail.
   */
  function SortByKey<V>(m: seq<(int, V)>): (r: seq<(int, V)>)
    ensures multiset(r) == multiset(m)
  {
    if |m| == 0 then []
    else
      assert m == [m[0]] + m[1..];
      InsertByKey(m[0], SortByKey(m[1..]))
  }

  /** With distinct keys the sorted sequence is strictly ascending. */
  lemma {:induction false} SortByKeySorted<V>(m: seq<(int, V)>)
    requires DistinctKeys(m)
    ensures StrictlySorted(SortByKey(m))
    decreases |m|
  {
    if |m| > 0 {
      var tail := m[1..];
      assert DistinctKeys(tail) by {
        forall i, j | 0 <= i < j < |tail| ensures tail[i].0 != tail[j].0 {
          assert tail[i] == m[i + 1] && tail[j] == m[j + 1];
        }
      }
      SortByKeySorted(tail);
      var t := SortByKey(tail);
      assert !HasKey(t, m[0].0) by {
        forall j | 0 <= j < |t| ensures t[j].0 != m[0].0 {
          assert t[j] in multiset(tail);
          var l :| 0 <= l < |tail| && tail[l] == t[j];
          assert m[l + 1] == t[j];
        }
      }
      InsertByKeySorted(m[0], t);
    }
  }

  lemma StrictlySortedDistinct<V>(m: seq<(int, V)>)
    requires StrictlySorted(m)
    ensures DistinctKeys(m)
  {
  }

  /**
   * Sorting keeps the key-to-value mapping: every key has the same value before
   * and after, and no key is gained or lost.
   */
  lemma SortByKeyKeepsMapping<V>(m: seq<(int, V)>, k: int)
    requires DistinctKeys(m)
    ensures Get(SortByKey(m), k) == Get(m, k)
  {
    var r := SortByKey(m);
    SortByKeySorted(m);
    StrictlySortedDistinct(r);
    if HasKey(m, k) {
      var v := Get(m, k).value;
      GetIffMember(m, k, v);
      assert (k, v) in multiset(r);
      GetIffMember(r, k, v);
    } else {
      forall j | 0 <= j < |r|
        ensures r[j].0 != k
      {
        assert r[j] in multiset(m);
      }
    }
  }
}
