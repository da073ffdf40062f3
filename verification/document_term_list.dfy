/**
 * One row of the document-term matrix: an insertion-ordered map from term id
 * to term frequency. Frequencies are Java floats in the program; every value
 * the indexer stores is a whole count, so the model keeps them as naturals.
 */
module DocumentTermList {
  import opened Wrappers
  import OrderedMap

  type Row = seq<(int, nat)>

  predicate ValidRow(row: Row) {
    OrderedMap.DistinctKeys(row)
  }

  /** `getTermFrequency`: the stored value, 0 for an absent term id. */
  function TermFrequency(row: Row, termID: int): (r: nat)
    ensures r > 0 ==> OrderedMap.HasKey(row, termID)
    ensures OrderedMap.HasKey(row, termID) ==> Some(r) == OrderedMap.Get(row, termID)
  {
    OrderedMap.Get(row, termID).GetOr(0)
  }

  /**
   * `add(termID, value)`: an absent term id is appended with `value`, a
   * present one keeps its place and gets `value` added.
   */
  function AddValue(row: Row, termID: int, value: nat): (r: Row)
    ensures OrderedMap.Keys(r) ==
      if OrderedMap.HasKey(row, termID) then OrderedMap.Keys(row) else OrderedMap.Keys(row) + [termID]
    ensures TermFrequency(r, termID) == TermFrequency(row, termID) + value
    ensures OrderedMap.HasKey(r, termID)
    ensures forall t | t != termID :: OrderedMap.Get(r, t) == OrderedMap.Get(row, t)
    ensures ValidRow(row) ==> ValidRow(r)
  {
    var v: nat := TermFrequency(row, termID) + value;
    OrderedMap.Put<int, nat>(row, termID, v)
  }

  /** `add(termID)`: one more occurrence of the term. */
  function AddTerm(row: Row, termID: int): (r: Row)
    ensures OrderedMap.Keys(r) ==
      if OrderedMap.HasKey(row, termID) then OrderedMap.Keys(row) else OrderedMap.Keys(row) + [termID]
    ensures TermFrequency(r, termID) == TermFrequency(row, termID) + 1
    ensures forall t | t != termID :: OrderedMap.Get(r, t) == OrderedMap.Get(row, t)
    ensures ValidRow(row) ==> ValidRow(r)
  {
    AddValue(row, termID, 1)
  }

  /** Occurrences of `t` in a sequence of term ids. */
  function Count(ids: seq<int>, t: int): nat
    decreases |ids|
  {
    if |ids| == 0 then 0 else Count(ids[..|ids| - 1], t) + (if ids[|ids| - 1] == t then 1 else 0)
  }

  /** Adds the term ids one after the other. */
  function AddTerms(row: Row, ids: seq<int>): Row
    decreases |ids|
  {
    if |ids| == 0 then row else AddTerm(AddTerms(row, ids[..|ids| - 1]), ids[|ids| - 1])
  }

  /** A row built from term ids holds, for every term id, its number of occurrences. */
  lemma {:induction false} AddTermsCounts(ids: seq<int>, t: int)
    ensures TermFrequency(AddTerms([], ids), t) == Count(ids, t)
    ensures OrderedMap.HasKey(AddTerms([], ids), t) <==> Count(ids, t) > 0
    ensures ValidRow(AddTerms([], ids))
    decreases |ids|
  {
    if |ids| > 0 {
      AddTermsCounts(ids[..|ids| - 1], t);
    }
  }

  /** `clear`. */
  function Clear(): (r: Row)
    ensures |r| == 0 && forall t :: TermFrequency(r, t) == 0
  {
    []
  }

  /** `a` appears in `b` in the same relative order. */
  predicate IsSubsequence<T(==)>(a: seq<T>, b: seq<T>)
    decreases |b|
  {
    if |a| == 0 then true
    else if |b| == 0 then false
    else if a[0] == b[0] then IsSubsequence(a[1..], b[1..])
    else IsSubsequence(a, b[1..])
  }

  predicate InRange(v: nat, lo: int, hi: int) {
    lo < v < hi
  }

  /**
   * `applyTfThresholds(lo, hi)`: removes every entry whose value is at most
   * `lo` or at least `hi`, and returns the remaining row with the number of
   * removed entries.
   */
  function ApplyTfThresholds(row: Row, lo: int, hi: int): (r: (Row, nat))
    ensures IsSubsequence(r.0, row)
    ensures r.1 == |row| - |r.0|
    ensures ValidRow(row) ==> ValidRow(r.0)
    decreases |row|
  {
    if |row| == 0 then ([], 0)
    else
      var t := ApplyTfThresholds(row[1..], lo, hi);
      if InRange(row[0].1, lo, hi) then
        var r := [row[0]] + t.0;
        assert r[1..] == t.0;
        assert ValidRow(row) ==> ValidRow(r) by {
          if ValidRow(row) {
            assert ValidRow(row[1..]);
            forall j | 0 <= j < |t.0| ensures row[0].0 != t.0[j].0 {
              SubsequenceMembers(t.0, row[1..], t.0[j]);
              var k :| 0 <= k < |row[1..]| && row[1..][k] == t.0[j];
              assert row[k + 1] == t.0[j];
            }
            OrderedMap.DistinctCons(row[0], t.0);
          }
        }
        (r, t.1)
      else
        SubsequenceSkip(t.0, row);
        assert ValidRow(row) ==> ValidRow(row[1..]);
        (t.0, t.1 + 1)
  }

  /** The remaining entries are exactly the entries whose value lies strictly between the thresholds. */
  lemma {:induction false} ApplyTfThresholdsKeeps(row: Row, lo: int, hi: int, e: (int, nat))
    ensures e in ApplyTfThresholds(row, lo, hi).0 <==> e in row && InRange(e.1, lo, hi)
    decreases |row|
  {
    if |row| > 0 {
      ApplyTfThresholdsKeeps(row[1..], lo, hi, e);
      assert e in row <==> e == row[0] || e in row[1..];
    }
  }

  /** Every element of a subsequence is an element of the whole. */
  lemma {:induction false} SubsequenceMembers<T>(a: seq<T>, b: seq<T>, x: T)
    requires IsSubsequence(a, b) && x in a
    ensures x in b
    decreases |b|
  {
    assert b == [b[0]] + b[1..];
    if a[0] == b[0] {
      if x != a[0] {
        assert x in a[1..];
        SubsequenceMembers(a[1..], b[1..], x);
      }
    } else {
      SubsequenceMembers(a, b[1..], x);
    }
  }

  /** A subsequence of the tail is a subsequence of the whole. */
  lemma {:induction false} SubsequenceSkip<T>(a: seq<T>, b: seq<T>)
    requires 0 < |b| && IsSubsequence(a, b[1..])
    ensures IsSubsequence(a, b)
    decreases |b|, |a|
  {
    if |a| > 0 && a[0] == b[0] {
      SubsequenceTail(a, b[1..]);
    }
  }

  lemma {:induction false} SubsequenceTail<T>(a: seq<T>, b: seq<T>)
    requires 0 < |a| && IsSubsequence(a, b)
    ensures IsSubsequence(a[1..], b)
    decreases |b|, |a|
  {
    if a[0] == b[0] {
      SubsequenceSkip(a[1..], b);
    } else {
      SubsequenceTail(a, b[1..]);
      SubsequenceSkip(a[1..], b);
    }
  }

  /** `sortTermsByID`: same term-to-frequency mapping, term ids strictly ascending. */
  function SortTermsByID(row: Row): (r: Row)
    requires ValidRow(row)
    ensures OrderedMap.StrictlySorted(r) && ValidRow(r)
    ensures |r| == |row|
    ensures forall t :: OrderedMap.Get(r, t) == OrderedMap.Get(row, t)
  {
    var r := OrderedMap.SortByKey<nat>(row);
    assert |r| == |multiset(r)| == |multiset(row)| == |row|;
    forall t ensures OrderedMap.Get<int, nat>(r, t) == OrderedMap.Get<int, nat>(row, t) {
      OrderedMap.SortByKeyKeepsMapping<nat>(row, t);
    }
    OrderedMap.SortByKeySorted<nat>(row);
    OrderedMap.StrictlySortedDistinct(r);
    r
  }

  /**
   * `calculateIDFs` only replaces values: each entry's new value is computed
   * from its term id and old value, and the term ids keep their order. The
   * weight itself (a floating-point idf) is a parameter.
   */
  function CalculateIdfs<W>(row: Row, weight: (int, nat) -> W): (r: seq<(int, W)>)
    ensures OrderedMap.Keys(r) == OrderedMap.Keys(row)
    ensures forall i | 0 <= i < |row| :: r[i].1 == weight(row[i].0, row[i].1)
  {
    OrderedMap.MapValues(row, weight)
  }
}
