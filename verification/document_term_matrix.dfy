/**
 * The document-term matrix: an insertion-ordered map from document id to its
 * row of term frequencies.
 */
module DocumentTermMatrix {
  import opened Wrappers
  import OrderedMap
  import opened DocumentTermList

  type Matrix = seq<(int, Row)>

  predicate ValidMatrix(m: Matrix) {
    OrderedMap.DistinctKeys(m) && forall i | 0 <= i < |m| :: ValidRow(m[i].1)
  }

  /** `getNumberOfDocs`. */
  function NumberOfDocs(m: Matrix): nat {
    |m|
  }

  /** `clear`: no rows are left. */
  function Clear(): (r: Matrix)
    ensures NumberOfDocs(r) == 0 && ValidMatrix(r)
    ensures forall d :: OrderedMap.Get(r, d).None?
  {
    []
  }

  /**
   * `addDoc(doc)`: a known document is returned with its row and the matrix
   * unchanged; an unknown document gets an empty row at the end.
   */
  function AddDoc(m: Matrix, doc: int): (r: (Matrix, Row))
    ensures OrderedMap.HasKey(m, doc) ==> r.0 == m && OrderedMap.Get(m, doc) == Some(r.1)
    ensures !OrderedMap.HasKey(m, doc) ==> r.0 == m + [(doc, [])] && r.1 == []
    ensures OrderedMap.Get(r.0, doc) == Some(r.1)
    ensures forall d | d != doc :: OrderedMap.Get(r.0, d) == OrderedMap.Get(m, d)
    ensures NumberOfDocs(r.0) == NumberOfDocs(m) + (if OrderedMap.HasKey(m, doc) then 0 else 1)
    ensures ValidMatrix(m) ==> ValidMatrix(r.0)
  {
    match OrderedMap.Get(m, doc)
    case Some(row) => (m, row)
    case None =>
      var r := OrderedMap.Put<int, Row>(m, doc, []);
      assert OrderedMap.Find(m, doc) == -1;
      assert r == m + [(doc, [])];
      (r, [])
  }

  /** Adding the same document twice is the same as adding it once. */
  lemma AddDocIdempotent(m: Matrix, doc: int)
    ensures AddDoc(AddDoc(m, doc).0, doc) == AddDoc(m, doc)
  {
    var r := AddDoc(m, doc).0;
    assert OrderedMap.HasKey(r, doc) by {
      if !OrderedMap.HasKey(m, doc) {
        assert r[|m|].0 == doc;
      }
    }
  }

  /** Stores `row` as the row of `doc` (the program mutates the row object in place). */
  function SetRow(m: Matrix, doc: int, row: Row): (r: Matrix)
    ensures OrderedMap.Keys(r) ==
      if OrderedMap.HasKey(m, doc) then OrderedMap.Keys(m) else OrderedMap.Keys(m) + [doc]
    ensures OrderedMap.Get(r, doc) == Some(row)
    ensures forall d | d != doc :: OrderedMap.Get(r, d) == OrderedMap.Get(m, d)
    ensures ValidMatrix(m) && ValidRow(row) ==> ValidMatrix(r)
  {
    var r := OrderedMap.Put<int, Row>(m, doc, row);
    assert ValidMatrix(m) && ValidRow(row) ==> forall i | 0 <= i < |r| :: ValidRow(r[i].1) by {
      if ValidMatrix(m) && ValidRow(row) {
        forall i | 0 <= i < |r| ensures ValidRow(r[i].1) {
          OrderedMap.FindIs(r, r[i].0, i);
          if r[i].0 != doc {
            var j := OrderedMap.Find(m, r[i].0);
            assert OrderedMap.Get(m, r[i].0) == Some(r[i].1);
            assert m[j].1 == r[i].1;
          }
        }
      }
    }
    r
  }

  /** `sortTermListingsByID`: every row sorted by term id, documents and their order unchanged. */
  function SortTermListingsByID(m: Matrix): (r: Matrix)
    requires ValidMatrix(m)
    ensures OrderedMap.Keys(r) == OrderedMap.Keys(m) && ValidMatrix(r)
    ensures forall i | 0 <= i < |r| :: OrderedMap.StrictlySorted(r[i].1)
    ensures forall i, t | 0 <= i < |r| :: OrderedMap.Get(r[i].1, t) == OrderedMap.Get(m[i].1, t)
  {
    var r := seq(|m|, i requires 0 <= i < |m| => (m[i].0, SortTermsByID(m[i].1)));
    assert OrderedMap.Keys(r) == OrderedMap.Keys(m);
    r
  }

  /** Number of entries over all rows. */
  function TotalEntries(m: Matrix): nat
    decreases |m|
  {
    if |m| == 0 then 0 else |m[0].1| + TotalEntries(m[1..])
  }

  /**
   * `applyTfThresholds(lo, hi)`: thresholds every row and returns the sum of
   * the per-row removal counts, which is the number of entries that vanished.
   */
  function ApplyTfThresholds(m: Matrix, lo: int, hi: int): (r: (Matrix, nat))
    ensures OrderedMap.Keys(r.0) == OrderedMap.Keys(m)
    ensures forall i | 0 <= i < |m| :: r.0[i].1 == DocumentTermList.ApplyTfThresholds(m[i].1, lo, hi).0
    ensures r.1 == TotalEntries(m) - TotalEntries(r.0)
    ensures ValidMatrix(m) ==> ValidMatrix(r.0)
    decreases |m|
  {
    if |m| == 0 then ([], 0)
    else
      var head := DocumentTermList.ApplyTfThresholds(m[0].1, lo, hi);
      var tail := ApplyTfThresholds(m[1..], lo, hi);
      var rows := [(m[0].0, head.0)] + tail.0;
      assert rows[1..] == tail.0;
      assert OrderedMap.Keys(rows) == [m[0].0] + OrderedMap.Keys(tail.0);
      assert OrderedMap.Keys(m) == [m[0].0] + OrderedMap.Keys(m[1..]);
      (rows, head.1 + tail.1)
  }

  /** `calculateIdfs`: every row's values are replaced, documents and term ids stay in place. */
  function CalculateIdfs<W>(m: Matrix, weight: (int, nat) -> W): (r: seq<(int, seq<(int, W)>)>)
    ensures OrderedMap.Keys(r) == OrderedMap.Keys(m)
    ensures forall i | 0 <= i < |m| :: OrderedMap.Keys(r[i].1) == OrderedMap.Keys(m[i].1)
  {
    seq(|m|, i requires 0 <= i < |m| => (m[i].0, DocumentTermList.CalculateIdfs(m[i].1, weight)))
  }
}
