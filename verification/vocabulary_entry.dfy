/**
 * One vocabulary entry: the term id fixed at creation, the document and
 * collection frequencies, and the last document that counted towards the
 * document frequency. Frequencies are unbounded integers; Java's 32-bit
 * wrap-around is not modelled.
 */
module VocabularyEntry {

  datatype Entry = Entry(termID: int, docFrequency: int, collectionFrequency: int, lastDocID: int)

  /** A term seen for the first time, in document `lastDocID`. */
  function New(termID: int, lastDocID: int): (e: Entry)
    ensures e.termID == termID && e.lastDocID == lastDocID
    ensures e.docFrequency == 1 && e.collectionFrequency == 1
  {
    Entry(termID, 1, 1, lastDocID)
  }

  function SetDocFreq(e: Entry, docFreq: int): (r: Entry)
    ensures r.docFrequency == docFreq && r.(docFrequency := e.docFrequency) == e
  {
    e.(docFrequency := docFreq)
  }

  function SetCollectionFreq(e: Entry, freq: int): (r: Entry)
    ensures r.collectionFrequency == freq && r.(collectionFrequency := e.collectionFrequency) == e
  {
    e.(collectionFrequency := freq)
  }

  /**
   * Counts document `docID` once: a document different from the last one
   * raises the document frequency and becomes the last one; the same document
   * again changes nothing.
   */
  function IncreaseDocFrequency(e: Entry, docID: int): (r: Entry)
    ensures r.termID == e.termID && r.collectionFrequency == e.collectionFrequency
    ensures r.lastDocID == docID
    ensures r.docFrequency == e.docFrequency + (if docID != e.lastDocID then 1 else 0)
  {
    if docID != e.lastDocID then e.(docFrequency := e.docFrequency + 1, lastDocID := docID) else e
  }

  /** One more occurrence of the term; no other field changes. */
  function IncreaseCollectionFrequency(e: Entry): (r: Entry)
    ensures r.collectionFrequency == e.collectionFrequency + 1
    ensures r.(collectionFrequency := e.collectionFrequency) == e
  {
    e.(collectionFrequency := e.collectionFrequency + 1)
  }

  /** Counting the same document twice is the same as counting it once. */
  lemma IncreaseDocFrequencyIdempotent(e: Entry, docID: int)
    ensures IncreaseDocFrequency(IncreaseDocFrequency(e, docID), docID) == IncreaseDocFrequency(e, docID)
  {
  }

  /** Applies `IncreaseDocFrequency` for each id in order. */
  function IncreaseDocFrequencyAll(e: Entry, ids: seq<int>): Entry
    decreases |ids|
  {
    if |ids| == 0 then e else IncreaseDocFrequencyAll(IncreaseDocFrequency(e, ids[0]), ids[1..])
  }

  /** Any number of calls with one and the same id raise the document frequency at most once. */
  lemma {:induction false} RepeatedDocRaisesOnce(e: Entry, d: int, ids: seq<int>)
    requires forall i | 0 <= i < |ids| :: ids[i] == d
    ensures var r := IncreaseDocFrequencyAll(e, ids);
      r.docFrequency <= e.docFrequency + 1 && r.termID == e.termID
    ensures 0 < |ids| ==> IncreaseDocFrequencyAll(e, ids) == IncreaseDocFrequency(e, d)
    decreases |ids|
  {
    if |ids| > 0 {
      var e1 := IncreaseDocFrequency(e, d);
      if |ids| > 1 {
        RepeatedDocRaisesOnce(e1, d, ids[1..]);
        IncreaseDocFrequencyIdempotent(e, d);
        assert IncreaseDocFrequencyAll(e1, ids[1..]) == IncreaseDocFrequency(e1, d);
      }
    }
  }

  /** The mutators of an entry, as data. */
  datatype Op = IncDoc(docID: int) | IncCollection | SetDf(df: int) | SetCf(cf: int)

  function Apply(e: Entry, op: Op): Entry {
    match op
    case IncDoc(d) => IncreaseDocFrequency(e, d)
    case IncCollection => IncreaseCollectionFrequency(e)
    case SetDf(x) => SetDocFreq(e, x)
    case SetCf(x) => SetCollectionFreq(e, x)
  }

  function ApplyAll(e: Entry, ops: seq<Op>): Entry
    decreases |ops|
  {
    if |ops| == 0 then e else ApplyAll(Apply(e, ops[0]), ops[1..])
  }

  /** The term id is fixed at construction: no sequence of mutators changes it. */
  lemma {:induction false} TermIDFixed(e: Entry, ops: seq<Op>)
    ensures ApplyAll(e, ops).termID == e.termID
    decreases |ops|
  {
    if |ops| > 0 {
      TermIDFixed(Apply(e, ops[0]), ops[1..]);
    }
  }

  /** Number of positions where the document id differs from the one before it. */
  function Changes(ids: seq<int>): nat
    decreases |ids|
  {
    if |ids| <= 1 then 0
    else Changes(ids[..|ids| - 1]) + (if ids[|ids| - 1] != ids[|ids| - 2] then 1 else 0)
  }

  /**
   * The life of an entry as the vocabulary drives it: created in the first
   * document `ids[0]`, then for every further occurrence one collection
   * count and one document count.
   */
  function Replay(termID: int, ids: seq<int>): Entry
    requires 0 < |ids|
    decreases |ids|
  {
    if |ids| == 1 then New(termID, ids[0])
    else
      var e := Replay(termID, ids[..|ids| - 1]);
      IncreaseDocFrequency(IncreaseCollectionFrequency(e), ids[|ids| - 1])
  }

  /**
   * After occurrences in documents `ids`, the collection frequency is the
   * number of occurrences, the document frequency is one plus the number of
   * document changes, and the last document is the last id.
   */
  lemma {:induction false} ReplayCounts(termID: int, ids: seq<int>)
    requires 0 < |ids|
    ensures var e := Replay(termID, ids);
      e.termID == termID && e.collectionFrequency == |ids| &&
      e.docFrequency == 1 + Changes(ids) && e.lastDocID == ids[|ids| - 1]
    decreases |ids|
  {
    if |ids| > 1 {
      var p := ids[..|ids| - 1];
      ReplayCounts(termID, p);
      assert p[|p| - 1] == ids[|ids| - 2];
    }
  }
}
