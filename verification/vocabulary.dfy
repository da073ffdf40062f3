/**
 * The vocabulary: an insertion-ordered map from term to entry that hands
 * out dense term ids in first-seen order, counts document and collection
 * frequencies, and after `finalize` answers lookups by term id.
 *
 * `finalize` copies the live entry references into a list; the model keeps
 * the number of entries at that moment, because entries never move and later
 * frequency changes stay visible through the list.
 */
module Vocabulary {
  import opened Wrappers
  import OrderedMap
  import opened VocabularyEntry

  datatype Vocab = Vocab(
    entries: seq<(string, Entry)>,
    nextTermID: int,
    finalized: Option<nat>,
    totalDocs: int)

  /** Distinct terms, term ids equal to positions, and a snapshot no longer than the map. */
  predicate Valid(v: Vocab) {
    && OrderedMap.DistinctKeys(v.entries)
    && v.nextTermID == |v.entries|
    && (forall i | 0 <= i < |v.entries| :: v.entries[i].1.termID == i)
    && (v.finalized.Some? ==> v.finalized.value <= |v.entries|)
  }

  function Empty(): (v: Vocab)
    ensures Valid(v) && Size(v) == 0 && v.finalized.None?
  {
    Vocab([], 0, None, 0)
  }

  function Size(v: Vocab): nat {
    |v.entries|
  }

  function SetTotalNumberOfDocuments(v: Vocab, count: int): (r: Vocab)
    ensures r.totalDocs == count && r.(totalDocs := v.totalDocs) == v
  {
    v.(totalDocs := count)
  }

  /** `get(term)`: `None` for a term that is not in the vocabulary. */
  function Get(v: Vocab, term: string): (r: Option<Entry>)
    ensures r.Some? <==> term in OrderedMap.Keys(v.entries)
  {
    var r := OrderedMap.Get(v.entries, term);
    assert r.Some? ==> v.entries[OrderedMap.Find(v.entries, term)].0 == term;
    r
  }

  /** In a valid vocabulary the entry of a term carries the term's position as its id. */
  lemma GetTermID(v: Vocab, term: string)
    requires Valid(v) && Get(v, term).Some?
    ensures 0 <= Get(v, term).value.termID < Size(v)
    ensures OrderedMap.Keys(v.entries)[Get(v, term).value.termID] == term
  {
  }

  /**
   * `add(term, docID)`: a known term gets one more occurrence and, when the
   * document differs from its last one, one more document; an unknown term
   * gets a fresh entry with the next id. Returns the new state and the entry.
   */
  function Add(v: Vocab, term: string, docID: int): (r: (Vocab, Entry))
    ensures Valid(v) ==> Valid(r.0)
    ensures Get(r.0, term) == Some(r.1)
    ensures forall t | t != term :: Get(r.0, t) == Get(v, t)
    ensures r.0.finalized == v.finalized && r.0.totalDocs == v.totalDocs
    ensures Get(v, term).None? ==>
      && r.1 == New(v.nextTermID, docID)
      && OrderedMap.Keys(r.0.entries) == OrderedMap.Keys(v.entries) + [term]
      && r.0.nextTermID == v.nextTermID + 1
    ensures Get(v, term).Some? ==>
      && r.1 == IncreaseDocFrequency(IncreaseCollectionFrequency(Get(v, term).value), docID)
      && OrderedMap.Keys(r.0.entries) == OrderedMap.Keys(v.entries)
      && r.0.nextTermID == v.nextTermID
  {
    match OrderedMap.Get(v.entries, term)
    case Some(prev) =>
      var e := IncreaseCollectionFrequency(prev);
      var e' := if e.lastDocID != docID then IncreaseDocFrequency(e, docID) else e;
      PutKeepsIds(v, term, e');
      (v.(entries := OrderedMap.Put(v.entries, term, e')), e')
    case None =>
      var e := New(v.nextTermID, docID);
      PutKeepsIds(v, term, e);
      (v.(entries := OrderedMap.Put(v.entries, term, e), nextTermID := v.nextTermID + 1), e)
  }

  /**
   * `addSilent(term)`: a known term is returned unchanged; an unknown term gets
   * the next id with both frequencies 0 and last document -1.
   */
  function AddSilent(v: Vocab, term: string): (r: (Vocab, Entry))
    ensures Valid(v) ==> Valid(r.0)
    ensures Get(r.0, term) == Some(r.1)
    ensures Get(v, term).Some? ==> r.0 == v && r.1 == Get(v, term).value
    ensures Get(v, term).None? ==>
      && r.1 == Entry(v.nextTermID, 0, 0, -1)
      && OrderedMap.Keys(r.0.entries) == OrderedMap.Keys(v.entries) + [term]
      && r.0.nextTermID == v.nextTermID + 1
      && forall t | t != term :: Get(r.0, t) == Get(v, t)
  {
    match OrderedMap.Get(v.entries, term)
    case Some(prev) => (v, prev)
    case None =>
      var e := SetCollectionFreq(SetDocFreq(New(v.nextTermID, -1), 0), 0);
      PutKeepsIds(v, term, e);
      (v.(entries := OrderedMap.Put(v.entries, term, e), nextTermID := v.nextTermID + 1), e)
  }

  /** Putting an entry whose id matches the term's position keeps the vocabulary valid. */
  lemma PutKeepsIds(v: Vocab, term: string, e: Entry)
    ensures var m := OrderedMap.Put(v.entries, term, e);
      (&& Valid(v)
       && (OrderedMap.HasKey(v.entries, term) ==> e.termID == OrderedMap.Find(v.entries, term))
       && (!OrderedMap.HasKey(v.entries, term) ==> e.termID == |v.entries|))
      ==>
      (&& OrderedMap.DistinctKeys(m)
       && |m| == |v.entries| + (if OrderedMap.HasKey(v.entries, term) then 0 else 1)
       && forall i | 0 <= i < |m| :: m[i].1.termID == i)
  {
    var m := OrderedMap.Put(v.entries, term, e);
    if && Valid(v)
       && (OrderedMap.HasKey(v.entries, term) ==> e.termID == OrderedMap.Find(v.entries, term))
       && (!OrderedMap.HasKey(v.entries, term) ==> e.termID == |v.entries|)
    {
      var ks := OrderedMap.Keys(m);
      assert |ks| == |m|;
      forall i | 0 <= i < |m|
        ensures m[i].1.termID == i
      {
        if m[i].0 == term {
          OrderedMap.FindIs(m, term, i);
          assert OrderedMap.Get(m, term) == Some(m[i].1);
        } else {
          assert ks[i] == m[i].0;
          OrderedMap.FindIs(m, m[i].0, i);
          assert OrderedMap.Get(v.entries, m[i].0) == Some(m[i].1);
          assert OrderedMap.Keys(v.entries)[i] == m[i].0;
          assert v.entries[i].0 == m[i].0;
        }
      }
    }
  }

  /** `finalize`: from now on lookups by id see the entries present at this moment. */
  function Finalize(v: Vocab): (r: Vocab)
    ensures Valid(v) ==> Valid(r)
    ensures r.finalized == Some(Size(v)) && r.entries == v.entries
  {
    v.(finalized := Some(|v.entries|))
  }

  /**
   * `get(termID)`: `Success(None)` (Java's null) before `finalize`; afterwards
   * the current entry of the term with that id, or an IndexOutOfBounds
   * failure for an id outside the finalized range.
   */
  function GetById(v: Vocab, termID: int): (r: Result<Option<Entry>>)
    requires Valid(v)
    ensures v.finalized.None? ==> r == Success(None)
    ensures v.finalized.Some? ==> (r.Failure? <==> !(0 <= termID < v.finalized.value))
    ensures r.Success? && r.value.Some? ==>
      && r.value.value.termID == termID
      && Get(v, OrderedMap.Keys(v.entries)[termID]) == r.value
  {
    match v.finalized
    case None => Success(None)
    case Some(n) =>
      if 0 <= termID < n then
        OrderedMap.FindIs(v.entries, v.entries[termID].0, termID);
        Success(Some(v.entries[termID].1))
      else Failure(IndexOutOfBounds)
  }

  // ---------------------------------------------------------------- folds over token streams

  /** Adds the tokens `(term, docID)` one after the other. */
  function AddAll(v: Vocab, tokens: seq<(string, int)>): Vocab
    decreases |tokens|
  {
    if |tokens| == 0 then v
    else
      var last := tokens[|tokens| - 1];
      Add(AddAll(v, tokens[..|tokens| - 1]), last.0, last.1).0
  }

  /** The distinct terms of the tokens in order of first appearance. */
  function FirstSeen(tokens: seq<(string, int)>): (r: seq<string>)
    decreases |tokens|
  {
    if |tokens| == 0 then []
    else
      var p := FirstSeen(tokens[..|tokens| - 1]);
      var t := tokens[|tokens| - 1].0;
      if t in p then p else p + [t]
  }

  /** The documents of the occurrences of `term`, in stream order. */
  function Occurrences(tokens: seq<(string, int)>, term: string): (r: seq<int>)
    decreases |tokens|
  {
    if |tokens| == 0 then []
    else
      var p := Occurrences(tokens[..|tokens| - 1], term);
      if tokens[|tokens| - 1].0 == term then p + [tokens[|tokens| - 1].1] else p
  }

  lemma {:induction false} OccurrencesEmptyIffUnseen(tokens: seq<(string, int)>, term: string)
    ensures |Occurrences(tokens, term)| == 0 <==> term !in FirstSeen(tokens)
    decreases |tokens|
  {
    if |tokens| > 0 {
      OccurrencesEmptyIffUnseen(tokens[..|tokens| - 1], term);
    }
  }

  /**
   * Building a vocabulary from the empty one: it stays valid, its terms are
   * the distinct token terms in first-seen order (so term ids are dense,
   * 0 to size-1), and it is not finalized.
   */
  lemma {:induction false} AddAllShape(tokens: seq<(string, int)>)
    ensures var v := AddAll(Empty(), tokens);
      Valid(v) && OrderedMap.Keys(v.entries) == FirstSeen(tokens) && v.finalized.None?
    decreases |tokens|
  {
    if |tokens| > 0 {
      var p := tokens[..|tokens| - 1];
      AddAllShape(p);
    }
  }

  /**
   * What `get(term)` answers after the tokens were added: null exactly when
   * the term never occurred, otherwise the entry that the history of its
   * occurrences produces (created in its first document, then one count per
   * further occurrence).
   */
  lemma {:induction false} AddAllLookup(tokens: seq<(string, int)>, term: string)
    ensures var e := Get(AddAll(Empty(), tokens), term);
      && (e.None? <==> |Occurrences(tokens, term)| == 0)
      && (e.Some? ==> e.value == Replay(e.value.termID, Occurrences(tokens, term)))
    decreases |tokens|
  {
    if |tokens| > 0 {
      var p := tokens[..|tokens| - 1];
      var last := tokens[|tokens| - 1];
      AddAllLookup(p, term);
      var v0 := AddAll(Empty(), p);
      var a := Add(v0, last.0, last.1);
      assert AddAll(Empty(), tokens) == a.0;
      var occ := Occurrences(p, term);
      if last.0 == term {
        assert Occurrences(tokens, term) == occ + [last.1];
        if Get(v0, term).Some? {
          assert (occ + [last.1])[..|occ|] == occ;
        } else {
          assert occ + [last.1] == [last.1];
        }
      } else {
        assert Occurrences(tokens, term) == occ;
        assert Get(a.0, term) == Get(v0, term);
      }
    }
  }

  /** A term's id is its position among the distinct terms in first-seen order. */
  lemma AddAllTermID(tokens: seq<(string, int)>, term: string)
    requires term in FirstSeen(tokens)
    ensures var e := Get(AddAll(Empty(), tokens), term);
      e.Some? && 0 <= e.value.termID < |FirstSeen(tokens)| && FirstSeen(tokens)[e.value.termID] == term
  {
    AddAllShape(tokens);
    GetTermID(AddAll(Empty(), tokens), term);
  }

  predicate NonDecreasing(ids: seq<int>) {
    forall i, j | 0 <= i < j < |ids| :: ids[i] <= ids[j]
  }

  function Docs(tokens: seq<(string, int)>): (r: seq<int>)
    ensures |r| == |tokens| && forall i | 0 <= i < |tokens| :: r[i] == tokens[i].1
  {
    seq(|tokens|, i requires 0 <= i < |tokens| => tokens[i].1)
  }

  lemma {:induction false} OccurrencesSorted(tokens: seq<(string, int)>, term: string)
    requires NonDecreasing(Docs(tokens))
    ensures NonDecreasing(Occurrences(tokens, term))
    ensures forall i | 0 <= i < |Occurrences(tokens, term)| ::
      Occurrences(tokens, term)[i] in Docs(tokens)
    decreases |tokens|
  {
    if |tokens| > 0 {
      var p := tokens[..|tokens| - 1];
      assert Docs(p) == Docs(tokens)[..|p|];
      OccurrencesSorted(p, term);
      var o := Occurrences(p, term);
      forall i | 0 <= i < |o|
        ensures o[i] <= tokens[|tokens| - 1].1
      {
        var j :| 0 <= j < |Docs(p)| && Docs(p)[j] == o[i];
        assert Docs(tokens)[j] == o[i];
      }
    }
  }

  function ToSet(ids: seq<int>): set<int> {
    set i | 0 <= i < |ids| :: ids[i]
  }

  lemma ToSetSnoc(p: seq<int>, x: int)
    ensures ToSet(p + [x]) == ToSet(p) + {x}
  {
    var ids := p + [x];
    forall y | y in ToSet(ids) ensures y in ToSet(p) + {x} {
      var i :| 0 <= i < |ids| && ids[i] == y;
      if i < |p| { assert p[i] == y; }
    }
    forall y | y in ToSet(p) ensures y in ToSet(ids) {
      var i :| 0 <= i < |p| && p[i] == y;
      assert ids[i] == y;
    }
    assert ids[|p|] == x;
  }

  /** Appending a value above every earlier one adds one distinct value. */
  lemma ToSetSnocFresh(p: seq<int>, x: int)
    requires 0 < |p| && NonDecreasing(p + [x]) && x != p[|p| - 1]
    ensures |ToSet(p + [x])| == |ToSet(p)| + 1
  {
    var ids := p + [x];
    ToSetSnoc(p, x);
    assert x !in ToSet(p) by {
      forall y | y in ToSet(p) ensures y != x {
        var i :| 0 <= i < |p| && p[i] == y;
        assert ids[i] == y && ids[|p| - 1] == p[|p| - 1] && ids[|p|] == x;
        assert y <= p[|p| - 1] <= x;
      }
    }
  }

  /** Appending a repeat of the last value adds no distinct value. */
  lemma ToSetSnocSeen(p: seq<int>, x: int)
    requires 0 < |p| && x == p[|p| - 1]
    ensures ToSet(p + [x]) == ToSet(p)
  {
    ToSetSnoc(p, x);
    assert x in ToSet(p);
  }

  /** In a non-decreasing sequence, one plus the number of changes is the number of distinct values. */
  lemma {:induction false} ChangesCountDistinct(ids: seq<int>)
    requires 0 < |ids| && NonDecreasing(ids)
    ensures 1 + Changes(ids) == |ToSet(ids)|
    decreases |ids|
  {
    if |ids| == 1 {
      assert ToSet(ids) == {ids[0]};
    } else {
      var p := ids[..|ids| - 1];
      var x := ids[|ids| - 1];
      assert ids == p + [x];
      assert NonDecreasing(p);
      ChangesCountDistinct(p);
      assert p[|p| - 1] == ids[|ids| - 2];
      if x != p[|p| - 1] {
        ToSetSnocFresh(p, x);
      } else {
        ToSetSnocSeen(p, x);
      }
    }
  }

  /**
   * When the tokens arrive document by document (non-decreasing document
   * ids), the collection frequency of a term is its number of occurrences and
   * its document frequency is the number of distinct documents it occurs in.
   */
  lemma CountsOfSortedStream(tokens: seq<(string, int)>, term: string)
    requires NonDecreasing(Docs(tokens))
    requires term in FirstSeen(tokens)
    ensures Get(AddAll(Empty(), tokens), term).Some?
    ensures var e := Get(AddAll(Empty(), tokens), term).value;
      && e.collectionFrequency == |Occurrences(tokens, term)|
      && e.docFrequency == |ToSet(Occurrences(tokens, term))|
  {
    OccurrencesEmptyIffUnseen(tokens, term);
    AddAllLookup(tokens, term);
    var e := Get(AddAll(Empty(), tokens), term).value;
    var occ := Occurrences(tokens, term);
    ReplayCounts(e.termID, occ);
    OccurrencesSorted(tokens, term);
    ChangesCountDistinct(occ);
  }

  /** The two ways of registering a term, as data. */
  datatype VocabOp = AddOp(term: string, docID: int) | AddSilentOp(silentTerm: string)

  function ApplyOps(v: Vocab, ops: seq<VocabOp>): Vocab
    decreases |ops|
  {
    if |ops| == 0 then v
    else
      var v' := match ops[0]
        case AddOp(t, d) => Add(v, t, d).0
        case AddSilentOp(t) => AddSilent(v, t).0;
      ApplyOps(v', ops[1..])
  }

  /**
   * Any mix of `add` and `addSilent` keeps the ids dense: the entry at
   * position i has id i, there are exactly `size()` of them, and the id
   * counter equals the size.
   */
  lemma {:induction false} OpsKeepIdsDense(v: Vocab, ops: seq<VocabOp>)
    requires Valid(v)
    ensures var r := ApplyOps(v, ops);
      Valid(r) && r.nextTermID == Size(r) &&
      forall i | 0 <= i < Size(r) :: r.entries[i].1.termID == i
    decreases |ops|
  {
    if |ops| > 0 {
      var v' := match ops[0]
        case AddOp(t, d) => Add(v, t, d).0
        case AddSilentOp(t) => AddSilent(v, t).0;
      OpsKeepIdsDense(v', ops[1..]);
    }
  }
}
