/**
 * The indexer's two passes over the token stream. The first pass counts the
 * tokens, builds the vocabulary and fills the collection counts; the second
 * pass cuts the stream into blocks of a fixed token budget and counts, per
 * block, every document's term ids in a block matrix whose rows are sorted
 * before the block is written.
 *
 * Tokens are the ones the zip token stream hands out. Java compares the
 * `Document` objects of consecutive tokens by reference; the stream makes one
 * object per archive entry, each with its own id, so the model compares ids.
 */
module BlockIndexer {
  import opened Wrappers
  import OrderedMap
  import opened Documents
  import opened TokenStream
  import Vocabulary
  import VocabularyEntry
  import DocumentTermList
  import DocumentTermMatrix
  import ArffWriter
  import opened Text

  type Matrix = DocumentTermMatrix.Matrix

  // ---------------------------------------------------------------- first pass

  /** What the first pass leaves behind: the vocabulary and the collection counts it sets. */
  datatype FirstPass = FirstPass(
    vocab: Vocabulary.Vocab,
    numberOfDocuments: int,
    numberOfTokens: int,
    numberOfUniqueTerms: int,
    averageDocumentLength: int)

  /** The `(term, document id)` pairs the vocabulary is fed with. */
  function Pairs(tokens: seq<Token>): (r: seq<(string, int)>)
    ensures |r| == |tokens| && forall i | 0 <= i < |tokens| :: r[i] == (tokens[i].term, tokens[i].doc.id)
  {
    seq(|tokens|, i requires 0 <= i < |tokens| => (tokens[i].term, tokens[i].doc.id))
  }

  /**
   * `buildVocabulary`: every token is counted once and added to the
   * vocabulary under its document id. The number of documents is the id of
   * the last token's document, and the average document length is the
   * integer quotient of tokens by that id. Without any token the last token
   * is null; a last id of 0 divides by zero.
   */
  function BuildVocabulary(tokens: seq<Token>): (r: Result<FirstPass>)
    ensures r.Success? <==> 0 < |tokens| && tokens[|tokens| - 1].doc.id != 0
    ensures |tokens| == 0 ==> r == Failure(NullPointer)
    ensures r.Success? ==>
      && r.value.numberOfTokens == |tokens|
      && r.value.numberOfDocuments == tokens[|tokens| - 1].doc.id == r.value.vocab.totalDocs
      && r.value.numberOfUniqueTerms == Vocabulary.Size(r.value.vocab)
      && r.value.vocab.finalized == Some(r.value.numberOfUniqueTerms)
      && r.value.averageDocumentLength == JavaDiv(|tokens|, r.value.numberOfDocuments)
  {
    if |tokens| == 0 then Failure(NullPointer)
    else
      var last := tokens[|tokens| - 1].doc.id;
      var v := Vocabulary.AddAll(Vocabulary.Empty(), Pairs(tokens));
      if last == 0 then Failure(Arithmetic)
      else
        var v' := Vocabulary.Finalize(Vocabulary.SetTotalNumberOfDocuments(v, last));
        Success(FirstPass(v', last, |tokens|, Vocabulary.Size(v), JavaDiv(|tokens|, last)))
  }

  /**
   * The vocabulary of the first pass holds the distinct terms in first-seen
   * order, with ids 0 to size-1; a term is absent exactly when no token
   * carries it, and otherwise its entry is what its occurrences produce.
   */
  lemma FirstPassVocabulary(tokens: seq<Token>, term: string)
    requires BuildVocabulary(tokens).Success?
    ensures var v := BuildVocabulary(tokens).value.vocab;
      && Vocabulary.Valid(v)
      && OrderedMap.Keys(v.entries) == Vocabulary.FirstSeen(Pairs(tokens))
      && BuildVocabulary(tokens).value.numberOfUniqueTerms == |Vocabulary.FirstSeen(Pairs(tokens))|
      && (Vocabulary.Get(v, term).None? <==> |Vocabulary.Occurrences(Pairs(tokens), term)| == 0)
      && (Vocabulary.Get(v, term).Some? ==>
            Vocabulary.Get(v, term).value == VocabularyEntry.Replay(Vocabulary.Get(v, term).value.termID, Vocabulary.Occurrences(Pairs(tokens), term)))
  {
    Vocabulary.AddAllShape(Pairs(tokens));
    Vocabulary.AddAllLookup(Pairs(tokens), term);
  }

  /** A term that a pair carries occurs. */
  lemma {:induction false} PairOccurs(pairs: seq<(string, int)>, i: int)
    requires 0 <= i < |pairs|
    ensures 0 < |Vocabulary.Occurrences(pairs, pairs[i].0)|
    decreases |pairs|
  {
    var n := |pairs| - 1;
    if i < n && pairs[n].0 != pairs[i].0 {
      PairOccurs(pairs[..n], i);
      assert pairs[..n][i] == pairs[i];
    }
  }

  /** Every token's term is in the vocabulary built from the tokens. */
  lemma AllTermsKnown(pairs: seq<(string, int)>, i: int)
    requires 0 <= i < |pairs|
    ensures Vocabulary.Get(Vocabulary.AddAll(Vocabulary.Empty(), pairs), pairs[i].0).Some?
  {
    PairOccurs(pairs, i);
    Vocabulary.AddAllLookup(pairs, pairs[i].0);
  }

  /**
   * On the tokens of an archive, the first pass succeeds as soon as there is
   * one token: the number of documents lies between 1 and the number of
   * files, the average is the plain quotient, and every term's collection
   * and document frequencies are its number of occurrences and of distinct
   * documents.
   */
  lemma FirstPassOfStream(entries: seq<ZipEntry>, term: string)
    requires Stream(entries).Success? && 0 < |Stream(entries).value|
    ensures var tokens := Stream(entries).value;
      && BuildVocabulary(tokens).Success?
      && 1 <= BuildVocabulary(tokens).value.numberOfDocuments <= FileCount(entries)
      && BuildVocabulary(tokens).value.averageDocumentLength == |tokens| / BuildVocabulary(tokens).value.numberOfDocuments
    ensures var tokens := Stream(entries).value;
      term in Vocabulary.FirstSeen(Pairs(tokens)) ==>
        && BuildVocabulary(tokens).Success?
        && Vocabulary.Get(BuildVocabulary(tokens).value.vocab, term).Some?
        && var e := Vocabulary.Get(BuildVocabulary(tokens).value.vocab, term).value;
        && e.collectionFrequency == |Vocabulary.Occurrences(Pairs(tokens), term)|
        && e.docFrequency == |Vocabulary.ToSet(Vocabulary.Occurrences(Pairs(tokens), term))|
  {
    var tokens := Stream(entries).value;
    StreamDocumentIds(entries);
    assert 1 <= tokens[|tokens| - 1].doc.id;
    var pairs := Pairs(tokens);
    if term in Vocabulary.FirstSeen(pairs) {
      assert Vocabulary.NonDecreasing(Vocabulary.Docs(pairs)) by {
        forall i, j | 0 <= i < j < |pairs| ensures Vocabulary.Docs(pairs)[i] <= Vocabulary.Docs(pairs)[j] {
          assert tokens[i].doc.id <= tokens[j].doc.id;
        }
      }
      Vocabulary.CountsOfSortedStream(pairs, term);
    }
  }

  // ---------------------------------------------------------------- second pass: blocks

  const BLOCK_SIZE_IN_BYTES := 10 * 1024 * 1024
  /** The memory charged per token drawn. */
  const TOKEN_COST := 16
  /** The tokens a full block holds. */
  const BLOCK_TOKENS := 655360

  /** The tokens a block takes when `available` remain in the stream. */
  function BlockLength(available: nat): (n: nat)
    ensures n <= available && n <= BLOCK_TOKENS
    ensures n < BLOCK_TOKENS ==> n == available
  {
    if available < BLOCK_TOKENS then available else BLOCK_TOKENS
  }

  /**
   * The inner loop's budget: tokens are drawn while some remain and the
   * running counter, 16 per token, is below the block size.
   */
  method DrawBlock(available: nat) returns (taken: nat)
    ensures taken == BlockLength(available)
  {
    var counter := 0;
    taken := 0;
    while taken < available && counter < BLOCK_SIZE_IN_BYTES
      invariant taken <= available && taken <= BLOCK_TOKENS
      invariant counter == TOKEN_COST * taken
    {
      counter := counter + TOKEN_COST;
      taken := taken + 1;
    }
  }

  /** The stream cut into blocks, each as long as the budget allows. */
  function Cut<T>(xs: seq<T>): seq<seq<T>>
    decreases |xs|
  {
    if |xs| == 0 then []
    else
      var n := BlockLength(|xs|);
      [xs[..n]] + Cut(xs[n..])
  }

  /**
   * The blocks together are the stream; every block holds between 1 and
   * 655360 tokens, and every block but the last exactly 655360.
   */
  lemma {:induction false} CutShape<T>(xs: seq<T>)
    ensures ArffWriter.Concat(Cut(xs)) == xs
    ensures forall i | 0 <= i < |Cut(xs)| :: 0 < |Cut(xs)[i]| <= BLOCK_TOKENS
    ensures forall i | 0 <= i < |Cut(xs)| - 1 :: |Cut(xs)[i]| == BLOCK_TOKENS
    decreases |xs|
  {
    if |xs| != 0 {
      var n := BlockLength(|xs|);
      CutShape(xs[n..]);
      var c := Cut(xs);
      assert c[1..] == Cut(xs[n..]);
      assert xs[..n] + xs[n..] == xs;
      forall i | 0 <= i < |c| - 1 ensures |c[i]| == BLOCK_TOKENS {
        if i > 0 {
          assert c[i] == Cut(xs[n..])[i - 1];
        }
      }
    }
  }

  // ---------------------------------------------------------------- second pass: counting

  /** The stored count of `termID` in the row of `d`, 0 when either is absent. */
  function Frequency(m: Matrix, d: int, termID: int): nat {
    DocumentTermList.TermFrequency(OrderedMap.Get(m, d).GetOr([]), termID)
  }

  lemma RowOfValid(m: Matrix, d: int)
    requires DocumentTermMatrix.ValidMatrix(m) && OrderedMap.HasKey(m, d)
    ensures DocumentTermList.ValidRow(OrderedMap.Get(m, d).value)
  {
    var i := OrderedMap.Find(m, d);
    assert OrderedMap.Get(m, d) == Some(m[i].1);
  }

  /**
   * `currentTermList.add(termID, value)` on the row of `d`, which the program
   * holds by reference. A document the matrix does not hold has no row in it
   * to change.
   */
  function AddToRow(m: Matrix, d: int, termID: int, value: nat): (r: Matrix)
    ensures OrderedMap.Keys(r) == OrderedMap.Keys(m)
    ensures OrderedMap.HasKey(m, d) ==> forall t :: Frequency(r, d, t) == Frequency(m, d, t) + (if t == termID then value else 0)
    ensures forall e | e != d :: OrderedMap.Get(r, e) == OrderedMap.Get(m, e)
    ensures DocumentTermMatrix.ValidMatrix(m) ==> DocumentTermMatrix.ValidMatrix(r)
  {
    if OrderedMap.HasKey(m, d) then
      var row := OrderedMap.Get(m, d).value;
      assert DocumentTermMatrix.ValidMatrix(m) ==> DocumentTermList.ValidRow(row) by {
        if DocumentTermMatrix.ValidMatrix(m) {
          RowOfValid(m, d);
        }
      }
      DocumentTermMatrix.SetRow(m, d, DocumentTermList.AddValue(row, termID, value))
    else m
  }

  /** The block matrix while tokens are counted, and the document of the last token drawn. */
  datatype Tally = Tally(matrix: Matrix, last: Option<int>)

  /**
   * The program only skips `addDoc` for a token of the last document drawn,
   * which holds when that document already has its row.
   */
  predicate Continues(t: Tally, p: (int, int)) {
    t.last == Some(p.0) ==> OrderedMap.HasKey(t.matrix, p.0)
  }

  /**
   * One token `(document id, term id)`: a document other than the last one
   * drawn gets its row, then the term's count in that row goes up by one.
   */
  function CountToken(t: Tally, p: (int, int)): (r: Tally)
    ensures r.last == Some(p.0)
    ensures Continues(t, p) ==> OrderedMap.HasKey(r.matrix, p.0)
    ensures Continues(t, p) ==> OrderedMap.Keys(r.matrix) == Extend(OrderedMap.Keys(t.matrix), p.0)
  {
    var m := if t.last != Some(p.0) then DocumentTermMatrix.AddDoc(t.matrix, p.0).0 else t.matrix;
    assert Continues(t, p) ==> OrderedMap.HasKey(m, p.0) by {
      if t.last != Some(p.0) {
        var a := DocumentTermMatrix.AddDoc(t.matrix, p.0);
        assert OrderedMap.Get(a.0, p.0) == Some(a.1);
      }
    }
    OrderedMap.InKeys(t.matrix, p.0);
    Tally(AddToRow(m, p.0, p.1, 1), Some(p.0))
  }

  /** Counting the tokens one after the other; the last one drawn always has its row. */
  function CountTokens(t: Tally, ps: seq<(int, int)>): (r: Tally)
    ensures 0 < |ps| && Continues(t, ps[0]) ==>
      r.last == Some(ps[|ps| - 1].0) && OrderedMap.HasKey(r.matrix, ps[|ps| - 1].0)
    decreases |ps|
  {
    if |ps| == 0 then t
    else
      var q := CountTokens(t, ps[..|ps| - 1]);
      assert 1 < |ps| ==> ps[..|ps| - 1][0] == ps[0];
      CountToken(q, ps[|ps| - 1])
  }

  /** Counting keeps the matrix valid: distinct documents, rows with distinct term ids. */
  lemma {:induction false} CountTokensValid(t: Tally, ps: seq<(int, int)>)
    requires DocumentTermMatrix.ValidMatrix(t.matrix)
    ensures DocumentTermMatrix.ValidMatrix(CountTokens(t, ps).matrix)
    decreases |ps|
  {
    if |ps| != 0 {
      var q := CountTokens(t, ps[..|ps| - 1]);
      CountTokensValid(t, ps[..|ps| - 1]);
      var m := if q.last != Some(ps[|ps| - 1].0) then DocumentTermMatrix.AddDoc(q.matrix, ps[|ps| - 1].0).0 else q.matrix;
      assert DocumentTermMatrix.ValidMatrix(m);
      assert DocumentTermMatrix.ValidMatrix(AddToRow(m, ps[|ps| - 1].0, ps[|ps| - 1].1, 1));
    }
  }

  /**
   * The start of a block: when the first token continues the document of the
   * previous block's last token, that document gets its row first.
   */
  function StartBlock(last: Option<int>, ps: seq<(int, int)>): (r: Tally)
    ensures DocumentTermMatrix.ValidMatrix(r.matrix)
  {
    if last.Some? && 0 < |ps| && ps[0].0 == last.value then Tally([(last.value, [])], last) else Tally([], last)
  }

  /** A block's matrix: its tokens counted, then every row sorted by term id. */
  function CountBlock(last: Option<int>, ps: seq<(int, int)>): Matrix {
    var m := CountTokens(StartBlock(last, ps), ps).matrix;
    assert DocumentTermMatrix.ValidMatrix(m) by {
      CountTokensValid(StartBlock(last, ps), ps);
    }
    DocumentTermMatrix.SortTermListingsByID(m)
  }

  /** A key sequence with `d` appended unless it is already there. */
  function Extend(ks: seq<int>, d: int): seq<int> {
    if d in ks then ks else ks + [d]
  }

  /** The documents of the pairs, in order of first appearance. */
  function DocsFirstSeen(ps: seq<(int, int)>): (r: seq<int>)
    ensures 0 < |ps| ==> ps[|ps| - 1].0 in r
    decreases |ps|
  {
    if |ps| == 0 then []
    else
      Extend(DocsFirstSeen(ps[..|ps| - 1]), ps[|ps| - 1].0)
  }

  /** The number of tokens of document `d` with term id `termID`. */
  function PairCount(ps: seq<(int, int)>, d: int, termID: int): nat
    decreases |ps|
  {
    if |ps| == 0 then 0
    else PairCount(ps[..|ps| - 1], d, termID) + (if ps[|ps| - 1] == (d, termID) then 1 else 0)
  }

  /** The start of a block as `StartBlock` makes it: either empty, or the first document's empty row. */
  predicate StartsWell(start: Tally, ps: seq<(int, int)>) {
    0 < |ps| &&
    ((start.matrix == [] && start.last != Some(ps[0].0)) ||
     (start.matrix == [(ps[0].0, [])] && start.last == Some(ps[0].0)))
  }

  /** At the start of a block, a continued document already has its empty row and nothing else counts. */
  lemma StartRows(start: Tally, ps: seq<(int, int)>, d: int, termID: int)
    requires StartsWell(start, ps)
    ensures Continues(start, ps[0])
    ensures Frequency(start.matrix, d, termID) == 0
  {
    if start.matrix != [] {
      assert start.matrix[0].0 == ps[0].0;
      assert OrderedMap.Get(start.matrix, d).GetOr([]) == [];
    }
  }

  /** The first token of a block puts its document at the front of the keys. */
  lemma StartKeys(start: Tally, ps: seq<(int, int)>)
    requires StartsWell(start, ps)
    ensures OrderedMap.Keys(CountToken(start, ps[0]).matrix) == [ps[0].0]
  {
    StartRows(start, ps, 0, 0);
    var ks := OrderedMap.Keys(start.matrix);
    assert ks == [] || ks == [ps[0].0];
    assert Extend(ks, ps[0].0) == [ps[0].0];
  }

  /** The step of the key order: the prefix's documents, and the last one unless it was seen. */
  lemma CountTokensKeysStep(t: Tally, start: Tally, ps: seq<(int, int)>)
    requires 1 < |ps| && t == CountTokens(start, ps[..|ps| - 1])
    requires Continues(t, ps[|ps| - 1])
    requires OrderedMap.Keys(t.matrix) == DocsFirstSeen(ps[..|ps| - 1])
    ensures OrderedMap.Keys(CountTokens(start, ps).matrix) == DocsFirstSeen(ps)
  {
  }

  /** The rows of a counted block are its documents in order of first appearance. */
  lemma {:induction false} CountTokensKeys(start: Tally, ps: seq<(int, int)>)
    requires StartsWell(start, ps)
    ensures OrderedMap.Keys(CountTokens(start, ps).matrix) == DocsFirstSeen(ps)
    decreases |ps|
  {
    var n := |ps| - 1;
    var p := ps[..n];
    if n == 0 {
      StartKeys(start, ps);
    } else {
      assert p[0] == ps[0];
      StartRows(start, ps, 0, 0);
      CountTokensKeys(start, p);
      CountTokensKeysStep(CountTokens(start, p), start, ps);
    }
  }

  /** A new row is empty, so `addDoc` changes no count and leaves the document with a row. */
  lemma AddDocFrequency(m: Matrix, doc: int, d: int, termID: int)
    ensures OrderedMap.HasKey(DocumentTermMatrix.AddDoc(m, doc).0, doc)
    ensures Frequency(DocumentTermMatrix.AddDoc(m, doc).0, d, termID) == Frequency(m, d, termID)
  {
    var a := DocumentTermMatrix.AddDoc(m, doc);
    assert OrderedMap.Get(a.0, doc) == Some(a.1);
  }

  /** Adding to a row that exists raises exactly that document's count of that term id. */
  lemma AddToRowFrequency(m: Matrix, doc: int, id: int, value: nat, d: int, termID: int)
    requires OrderedMap.HasKey(m, doc)
    ensures Frequency(AddToRow(m, doc, id, value), d, termID) == Frequency(m, d, termID) + (if (doc, id) == (d, termID) then value else 0)
  {
    if d != doc {
      assert OrderedMap.Get(AddToRow(m, doc, id, value), d) == OrderedMap.Get(m, d);
    }
  }

  /** One more token raises exactly its own pair's count. */
  lemma CountTokenFrequency(t: Tally, p: (int, int), d: int, termID: int)
    requires Continues(t, p)
    ensures Frequency(CountToken(t, p).matrix, d, termID) == Frequency(t.matrix, d, termID) + (if p == (d, termID) then 1 else 0)
  {
    var m := if t.last != Some(p.0) then DocumentTermMatrix.AddDoc(t.matrix, p.0).0 else t.matrix;
    if t.last != Some(p.0) {
      AddDocFrequency(t.matrix, p.0, d, termID);
    }
    AddToRowFrequency(m, p.0, p.1, 1, d, termID);
  }

  /** The step of the count: the prefix's counts plus the last token. */
  lemma CountTokensFrequencyStep(t: Tally, start: Tally, ps: seq<(int, int)>, d: int, termID: int)
    requires 0 < |ps| && t == CountTokens(start, ps[..|ps| - 1])
    requires Continues(t, ps[|ps| - 1])
    requires Frequency(t.matrix, d, termID) == PairCount(ps[..|ps| - 1], d, termID)
    ensures Frequency(CountTokens(start, ps).matrix, d, termID) == PairCount(ps, d, termID)
  {
    CountTokenFrequency(t, ps[|ps| - 1], d, termID);
  }

  /** A counted block holds, for every document and term id, the number of its tokens. */
  lemma {:induction false} CountTokensFrequency(start: Tally, ps: seq<(int, int)>, d: int, termID: int)
    requires StartsWell(start, ps)
    ensures Frequency(CountTokens(start, ps).matrix, d, termID) == PairCount(ps, d, termID)
    decreases |ps|
  {
    var n := |ps| - 1;
    var p := ps[..n];
    StartRows(start, ps, d, termID);
    if n == 0 {
      CountTokenFrequency(start, ps[0], d, termID);
    } else {
      assert p[0] == ps[0];
      CountTokensFrequency(start, p, d, termID);
      CountTokensFrequencyStep(CountTokens(start, p), start, ps, d, termID);
    }
  }

  /** Sorting the rows changes no count. */
  lemma SortedFrequency(m: Matrix, d: int, termID: int)
    requires DocumentTermMatrix.ValidMatrix(m)
    ensures Frequency(DocumentTermMatrix.SortTermListingsByID(m), d, termID) == Frequency(m, d, termID)
  {
    var r := DocumentTermMatrix.SortTermListingsByID(m);
    OrderedMap.InKeys(m, d);
    OrderedMap.InKeys(r, d);
    if OrderedMap.HasKey(m, d) {
      var i := OrderedMap.Find(m, d);
      assert OrderedMap.Keys(r)[i] == d;
      assert OrderedMap.Get(r, d) == Some(r[i].1);
      assert OrderedMap.Get(r[i].1, termID) == OrderedMap.Get(m[i].1, termID);
    }
  }

  /**
   * A block matrix has one row per document of the block, in order of first
   * appearance (a document continued from the previous block included),
   * every row sorted by term id, and every count equal to the number of the
   * block's tokens of that document and term id.
   */
  lemma BlockCounts(last: Option<int>, ps: seq<(int, int)>, d: int, termID: int)
    requires 0 < |ps|
    ensures var m := CountBlock(last, ps);
      && OrderedMap.Keys(m) == DocsFirstSeen(ps)
      && (forall i | 0 <= i < |m| :: OrderedMap.StrictlySorted(m[i].1))
      && Frequency(m, d, termID) == PairCount(ps, d, termID)
  {
    CountTokensKeys(StartBlock(last, ps), ps);
    BlockFrequency(last, ps, d, termID);
  }

  /** The counts of a block matrix, on their own. */
  lemma BlockFrequency(last: Option<int>, ps: seq<(int, int)>, d: int, termID: int)
    requires 0 < |ps|
    ensures Frequency(CountBlock(last, ps), d, termID) == PairCount(ps, d, termID)
  {
    var start := StartBlock(last, ps);
    CountTokensFrequency(start, ps, d, termID);
    CountTokensValid(start, ps);
    SortedFrequency(CountTokens(start, ps).matrix, d, termID);
  }

  /** A document cut by a block boundary has a row in both blocks. */
  lemma StraddlingDocument(last: Option<int>, ps1: seq<(int, int)>, ps2: seq<(int, int)>)
    requires 0 < |ps1| && 0 < |ps2| && ps1[|ps1| - 1].0 == ps2[0].0
    ensures ps2[0].0 in OrderedMap.Keys(CountBlock(last, ps1))
    ensures ps2[0].0 in OrderedMap.Keys(CountBlock(Some(ps1[|ps1| - 1].0), ps2))
  {
    BlockKeys(last, ps1);
    BlockKeys(Some(ps1[|ps1| - 1].0), ps2);
    assert ps2[0].0 in DocsFirstSeen(ps2) by {
      assert ps2[..1][0] == ps2[0];
      DocsFirstSeenGrows(ps2, 1);
    }
  }

  lemma BlockKeys(last: Option<int>, ps: seq<(int, int)>)
    requires 0 < |ps|
    ensures OrderedMap.Keys(CountBlock(last, ps)) == DocsFirstSeen(ps)
  {
    CountTokensKeys(StartBlock(last, ps), ps);
  }

  /** The documents of a prefix stay among the documents of the whole. */
  lemma {:induction false} DocsFirstSeenGrows(ps: seq<(int, int)>, k: int)
    requires 0 <= k <= |ps|
    ensures forall d | d in DocsFirstSeen(ps[..k]) :: d in DocsFirstSeen(ps)
    decreases |ps|
  {
    if k < |ps| {
      var n := |ps| - 1;
      assert ps[..n][..k] == ps[..k];
      DocsFirstSeenGrows(ps[..n], k);
    } else {
      assert ps[..k] == ps;
    }
  }

  // ---------------------------------------------------------------- second pass: whole stream

  /** The pairs `(document id, term id)` of the tokens; a term the vocabulary does not know is a null entry. */
  function TermIDs(v: Vocabulary.Vocab, tokens: seq<Token>): (r: Result<seq<(int, int)>>)
    ensures r.Success? <==> forall i | 0 <= i < |tokens| :: Vocabulary.Get(v, tokens[i].term).Some?
    ensures r.Failure? ==> r.error == NullPointer
    ensures r.Success? ==> |r.value| == |tokens|
    ensures r.Success? ==>
      forall i | 0 <= i < |tokens| :: r.value[i] == (tokens[i].doc.id, Vocabulary.Get(v, tokens[i].term).value.termID)
    decreases |tokens|
  {
    if |tokens| == 0 then Success([])
    else
      match Vocabulary.Get(v, tokens[0].term)
      case None => Failure(NullPointer)
      case Some(e) =>
        var rest := TermIDs(v, tokens[1..]);
        assert forall i | 1 <= i < |tokens| :: tokens[i] == tokens[1..][i - 1];
        if rest.Failure? then Failure(rest.error) else Success([(tokens[0].doc.id, e.termID)] + rest.value)
  }

  /** The blocks counted in turn, each starting from the last document of the block before. */
  function CountBlocks(last: Option<int>, blocks: seq<seq<(int, int)>>): (r: seq<Matrix>)
    requires forall i | 0 <= i < |blocks| :: 0 < |blocks[i]|
    ensures |r| == |blocks|
  {
    EachBlock(CountBlock, last, blocks)
  }

  /** `count` applied to every block, each time with the last document of the block before. */
  function EachBlock<M>(count: (Option<int>, seq<(int, int)>) -> M, last: Option<int>, blocks: seq<seq<(int, int)>>): (r: seq<M>)
    requires forall i | 0 <= i < |blocks| :: 0 < |blocks[i]|
    ensures |r| == |blocks|
    decreases |blocks|
  {
    if |blocks| == 0 then []
    else
      assert forall j | 0 <= j < |blocks| - 1 :: blocks[1..][j] == blocks[j + 1];
      [count(last, blocks[0])] + EachBlock(count, Some(LastDoc(blocks[0])), blocks[1..])
  }

  /** Where block `i` starts counting: from `last`, or from the last document of the block before. */
  function Before(last: Option<int>, blocks: seq<seq<(int, int)>>, i: int): Option<int>
    requires 0 <= i < |blocks| && forall j | 0 <= j < |blocks| :: 0 < |blocks[j]|
  {
    if i == 0 then last else Some(LastDoc(blocks[i - 1]))
  }

  /** Block `i` is counted from the document the block before it ended with. */
  lemma {:induction false} EachBlockAt<M>(count: (Option<int>, seq<(int, int)>) -> M, last: Option<int>, blocks: seq<seq<(int, int)>>, i: int)
    requires forall j | 0 <= j < |blocks| :: 0 < |blocks[j]|
    requires 0 <= i < |blocks|
    ensures EachBlock(count, last, blocks)[i] == count(Before(last, blocks, i), blocks[i])
    decreases i
  {
    var tail := blocks[1..];
    assert forall j | 0 <= j < |tail| :: tail[j] == blocks[j + 1];
    if i > 0 {
      EachBlockAt(count, Some(LastDoc(blocks[0])), tail, i - 1);
      assert Before(Some(LastDoc(blocks[0])), tail, i - 1) == Before(last, blocks, i);
    }
  }

  /** The document of a block's last token: the one a following block continues. */
  function LastDoc(ps: seq<(int, int)>): int
    requires 0 < |ps|
  {
    ps[|ps| - 1].0
  }

  /**
   * The `documents` map: every token whose document differs from the one
   * before it puts its document under the document's id. (At a block start
   * the continued document is put again under its own id, which changes
   * nothing.)
   */
  function DocumentsOf(tokens: seq<Token>): seq<(int, Document)>
    decreases |tokens|
  {
    if |tokens| == 0 then []
    else
      var n := |tokens| - 1;
      var m := DocumentsOf(tokens[..n]);
      if n == 0 || tokens[n - 1].doc != tokens[n].doc then OrderedMap.Put(m, tokens[n].doc.id, tokens[n].doc) else m
  }

  /** Tokens with the same document id carry the same document. */
  predicate IdsIdentify(tokens: seq<Token>) {
    forall i, j | 0 <= i < |tokens| && 0 <= j < |tokens| && tokens[i].doc.id == tokens[j].doc.id :: tokens[i].doc == tokens[j].doc
  }

  lemma IdsIdentifyPrefix(tokens: seq<Token>, n: int)
    requires IdsIdentify(tokens) && 0 <= n <= |tokens|
    ensures IdsIdentify(tokens[..n])
  {
    var p := tokens[..n];
    forall a, b | 0 <= a < |p| && 0 <= b < |p| && p[a].doc.id == p[b].doc.id ensures p[a].doc == p[b].doc {
      assert p[a] == tokens[a] && p[b] == tokens[b];
    }
  }

  /** A document already known under id `k` stays known after one more token. */
  lemma DocumentsOfStep(tokens: seq<Token>, k: int, doc: Document)
    requires 0 < |tokens| && OrderedMap.Get(DocumentsOf(tokens[..|tokens| - 1]), k) == Some(doc)
    requires k == tokens[|tokens| - 1].doc.id ==> doc == tokens[|tokens| - 1].doc
    ensures OrderedMap.Get(DocumentsOf(tokens), k) == Some(doc)
  {
  }

  /** Every token's document can be looked up by its id. */
  lemma {:induction false} DocumentsKnown(tokens: seq<Token>, i: int)
    requires IdsIdentify(tokens) && 0 <= i < |tokens|
    ensures OrderedMap.Get(DocumentsOf(tokens), tokens[i].doc.id) == Some(tokens[i].doc)
    decreases |tokens|
  {
    var n := |tokens| - 1;
    if i < n || (n > 0 && tokens[n - 1].doc == tokens[n].doc) {
      var j := if i < n then i else n - 1;
      IdsIdentifyPrefix(tokens, n);
      DocumentsKnown(tokens[..n], j);
      assert tokens[..n][j] == tokens[j];
      DocumentsOfStep(tokens, tokens[j].doc.id, tokens[j].doc);
    }
  }

  /** What the second pass hands to the merge: the block matrices and the documents met. */
  datatype SecondPass = SecondPass(blocks: seq<Matrix>, documents: seq<(int, Document)>)

  /**
   * `buildDocumentTermMatrix` up to the merge: the stream cut into blocks,
   * every block counted and sorted, and the documents collected.
   */
  function BuildBlocks(v: Vocabulary.Vocab, tokens: seq<Token>): (r: Result<SecondPass>)
    ensures r.Success? <==> forall i | 0 <= i < |tokens| :: Vocabulary.Get(v, tokens[i].term).Some?
  {
    var ids :- TermIDs(v, tokens);
    CutShape(ids);
    Success(SecondPass(CountBlocks(None, Cut(ids)), DocumentsOf(tokens)))
  }

  /** Counts over a concatenation add up. */
  lemma {:induction false} PairCountAppend(a: seq<(int, int)>, b: seq<(int, int)>, d: int, termID: int)
    ensures PairCount(a + b, d, termID) == PairCount(a, d, termID) + PairCount(b, d, termID)
    decreases |b|
  {
    if |b| > 0 {
      var n := |b| - 1;
      assert (a + b)[..|a + b| - 1] == a + b[..n];
      PairCountAppend(a, b[..n], d, termID);
    } else {
      assert a + b == a;
    }
  }

  /** The count of a document and term id over all block matrices. */
  function TotalFrequency(ms: seq<Matrix>, d: int, termID: int): nat
    decreases |ms|
  {
    if |ms| == 0 then 0 else Frequency(ms[0], d, termID) + TotalFrequency(ms[1..], d, termID)
  }

  /** Matrices that count their blocks one by one count the blocks' concatenation in total. */
  lemma {:induction false} TotalOfBlocks(ms: seq<Matrix>, blocks: seq<seq<(int, int)>>, d: int, termID: int)
    requires |ms| == |blocks|
    requires forall i | 0 <= i < |ms| :: Frequency(ms[i], d, termID) == PairCount(blocks[i], d, termID)
    ensures TotalFrequency(ms, d, termID) == PairCount(ArffWriter.Concat(blocks), d, termID)
    decreases |ms|
  {
    if |ms| > 0 {
      assert forall i | 0 <= i < |ms| - 1 :: ms[1..][i] == ms[i + 1] && blocks[1..][i] == blocks[i + 1];
      TotalOfBlocks(ms[1..], blocks[1..], d, termID);
      PairCountAppend(blocks[0], ArffWriter.Concat(blocks[1..]), d, termID);
    }
  }

  /** Over all blocks, every count is the number of tokens of that document and term id. */
  lemma CountBlocksTotal(last: Option<int>, blocks: seq<seq<(int, int)>>, d: int, termID: int)
    requires forall i | 0 <= i < |blocks| :: 0 < |blocks[i]|
    ensures TotalFrequency(CountBlocks(last, blocks), d, termID) == PairCount(ArffWriter.Concat(blocks), d, termID)
  {
    var ms := CountBlocks(last, blocks);
    forall i | 0 <= i < |ms| ensures Frequency(ms[i], d, termID) == PairCount(blocks[i], d, termID) {
      EachBlockAt(CountBlock, last, blocks, i);
      BlockFrequency(Before(last, blocks, i), blocks[i], d, termID);
    }
    TotalOfBlocks(ms, blocks, d, termID);
  }

  /**
   * No token is lost between the blocks: summed over all block matrices,
   * the count of a document and term id is the number of its tokens in the
   * stream.
   */
  lemma SecondPassCounts(v: Vocabulary.Vocab, tokens: seq<Token>, d: int, termID: int)
    requires BuildBlocks(v, tokens).Success?
    ensures TotalFrequency(BuildBlocks(v, tokens).value.blocks, d, termID) == PairCount(TermIDs(v, tokens).value, d, termID)
  {
    var ids := TermIDs(v, tokens).value;
    CutShape(ids);
    CountBlocksTotal(None, Cut(ids), d, termID);
  }

  /** The second pass never misses a term when it runs on the vocabulary of the first pass. */
  lemma SecondPassSucceeds(tokens: seq<Token>)
    requires BuildVocabulary(tokens).Success?
    ensures BuildBlocks(BuildVocabulary(tokens).value.vocab, tokens).Success?
  {
    var pairs := Pairs(tokens);
    forall i | 0 <= i < |tokens| ensures Vocabulary.Get(BuildVocabulary(tokens).value.vocab, tokens[i].term).Some? {
      AllTermsKnown(pairs, i);
    }
  }
}
