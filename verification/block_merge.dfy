/**
 * The merge of the block matrix files into the two ARFF files: one reader per
 * block file sits in a priority queue ordered by its current entry and its
 * number; the reader with the least entry is polled, its document gets a row
 * in the merge matrix, and every entry it has for that document is added to
 * the row. Whenever more than `ENTRIES_PER_PART` entries have been added, the
 * matrix is thresholded, written to the tf file, turned into idf weights,
 * written to the idf file and cleared. After the loop the rest goes out the
 * same way.
 *
 * Each reader is modelled by the sequence of entries it hands out; the block
 * file reader itself is modelled in `BlockFiles`. Only the single-reader path
 * is modelled: it is the one the program takes whenever no two readers are
 * ever current on the same document, which holds when the block files share
 * no document.
 */
module BlockMerge {
  import opened Wrappers
  import OrderedMap
  import DocumentTermList
  import DocumentTermMatrix
  import opened Orderings
  import BlockIndexer
  import ArffWriter
  import CollectionStatistics
  import Text

  type Matrix = DocumentTermMatrix.Matrix

  /** `NUMBER_OF_ENTRIES_TO_WRITE_IN_ONE_BLOCK`: a part is written once the counter passes it. */
  const ENTRIES_PER_PART: int := 10 * 1024

  /** The counter runs from 0 to `ENTRIES_PER_PART` and wraps to 0 on a flush. */
  const CYCLE: int := ENTRIES_PER_PART + 1

  // ---------------------------------------------------------------- readers and the queue

  /** A block file reader in the queue: its number and the entries it has yet to hand out. */
  datatype Reader = Reader(number: int, entries: seq<MatrixEntry>)

  /** Every queued reader has a current entry. */
  predicate Live(q: seq<Reader>) {
    forall j | 0 <= j < |q| :: 0 < |q[j].entries|
  }

  /** What the queue's comparator sees of a reader. */
  function Queued(r: Reader): QueuedReader<MatrixEntry>
    requires 0 < |r.entries|
  {
    QueuedReader(r.entries[0], r.number)
  }

  predicate DistinctNumbers(q: seq<Reader>) {
    forall j, k | 0 <= j < k < |q| :: q[j].number != q[k].number
  }

  /**
   * The readers of the block files from index `i` on: file `k` gets number
   * `k`, and a file whose reader has no first entry is skipped.
   */
  function OpenFrom(files: seq<seq<MatrixEntry>>, i: nat): (q: seq<Reader>)
    requires i <= |files|
    ensures Live(q)
    ensures forall j | 0 <= j < |q| :: i <= q[j].number < |files| && q[j].entries == files[q[j].number]
    ensures forall j, k | 0 <= j < k < |q| :: q[j].number < q[k].number
    decreases |files| - i
  {
    if i == |files| then []
    else
      var rest := OpenFrom(files, i + 1);
      if |files[i]| == 0 then rest
      else
        var q := [Reader(i, files[i])] + rest;
        assert forall j | 0 < j < |q| :: q[j] == rest[j - 1];
        q
  }

  /** Every block file with a first entry has its reader in the queue. */
  lemma {:induction false} OpenFromCovers(files: seq<seq<MatrixEntry>>, i: nat, k: int)
    requires i <= k < |files| && 0 < |files[k]|
    ensures exists j | 0 <= j < |OpenFrom(files, i)| :: OpenFrom(files, i)[j].number == k
    decreases |files| - i
  {
    var q := OpenFrom(files, i);
    if k == i {
      assert q[0].number == k;
    } else {
      OpenFromCovers(files, i + 1, k);
      var rest := OpenFrom(files, i + 1);
      var j :| 0 <= j < |rest| && rest[j].number == k;
      if |files[i]| == 0 {
        assert q[j].number == k;
      } else {
        assert q[j + 1] == rest[j];
      }
    }
  }

  /** The queue after the readers of all block files have been added. */
  function OpenReaders(files: seq<seq<MatrixEntry>>): (q: seq<Reader>)
    ensures Live(q) && DistinctNumbers(q)
    ensures forall j | 0 <= j < |q| :: 0 <= q[j].number < |files| && q[j].entries == files[q[j].number]
    ensures forall j, k | 0 <= j < k < |q| :: q[j].number < q[k].number
  {
    OpenFrom(files, 0)
  }

  /**
   * Readers are numbered by block index, each reads its own block file, and
   * every block file with a first entry gets a reader.
   */
  lemma OpenReadersCover(files: seq<seq<MatrixEntry>>, k: int)
    requires 0 <= k < |files| && 0 < |files[k]|
    ensures exists j | 0 <= j < |OpenReaders(files)| :: OpenReaders(files)[j].number == k
  {
    OpenFromCovers(files, 0, k);
    assert OpenReaders(files) == OpenFrom(files, 0);
  }

  /** `poll`: the position of the reader the comparator puts first. */
  function MinIndex(q: seq<Reader>): (i: nat)
    requires 0 < |q| && Live(q)
    ensures i < |q|
    ensures forall j | 0 <= j < |q| :: !QueuedLess(Queued(q[j]), Queued(q[i]))
    decreases |q|
  {
    var n := |q| - 1;
    if n == 0 then 0
    else
      assert forall j | 0 <= j < n :: q[..n][j] == q[j];
      var k := MinIndex(q[..n]);
      if QueuedLess(Queued(q[n]), Queued(q[k])) then n else k
  }

  /**
   * With distinct reader numbers the polled reader comes before every other
   * queued reader by the program's comparator.
   */
  lemma PollFirst(q: seq<Reader>)
    requires 0 < |q| && Live(q) && DistinctNumbers(q)
    ensures forall j | 0 <= j < |q| && j != MinIndex(q) ::
      CompareQueued(CompareMatrixEntries, Queued(q[MinIndex(q)]), Queued(q[j])) < 0
  {
    var i := MinIndex(q);
    forall j | 0 <= j < |q| && j != i
      ensures CompareQueued(CompareMatrixEntries, Queued(q[i]), Queued(q[j])) < 0
    {
      assert q[i].number != q[j].number;
      QueuedMatrixOrder(Queued(q[i]), Queued(q[j]));
    }
  }

  /** The readers other than the one at `i`, with that one added back when it has entries left. */
  function Requeue(q: seq<Reader>, i: nat, rest: seq<MatrixEntry>): seq<Reader>
    requires i < |q|
  {
    q[..i] + q[i + 1..] + (if |rest| == 0 then [] else [Reader(q[i].number, rest)])
  }

  // ---------------------------------------------------------------- sums over the queue

  /** The sum of the values of the entries for document `d` and term id `t`. */
  function EntrySum(es: seq<MatrixEntry>, d: int, t: int): nat
    decreases |es|
  {
    if |es| == 0 then 0
    else (if es[0].docID == d && es[0].termID == t then es[0].value else 0) + EntrySum(es[1..], d, t)
  }

  /** What is summed over readers: their entries, or their values for one document and term id. */
  datatype Measure = Count | Values(d: int, t: int)

  function Weight(es: seq<MatrixEntry>, m: Measure): nat {
    match m
    case Count => |es|
    case Values(d, t) => EntrySum(es, d, t)
  }

  function SumOver(q: seq<Reader>, m: Measure): nat
    decreases |q|
  {
    if |q| == 0 then 0 else Weight(q[0].entries, m) + SumOver(q[1..], m)
  }

  lemma {:induction false} SumOverAppend(a: seq<Reader>, b: seq<Reader>, m: Measure)
    ensures SumOver(a + b, m) == SumOver(a, m) + SumOver(b, m)
    decreases |a|
  {
    if |a| == 0 {
      assert a + b == b;
    } else {
      assert (a + b)[1..] == a[1..] + b;
      SumOverAppend(a[1..], b, m);
    }
  }

  lemma SumOverSingle(x: Reader, m: Measure)
    ensures SumOver([x], m) == Weight(x.entries, m)
  {
    assert [x][1..] == [];
  }

  /** Taking the reader at `i` out of the queue takes its share out of a sum. */
  lemma SumOverRemove(q: seq<Reader>, i: nat, m: Measure)
    requires i < |q|
    ensures SumOver(q[..i] + q[i + 1..], m) + Weight(q[i].entries, m) == SumOver(q, m)
  {
    var a, x, b := q[..i], q[i], q[i + 1..];
    assert SumOver(a + ([x] + b), m) == SumOver(a, m) + Weight(x.entries, m) + SumOver(b, m) by {
      SumOverAppend(a, [x] + b, m);
      SumOverAppend([x], b, m);
      SumOverSingle(x, m);
    }
    SumOverAppend(a, b, m);
    assert q == a + ([x] + b);
  }

  /** Taking a reader out and putting back what is left of it changes a sum by the difference. */
  lemma SumOverRequeue(q: seq<Reader>, i: nat, rest: seq<MatrixEntry>, m: Measure)
    requires i < |q|
    ensures SumOver(Requeue(q, i, rest), m) + Weight(q[i].entries, m) == SumOver(q, m) + Weight(rest, m)
  {
    var tail: seq<Reader> := if |rest| == 0 then [] else [Reader(q[i].number, rest)];
    SumOverRemove(q, i, m);
    SumOverAppend(q[..i] + q[i + 1..], tail, m);
    if |rest| != 0 {
      SumOverSingle(Reader(q[i].number, rest), m);
    }
  }

  /** The entries all queued readers have yet to hand out. */
  function Size(q: seq<Reader>): nat {
    SumOver(q, Count)
  }

  // ---------------------------------------------------------------- the merge state

  /**
   * The merge's variables: the matrix being filled, the entry counter, the
   * parts written so far (as they went to the tf file) and the number of
   * entries the thresholds removed.
   */
  datatype Merge = Merge(matrix: Matrix, counter: int, parts: seq<Matrix>, thresholded: int)

  datatype Thresholds = Thresholds(lo: int, hi: int)

  /** The thresholds are applied only when one of them differs from its default. */
  predicate Thresholding(th: Thresholds) {
    th.lo > 0 || th.hi < Text.INT_MAX
  }

  function Start(): Merge {
    Merge([], 0, [], 0)
  }

  /**
   * A flush: the thresholds when set, then the part goes out (tf first, then
   * its idf weights), then the matrix is cleared and the counter reset. The
   * part written keeps the matrix's documents, and the removed entries are
   * counted.
   */
  function Flush(s: Merge, th: Thresholds): (r: Merge)
    ensures r.matrix == [] && r.counter == 0
    ensures |r.parts| == |s.parts| + 1 && r.parts[..|s.parts|] == s.parts
    ensures OrderedMap.Keys(r.parts[|s.parts|]) == OrderedMap.Keys(s.matrix)
    ensures r.thresholded == s.thresholded + DocumentTermMatrix.TotalEntries(s.matrix) - DocumentTermMatrix.TotalEntries(r.parts[|s.parts|])
    ensures !Thresholding(th) ==> r.parts[|s.parts|] == s.matrix
  {
    var (part, removed) := if Thresholding(th) then DocumentTermMatrix.ApplyTfThresholds(s.matrix, th.lo, th.hi) else (s.matrix, 0);
    var parts := s.parts + [part];
    assert parts[..|s.parts|] == s.parts;
    Merge([], 0, parts, s.thresholded + removed)
  }

  /** After a flush inside a document, the document gets a new row when its reader has more of it. */
  function Reopen(s: Merge, d: int, rest: seq<MatrixEntry>): Merge {
    if 0 < |rest| && rest[0].docID == d then s.(matrix := DocumentTermMatrix.AddDoc(s.matrix, d).0) else s
  }

  /** One entry of the current document goes into its row, with a flush when the counter passes the limit. */
  function Take(s: Merge, d: int, e: MatrixEntry, rest: seq<MatrixEntry>, th: Thresholds): Merge {
    var s1 := s.(matrix := BlockIndexer.AddToRow(s.matrix, d, e.termID, e.value), counter := s.counter + 1);
    if s1.counter > ENTRIES_PER_PART then Reopen(Flush(s1, th), d, rest) else s1
  }

  /**
   * How many entries at the front of `es` belong to document `d`: the ones
   * the lone active reader's loop takes for `d`.
   */
  function Run(d: int, es: seq<MatrixEntry>): (n: nat)
    ensures n <= |es|
    ensures forall k | 0 <= k < n :: es[k].docID == d
    ensures n == |es| || es[n].docID != d
    ensures 0 < |es| && es[0].docID == d ==> 0 < n
    decreases |es|
  {
    if |es| == 0 || es[0].docID != d then 0
    else
      var n := 1 + Run(d, es[1..]);
      assert forall k | 1 <= k < n :: es[k] == es[1..][k - 1];
      n
  }

  /** The lone active reader's loop: while its current entry belongs to document `d`, the entry is taken. */
  function Drain(s: Merge, d: int, es: seq<MatrixEntry>, th: Thresholds): Merge
    decreases |es|
  {
    if |es| == 0 || es[0].docID != d then s
    else Drain(Take(s, d, es[0], es[1..], th), d, es[1..], th)
  }

  /**
   * The queue after one round of the main loop on the single-reader path:
   * the least reader is polled and goes back under its number with what is
   * left after its current document's run, if anything is.
   */
  function NextQueue(q: seq<Reader>): (r: seq<Reader>)
    requires 0 < |q| && Live(q)
    ensures Live(r) && Size(r) < Size(q)
  {
    var i := MinIndex(q);
    var es := q[i].entries;
    RequeueShape(q, i, es[Run(es[0].docID, es)..]);
    Requeue(q, i, es[Run(es[0].docID, es)..])
  }

  /** The state after one round: the polled reader's document gets a row and its run is taken. */
  function NextState(q: seq<Reader>, s: Merge, th: Thresholds): Merge
    requires 0 < |q| && Live(q)
  {
    var es := q[MinIndex(q)].entries;
    var d := es[0].docID;
    Drain(s.(matrix := DocumentTermMatrix.AddDoc(s.matrix, d).0), d, es, th)
  }

  /** A reader that handed out at least one entry goes back with fewer entries, and all readers stay live. */
  lemma RequeueShape(q: seq<Reader>, i: nat, rest: seq<MatrixEntry>)
    requires i < |q| && Live(q) && |rest| < |q[i].entries|
    ensures Live(Requeue(q, i, rest)) && Size(Requeue(q, i, rest)) < Size(q)
  {
    SumOverRequeue(q, i, rest, Count);
    var r := Requeue(q, i, rest);
    forall j | 0 <= j < |r| ensures 0 < |r[j].entries| {
      if j < i {
        assert r[j] == q[j];
      } else if j < |q| - 1 {
        assert r[j] == q[j + 1];
      }
    }
  }

  /** The main loop: rounds until the queue is empty. */
  function MergeLoop(q: seq<Reader>, s: Merge, th: Thresholds): Merge
    requires Live(q)
    decreases Size(q)
  {
    if |q| == 0 then s else MergeLoop(NextQueue(q), NextState(q, s, th), th)
  }

  // ---------------------------------------------------------------- the single-reader path

  /** The documents among a reader's entries. */
  function Docs(es: seq<MatrixEntry>): set<int> {
    set k | 0 <= k < |es| :: es[k].docID
  }

  /** No two block files hold entries of the same document. */
  predicate DisjointFiles(files: seq<seq<MatrixEntry>>) {
    forall j, k | 0 <= j < k < |files| :: Docs(files[j]) !! Docs(files[k])
  }

  predicate DisjointDocs(q: seq<Reader>) {
    forall j, k | 0 <= j < k < |q| :: Docs(q[j].entries) !! Docs(q[k].entries)
  }

  lemma DocsSuffix(es: seq<MatrixEntry>, c: nat)
    requires c <= |es|
    ensures Docs(es[c..]) <= Docs(es)
  {
    forall x | x in Docs(es[c..]) ensures x in Docs(es) {
      var k :| 0 <= k < |es[c..]| && es[c..][k].docID == x;
      assert es[c + k].docID == x;
    }
  }

  /** Readers of files that share no document share no document. */
  lemma OpenReadersDisjoint(files: seq<seq<MatrixEntry>>)
    requires DisjointFiles(files)
    ensures DisjointDocs(OpenReaders(files))
  {
    var q := OpenReaders(files);
    forall j, k | 0 <= j < k < |q| ensures Docs(q[j].entries) !! Docs(q[k].entries) {
      var a, b := q[j].number, q[k].number;
      assert a < b && q[j].entries == files[a] && q[k].entries == files[b];
    }
  }

  /** Where each reader of the new queue comes from. */
  lemma RequeueAt(q: seq<Reader>, i: nat, rest: seq<MatrixEntry>, j: int)
    requires i < |q| && 0 <= j < |Requeue(q, i, rest)|
    ensures j < |q| - 1 ==> Requeue(q, i, rest)[j] == q[if j < i then j else j + 1]
    ensures j == |q| - 1 ==> Requeue(q, i, rest)[j] == Reader(q[i].number, rest)
  {
  }

  /**
   * A reader put back with a suffix of its entries keeps the queue free of
   * shared documents and of shared numbers.
   */
  lemma RequeueDisjoint(q: seq<Reader>, i: nat, c: nat)
    requires i < |q| && c <= |q[i].entries|
    ensures DisjointDocs(q) ==> DisjointDocs(Requeue(q, i, q[i].entries[c..]))
    ensures DistinctNumbers(q) ==> DistinctNumbers(Requeue(q, i, q[i].entries[c..]))
  {
    var rest := q[i].entries[c..];
    var r := Requeue(q, i, rest);
    DocsSuffix(q[i].entries, c);
    forall j, k | 0 <= j < k < |r|
      ensures DisjointDocs(q) ==> Docs(r[j].entries) !! Docs(r[k].entries)
      ensures DistinctNumbers(q) ==> r[j].number != r[k].number
    {
      RequeueAt(q, i, rest, j);
      RequeueAt(q, i, rest, k);
      var j' := if j < i then j else j + 1;
      assert r[j] == q[j'] && j' != i;
      if k < |q| - 1 {
        var k' := if k < i then k else k + 1;
        assert r[k] == q[k'] && j' < k';
      } else {
        assert r[k].entries == rest && r[k].number == q[i].number;
        if DisjointDocs(q) {
          if j' < i {
            assert Docs(q[j'].entries) !! Docs(q[i].entries);
          } else {
            assert Docs(q[i].entries) !! Docs(q[j'].entries);
          }
        }
      }
    }
  }

  /**
   * While the readers share no document, no queued reader other than the
   * polled one is current on the polled document, so the program's peek
   * loop adds no second active reader and the single-reader path runs.
   */
  lemma LoneReader(q: seq<Reader>)
    requires 0 < |q| && Live(q) && DisjointDocs(q)
    ensures forall j | 0 <= j < |q| && j != MinIndex(q) :: q[j].entries[0].docID != q[MinIndex(q)].entries[0].docID
  {
    var i := MinIndex(q);
    var d := q[i].entries[0].docID;
    forall j | 0 <= j < |q| && j != i ensures q[j].entries[0].docID != d {
      assert q[j].entries[0].docID in Docs(q[j].entries);
      assert d in Docs(q[i].entries);
      if j < i {
        assert Docs(q[j].entries) !! Docs(q[i].entries);
      } else {
        assert Docs(q[i].entries) !! Docs(q[j].entries);
      }
    }
  }

  /** One round keeps the queue free of shared documents. */
  lemma SingleReaderPath(q: seq<Reader>)
    requires 0 < |q| && Live(q) && DisjointDocs(q)
    ensures DisjointDocs(NextQueue(q))
  {
    var es := q[MinIndex(q)].entries;
    RequeueDisjoint(q, MinIndex(q), Run(es[0].docID, es));
  }

  /** One round keeps the readers' numbers distinct. */
  lemma RoundKeepsNumbers(q: seq<Reader>)
    requires 0 < |q| && Live(q) && DistinctNumbers(q)
    ensures DistinctNumbers(NextQueue(q))
  {
    var es := q[MinIndex(q)].entries;
    RequeueDisjoint(q, MinIndex(q), Run(es[0].docID, es));
  }

  // ---------------------------------------------------------------- the entry counter

  /** Every part written so far holds at least one document. */
  predicate PartsNonEmpty(parts: seq<Matrix>) {
    forall k | 0 <= k < |parts| :: 0 < |parts[k]|
  }

  /** Every counter value that leaves `c` entries over whole cycles is `x` modulo `CYCLE`. */
  lemma CycleMod(x: int, c: int, p: int)
    requires 0 <= c < CYCLE && 0 <= p && x == c + CYCLE * p
    ensures x % CYCLE == c
  {
  }

  /** A flush of a matrix with a row writes a part with a row. */
  lemma FlushNonEmpty(s: Merge, th: Thresholds)
    requires 0 < |s.matrix| && PartsNonEmpty(s.parts)
    ensures PartsNonEmpty(Flush(s, th).parts)
  {
    var r := Flush(s, th);
    assert |OrderedMap.Keys(r.parts[|s.parts|])| == |OrderedMap.Keys(s.matrix)|;
    forall k | 0 <= k < |r.parts| ensures 0 < |r.parts[k]| {
      if k < |s.parts| {
        assert r.parts[k] == r.parts[..|s.parts|][k];
      }
    }
  }

  /** The counter plus a full cycle for every part written: the entries taken so far. */
  function Taken(s: Merge): int {
    s.counter + CYCLE * |s.parts|
  }

  /** A document with more entries to come keeps its row across a take, flushed or not. */
  lemma TakeKeepsRow(s: Merge, d: int, e: MatrixEntry, rest: seq<MatrixEntry>, th: Thresholds)
    requires OrderedMap.HasKey(s.matrix, d)
    ensures 0 < |rest| && rest[0].docID == d ==> OrderedMap.HasKey(Take(s, d, e, rest, th).matrix, d)
  {
    var m := BlockIndexer.AddToRow(s.matrix, d, e.termID, e.value);
    OrderedMap.InKeys(s.matrix, d);
    OrderedMap.InKeys(m, d);
    if s.counter + 1 > ENTRIES_PER_PART && 0 < |rest| && rest[0].docID == d {
      BlockIndexer.AddDocFrequency(Flush(s.(matrix := m, counter := s.counter + 1), th).matrix, d, d, 0);
    }
  }

  /** Taking one entry takes one more entry, and the counter stays below a cycle. */
  lemma TakeCounter(s: Merge, d: int, e: MatrixEntry, rest: seq<MatrixEntry>, th: Thresholds)
    requires 0 <= s.counter <= ENTRIES_PER_PART
    ensures var r := Take(s, d, e, rest, th);
      0 <= r.counter <= ENTRIES_PER_PART && Taken(r) == Taken(s) + 1
  {
    var s1 := s.(matrix := BlockIndexer.AddToRow(s.matrix, d, e.termID, e.value), counter := s.counter + 1);
    if s1.counter > ENTRIES_PER_PART {
      var f := Flush(s1, th);
      assert Taken(f) == Taken(s1) by {
        PartsAddCycle(s1.parts, f.parts);
      }
    } else {
      assert Take(s, d, e, rest, th) == s1;
    }
  }

  /**
   * Taking one entry of a document that has its row: when the document has
   * no more entries to come, the counter is 0 exactly when the matrix was
   * just flushed empty; and every written part has a row.
   */
  lemma TakeRows(s: Merge, d: int, e: MatrixEntry, rest: seq<MatrixEntry>, th: Thresholds)
    requires OrderedMap.HasKey(s.matrix, d) && 0 <= s.counter && PartsNonEmpty(s.parts)
    ensures var r := Take(s, d, e, rest, th);
      && (!(0 < |rest| && rest[0].docID == d) ==> (r.counter == 0 <==> |r.matrix| == 0))
      && PartsNonEmpty(r.parts)
  {
    var m := BlockIndexer.AddToRow(s.matrix, d, e.termID, e.value);
    OrderedMap.InKeys(s.matrix, d);
    OrderedMap.InKeys(m, d);
    var s1 := s.(matrix := m, counter := s.counter + 1);
    if s1.counter > ENTRIES_PER_PART {
      FlushNonEmpty(s1, th);
    }
  }

  lemma PartsAddCycle(a: seq<Matrix>, b: seq<Matrix>)
    requires |b| == |a| + 1
    ensures CYCLE * |b| == CYCLE * |a| + CYCLE
  {
  }

  /** A drain that takes an entry goes on from the state the take leaves, with one entry less of the run. */
  lemma DrainStep(s: Merge, d: int, es: seq<MatrixEntry>, th: Thresholds)
    requires 0 < |es| && es[0].docID == d
    ensures Drain(s, d, es, th) == Drain(Take(s, d, es[0], es[1..], th), d, es[1..], th)
    ensures Run(d, es) == 1 + Run(d, es[1..])
  {
  }

  /**
   * Draining a document that has its row: the whole run is taken and the
   * counter stays below a cycle; afterwards it is 0 exactly when the matrix
   * is empty; and every written part has a row.
   */
  lemma {:induction false} DrainShape(s: Merge, d: int, es: seq<MatrixEntry>, th: Thresholds)
    requires 0 < |es| && es[0].docID == d && OrderedMap.HasKey(s.matrix, d)
    requires 0 <= s.counter <= ENTRIES_PER_PART && PartsNonEmpty(s.parts)
    ensures var r := Drain(s, d, es, th);
      && 0 <= r.counter <= ENTRIES_PER_PART
      && Taken(r) == Taken(s) + Run(d, es)
      && (r.counter == 0 <==> |r.matrix| == 0)
      && PartsNonEmpty(r.parts)
    decreases |es|
  {
    var s2 := Take(s, d, es[0], es[1..], th);
    TakeCounter(s, d, es[0], es[1..], th);
    TakeRows(s, d, es[0], es[1..], th);
    TakeKeepsRow(s, d, es[0], es[1..], th);
    DrainStep(s, d, es, th);
    if 0 < |es[1..]| && es[1..][0].docID == d {
      DrainShape(s2, d, es[1..], th);
    }
  }

  /**
   * Between rounds the counter is 0 exactly when the matrix is empty; after
   * the loop every entry the readers held is taken, the counter is below a
   * cycle, and every part written has a row.
   */
  lemma {:induction false} MergeLoopShape(q: seq<Reader>, s: Merge, th: Thresholds)
    requires Live(q) && 0 <= s.counter <= ENTRIES_PER_PART && PartsNonEmpty(s.parts)
    requires s.counter == 0 <==> |s.matrix| == 0
    ensures var r := MergeLoop(q, s, th);
      && 0 <= r.counter <= ENTRIES_PER_PART
      && Taken(r) == Taken(s) + Size(q)
      && (r.counter == 0 <==> |r.matrix| == 0)
      && PartsNonEmpty(r.parts)
    decreases Size(q)
  {
    if |q| != 0 {
      var i := MinIndex(q);
      var es := q[i].entries;
      var d := es[0].docID;
      BlockIndexer.AddDocFrequency(s.matrix, d, d, 0);
      DrainShape(s.(matrix := DocumentTermMatrix.AddDoc(s.matrix, d).0), d, es, th);
      SumOverRequeue(q, i, es[Run(d, es)..], Count);
      MergeLoopShape(NextQueue(q), NextState(q, s, th), th);
    }
  }

  // ---------------------------------------------------------------- what the parts hold

  /** What the state has emitted for one document and term id: the parts written plus the matrix. */
  function Emitted(s: Merge, x: int, y: int): nat {
    BlockIndexer.TotalFrequency(s.parts, x, y) + BlockIndexer.Frequency(s.matrix, x, y)
  }

  lemma {:induction false} TotalFrequencyAppend(ms: seq<Matrix>, m: Matrix, x: int, y: int)
    ensures BlockIndexer.TotalFrequency(ms + [m], x, y) == BlockIndexer.TotalFrequency(ms, x, y) + BlockIndexer.Frequency(m, x, y)
    decreases |ms|
  {
    if |ms| == 0 {
      assert ms + [m] == [m];
      assert [m][1..] == [];
    } else {
      assert (ms + [m])[1..] == ms[1..] + [m];
      TotalFrequencyAppend(ms[1..], m, x, y);
    }
  }

  /** Without thresholds a flush moves the matrix into the parts: nothing is lost or removed. */
  lemma FlushCounts(s: Merge, th: Thresholds, x: int, y: int)
    requires !Thresholding(th)
    ensures Emitted(Flush(s, th), x, y) == Emitted(s, x, y)
    ensures Flush(s, th).thresholded == s.thresholded
  {
    var r := Flush(s, th);
    assert r.parts == s.parts + [s.matrix] by {
      assert r.parts == r.parts[..|s.parts|] + [r.parts[|s.parts|]];
    }
    TotalFrequencyAppend(s.parts, s.matrix, x, y);
  }

  /** Without thresholds a take adds the entry's value to its document and term id, and only there. */
  lemma TakeCounts(s: Merge, d: int, e: MatrixEntry, rest: seq<MatrixEntry>, th: Thresholds, x: int, y: int)
    requires OrderedMap.HasKey(s.matrix, d) && !Thresholding(th)
    ensures Emitted(Take(s, d, e, rest, th), x, y) == Emitted(s, x, y) + (if (d, e.termID) == (x, y) then e.value else 0)
  {
    BlockIndexer.AddToRowFrequency(s.matrix, d, e.termID, e.value, x, y);
    var s1 := s.(matrix := BlockIndexer.AddToRow(s.matrix, d, e.termID, e.value), counter := s.counter + 1);
    if s1.counter > ENTRIES_PER_PART {
      FlushCounts(s1, th, x, y);
      var f := Flush(s1, th);
      if 0 < |rest| && rest[0].docID == d {
        BlockIndexer.AddDocFrequency(f.matrix, d, x, y);
      }
    }
  }

  /**
   * Without thresholds, draining a document moves exactly the values of its
   * run into the state: what was emitted plus what the reader still holds
   * stays the same.
   */
  lemma {:induction false} DrainCounts(s: Merge, d: int, es: seq<MatrixEntry>, th: Thresholds, x: int, y: int)
    requires !Thresholding(th)
    requires 0 < |es| && es[0].docID == d ==> OrderedMap.HasKey(s.matrix, d)
    ensures Emitted(Drain(s, d, es, th), x, y) + EntrySum(es[Run(d, es)..], x, y) == Emitted(s, x, y) + EntrySum(es, x, y)
    decreases |es|
  {
    if 0 < |es| && es[0].docID == d {
      var s2 := Take(s, d, es[0], es[1..], th);
      TakeCounts(s, d, es[0], es[1..], th, x, y);
      TakeKeepsRow(s, d, es[0], es[1..], th);
      DrainStep(s, d, es, th);
      DrainCounts(s2, d, es[1..], th, x, y);
      assert es[1..][Run(d, es[1..])..] == es[Run(d, es)..];
    } else {
      assert es[Run(d, es)..] == es;
    }
  }

  /** Without thresholds a drain counts nothing as thresholded. */
  lemma {:induction false} DrainThresholded(s: Merge, d: int, es: seq<MatrixEntry>, th: Thresholds)
    requires !Thresholding(th)
    ensures Drain(s, d, es, th).thresholded == s.thresholded
    decreases |es|
  {
    if 0 < |es| && es[0].docID == d {
      var s1 := s.(matrix := BlockIndexer.AddToRow(s.matrix, d, es[0].termID, es[0].value), counter := s.counter + 1);
      if s1.counter > ENTRIES_PER_PART {
        FlushCounts(s1, th, 0, 0);
      }
      DrainStep(s, d, es, th);
      DrainThresholded(Take(s, d, es[0], es[1..], th), d, es[1..], th);
    }
  }

  /** Without thresholds the main loop emits exactly the values its readers hold. */
  lemma {:induction false} MergeLoopCounts(q: seq<Reader>, s: Merge, th: Thresholds, x: int, y: int)
    requires Live(q) && !Thresholding(th)
    ensures Emitted(MergeLoop(q, s, th), x, y) == Emitted(s, x, y) + SumOver(q, Values(x, y))
    ensures MergeLoop(q, s, th).thresholded == s.thresholded
    decreases Size(q)
  {
    if |q| != 0 {
      var i := MinIndex(q);
      var es := q[i].entries;
      var d := es[0].docID;
      var s1 := s.(matrix := DocumentTermMatrix.AddDoc(s.matrix, d).0);
      BlockIndexer.AddDocFrequency(s.matrix, d, x, y);
      DrainCounts(s1, d, es, th, x, y);
      DrainThresholded(s1, d, es, th);
      SumOverRequeue(q, i, es[Run(d, es)..], Values(x, y));
      MergeLoopCounts(NextQueue(q), NextState(q, s, th), th, x, y);
    }
  }

  /** The measure summed over the block files from index `i` on. */
  function FilesFrom(files: seq<seq<MatrixEntry>>, i: nat, m: Measure): nat
    decreases |files| - i
  {
    if i >= |files| then 0 else Weight(files[i], m) + FilesFrom(files, i + 1, m)
  }

  /** The measure summed over all block files. */
  function FilesTotal(files: seq<seq<MatrixEntry>>, m: Measure): nat {
    FilesFrom(files, 0, m)
  }

  /** The queue holds, summed, what the block files hold: the skipped files hold nothing. */
  lemma {:induction false} OpenFromSum(files: seq<seq<MatrixEntry>>, i: nat, m: Measure)
    requires i <= |files|
    ensures SumOver(OpenFrom(files, i), m) == FilesFrom(files, i, m)
    decreases |files| - i
  {
    if i < |files| {
      OpenFromSum(files, i + 1, m);
      var rest := OpenFrom(files, i + 1);
      if |files[i]| != 0 {
        var q := [Reader(i, files[i])] + rest;
        assert q[1..] == rest;
      }
    }
  }

  // ---------------------------------------------------------------- the final part

  /**
   * How the part left after the loop is written: always, as the program
   * does, or only when the matrix has a document.
   */
  datatype FinalPart = Always | WhenNonEmpty

  function Finish(s: Merge, th: Thresholds, final: FinalPart): Merge {
    if final == WhenNonEmpty && |s.matrix| == 0 then s else Flush(s, th)
  }

  /** The parts of the merge, in the order they are written, and the number of entries thresholded. */
  function MergeParts(files: seq<seq<MatrixEntry>>, th: Thresholds, final: FinalPart): Merge {
    Finish(MergeLoop(OpenReaders(files), Start(), th), th, final)
  }

  /** Without thresholds the final part moves what the matrix holds into the parts. */
  lemma FinishCounts(l: Merge, th: Thresholds, final: FinalPart, x: int, y: int)
    requires !Thresholding(th)
    ensures BlockIndexer.TotalFrequency(Finish(l, th, final).parts, x, y) == Emitted(l, x, y)
    ensures Finish(l, th, final).thresholded == l.thresholded
  {
    if final == WhenNonEmpty && |l.matrix| == 0 {
      assert l.matrix == [];
    } else {
      FlushCounts(l, th, x, y);
    }
  }

  /**
   * Without thresholds the parts written hold, for every document and term
   * id, exactly the values the block files hold, and nothing is counted as
   * thresholded; whichever way the final part is written.
   */
  lemma MergeConserves(files: seq<seq<MatrixEntry>>, th: Thresholds, final: FinalPart, x: int, y: int)
    requires !Thresholding(th)
    ensures BlockIndexer.TotalFrequency(MergeParts(files, th, final).parts, x, y) == FilesTotal(files, Values(x, y))
    ensures MergeParts(files, th, final).thresholded == 0
  {
    var q := OpenReaders(files);
    MergeLoopCounts(q, Start(), th, x, y);
    OpenFromSum(files, 0, Values(x, y));
    FinishCounts(MergeLoop(q, Start(), th), th, final, x, y);
  }

  /** After the loop every entry of the block files is taken, and every part has a row. */
  lemma MergeLoopEnd(files: seq<seq<MatrixEntry>>, th: Thresholds)
    ensures var l := MergeLoop(OpenReaders(files), Start(), th);
      && 0 <= l.counter <= ENTRIES_PER_PART
      && Taken(l) == FilesTotal(files, Count)
      && (l.counter == 0 <==> |l.matrix| == 0)
      && PartsNonEmpty(l.parts)
  {
    MergeLoopShape(OpenReaders(files), Start(), th);
    OpenFromSum(files, 0, Count);
  }

  /** The matrix left after the loop is empty exactly when the block files hold a multiple of `CYCLE` entries. */
  lemma FinalMatrixEmpty(files: seq<seq<MatrixEntry>>, th: Thresholds)
    ensures |MergeLoop(OpenReaders(files), Start(), th).matrix| == 0 <==> FilesTotal(files, Count) % CYCLE == 0
  {
    MergeLoopEnd(files, th);
    var l := MergeLoop(OpenReaders(files), Start(), th);
    CycleMod(FilesTotal(files, Count), l.counter, |l.parts|);
  }

  /** Writing the final part unconditionally adds a part with as many documents as the matrix. */
  lemma FinishAlways(l: Merge, th: Thresholds)
    requires PartsNonEmpty(l.parts)
    ensures var p := Finish(l, th, Always).parts;
      0 < |p| && |p[|p| - 1]| == |l.matrix| && PartsNonEmpty(p[..|p| - 1])
  {
    var p := Flush(l, th).parts;
    assert |OrderedMap.Keys(p[|l.parts|])| == |OrderedMap.Keys(l.matrix)|;
  }

  /**
   * As written, the final part is empty exactly when the block files hold a
   * multiple of `CYCLE` entries; every earlier part has a row.
   */
  lemma AsWrittenFinalPart(files: seq<seq<MatrixEntry>>, th: Thresholds)
    ensures var p := MergeParts(files, th, Always).parts;
      && 0 < |p|
      && (|p[|p| - 1]| == 0 <==> FilesTotal(files, Count) % CYCLE == 0)
      && PartsNonEmpty(p[..|p| - 1])
  {
    MergeLoopEnd(files, th);
    FinalMatrixEmpty(files, th);
    FinishAlways(MergeLoop(OpenReaders(files), Start(), th), th);
  }

  /** Writing the final part only when it has a document adds no part without a row. */
  lemma FinishNonEmpty(l: Merge, th: Thresholds)
    requires PartsNonEmpty(l.parts)
    ensures PartsNonEmpty(Finish(l, th, WhenNonEmpty).parts)
  {
    if 0 < |l.matrix| {
      FlushNonEmpty(l, th);
    }
  }

  /** Writing the final part only when it has a document leaves no part without a row. */
  lemma CorrectedPartsNonEmpty(files: seq<seq<MatrixEntry>>, th: Thresholds)
    ensures PartsNonEmpty(MergeParts(files, th, WhenNonEmpty).parts)
  {
    MergeLoopEnd(files, th);
    FinishNonEmpty(MergeLoop(OpenReaders(files), Start(), th), th);
  }

  /** Unless the entries fill whole cycles, both ways of writing the final part write the same parts. */
  lemma CorrectedAgrees(files: seq<seq<MatrixEntry>>, th: Thresholds)
    requires FilesTotal(files, Count) % CYCLE != 0
    ensures MergeParts(files, th, WhenNonEmpty) == MergeParts(files, th, Always)
  {
    FinalMatrixEmpty(files, th);
  }

  // ---------------------------------------------------------------- the two ARFF files

  /** The idf file's parts: each part as `calculateIdfs` turns it into weights. */
  function IdfParts<W>(parts: seq<Matrix>, weight: (int, nat) -> W): (r: seq<seq<(int, seq<(int, W)>)>>)
    ensures |r| == |parts|
    decreases |parts|
  {
    if |parts| == 0 then [] else [DocumentTermMatrix.CalculateIdfs(parts[0], weight)] + IdfParts(parts[1..], weight)
  }

  /**
   * Each flush writes its part to the tf file and then, turned into idf
   * weights, to the idf file; the first failure ends the merge.
   */
  function WriteBoth<W>(tw: ArffWriter.Writer, iw: ArffWriter.Writer, parts: seq<Matrix>,
                        tfs: ArffWriter.Setup<nat>, idfs: ArffWriter.Setup<W>, weight: (int, nat) -> W,
                        closing: ArffWriter.Closing): Result<(ArffWriter.Writer, ArffWriter.Writer)>
    decreases |parts|
  {
    if |parts| == 0 then Success((tw, iw))
    else
      var t :- ArffWriter.WriteNextPart(tw, parts[0], tfs, closing);
      var i :- ArffWriter.WriteNextPart(iw, DocumentTermMatrix.CalculateIdfs(parts[0], weight), idfs, closing);
      WriteBoth(t, i, parts[1..], tfs, idfs, weight, closing)
  }

  /**
   * Interleaving the two files changes nothing: the pair succeeds exactly
   * when each file, written on its own, succeeds, and then yields the same
   * two writers.
   */
  lemma {:induction false} WriteBothSplits<W>(tw: ArffWriter.Writer, iw: ArffWriter.Writer, parts: seq<Matrix>,
                                              tfs: ArffWriter.Setup<nat>, idfs: ArffWriter.Setup<W>, weight: (int, nat) -> W,
                                              closing: ArffWriter.Closing)
    ensures var r := WriteBoth(tw, iw, parts, tfs, idfs, weight, closing);
      var t := ArffWriter.WriteParts(tw, parts, tfs, closing);
      var i := ArffWriter.WriteParts(iw, IdfParts(parts, weight), idfs, closing);
      && (r.Success? <==> t.Success? && i.Success?)
      && (r.Success? ==> r.value == (t.value, i.value))
    decreases |parts|
  {
    if |parts| != 0 {
      var ip := IdfParts(parts, weight);
      assert ip[0] == DocumentTermMatrix.CalculateIdfs(parts[0], weight) && ip[1..] == IdfParts(parts[1..], weight);
      var t := ArffWriter.WriteNextPart(tw, parts[0], tfs, closing);
      var i := ArffWriter.WriteNextPart(iw, ip[0], idfs, closing);
      if t.Success? && i.Success? {
        WriteBothSplits(t.value, i.value, parts[1..], tfs, idfs, weight, closing);
      }
    }
  }

  /** A part without a document makes the writing fail. */
  lemma {:induction false} WriteBothEmptyPart<W>(tw: ArffWriter.Writer, iw: ArffWriter.Writer, parts: seq<Matrix>,
                                                 tfs: ArffWriter.Setup<nat>, idfs: ArffWriter.Setup<W>, weight: (int, nat) -> W,
                                                 closing: ArffWriter.Closing, k: int)
    requires 0 <= k < |parts| && |parts[k]| == 0
    ensures WriteBoth(tw, iw, parts, tfs, idfs, weight, closing).Failure?
    decreases k
  {
    if k != 0 {
      var t := ArffWriter.WriteNextPart(tw, parts[0], tfs, closing);
      var i := ArffWriter.WriteNextPart(iw, DocumentTermMatrix.CalculateIdfs(parts[0], weight), idfs, closing);
      if t.Success? && i.Success? {
        assert parts[1..][k - 1] == parts[k];
        WriteBothEmptyPart(t.value, i.value, parts[1..], tfs, idfs, weight, closing, k - 1);
      }
    }
  }

  // ---------------------------------------------------------------- the statistics

  /**
   * After the merge: the thresholded entries come off the number of tokens
   * and the average document length becomes the truncated quotient of
   * tokens by documents (a `long` division, widened to a double by
   * `fromLong`); no documents is a division by zero.
   */
  function UpdateStatistics<D>(st: CollectionStatistics.Statistics<D>, thresholded: int, fromLong: int -> D): (r: Result<CollectionStatistics.Statistics<D>>)
    ensures r.Failure? <==> st.numberOfDocuments == 0
    ensures r.Failure? ==> r.error == Arithmetic
    ensures r.Success? ==>
      && r.value.numberOfTokens == st.numberOfTokens - thresholded
      && r.value.numberOfDocuments == st.numberOfDocuments
      && r.value.numberOfUniqueTerms == st.numberOfUniqueTerms
    ensures r.Success? && 0 <= r.value.numberOfTokens && 0 < st.numberOfDocuments ==>
      r.value.averageDocumentLength == fromLong(r.value.numberOfTokens / st.numberOfDocuments)
  {
    var tokens := st.numberOfTokens - thresholded;
    if st.numberOfDocuments == 0 then Failure(Arithmetic)
    else Success(st.(numberOfTokens := tokens, averageDocumentLength := fromLong(Text.JavaDiv(tokens, st.numberOfDocuments))))
  }

  // ---------------------------------------------------------------- the whole merge

  /** The tf file, the idf file and the updated statistics. */
  datatype Output<D> = Output(tf: string, idf: string, statistics: CollectionStatistics.Statistics<D>)

  /**
   * `mergeMatrixBlocks` on the single-reader path: the parts of the merge
   * go to both ARFF files, both files are closed, and the statistics are
   * updated.
   */
  function MergeMatrixFiles<W, D>(files: seq<seq<MatrixEntry>>, th: Thresholds, terms: seq<string>,
                                  tfs: ArffWriter.Setup<nat>, idfs: ArffWriter.Setup<W>, weight: (int, nat) -> W,
                                  closing: ArffWriter.Closing, final: FinalPart,
                                  st: CollectionStatistics.Statistics<D>, fromLong: int -> D): (r: Result<Output<D>>)
    requires DisjointFiles(files)
    ensures var s := MergeParts(files, th, final);
      var tf := ArffWriter.WriteFile(terms, s.parts, tfs, closing);
      var idf := ArffWriter.WriteFile(terms, IdfParts(s.parts, weight), idfs, closing);
      && (r.Success? <==> tf.Success? && idf.Success? && st.numberOfDocuments != 0)
      && (r.Success? ==> r.value.tf == tf.value && r.value.idf == idf.value)
      && (r.Success? ==> r.value.statistics.numberOfTokens == st.numberOfTokens - s.thresholded)
  {
    var s := MergeParts(files, th, final);
    WriteBothSplits(ArffWriter.Init(terms), ArffWriter.Init(terms), s.parts, tfs, idfs, weight, closing);
    var (tw, iw) :- WriteBoth(ArffWriter.Init(terms), ArffWriter.Init(terms), s.parts, tfs, idfs, weight, closing);
    var stats :- UpdateStatistics(st, s.thresholded, fromLong);
    Success(Output(ArffWriter.Close(tw), ArffWriter.Close(iw), stats))
  }

  /**
   * As written, a merge whose block files hold a multiple of `CYCLE`
   * entries fails: the final part has no document, and writing it fails.
   * One block file of `CYCLE` entries is such an input.
   */
  lemma AsWrittenFails<W, D>(files: seq<seq<MatrixEntry>>, th: Thresholds, terms: seq<string>,
                             tfs: ArffWriter.Setup<nat>, idfs: ArffWriter.Setup<W>, weight: (int, nat) -> W,
                             closing: ArffWriter.Closing, st: CollectionStatistics.Statistics<D>, fromLong: int -> D)
    requires DisjointFiles(files) && FilesTotal(files, Count) % CYCLE == 0
    ensures MergeMatrixFiles(files, th, terms, tfs, idfs, weight, closing, Always, st, fromLong).Failure?
  {
    var p := MergeParts(files, th, Always).parts;
    AsWrittenFinalPart(files, th);
    WriteBothEmptyPart(ArffWriter.Init(terms), ArffWriter.Init(terms), p, tfs, idfs, weight, closing, |p| - 1);
  }
}
