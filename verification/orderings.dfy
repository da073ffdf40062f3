/**
 * The orders used when merging block files: Java's `Integer.compare` and
 * `String.compareTo`, the `(docID, termID)` order of matrix file entries, the
 * `(term, docID)` order of postings entries, and the priority-queue
 * comparator that breaks ties between readers by their number.
 */
module Orderings {

  /** `Integer.compare`: -1, 0 or 1. */
  function IntCompare(a: int, b: int): (r: int)
    ensures r == -1 || r == 0 || r == 1
    ensures r < 0 <==> a < b
    ensures r == 0 <==> a == b
  {
    if a < b then -1 else if a == b then 0 else 1
  }

  // ---------------------------------------------------------------- strings

  /** Lexicographic order on strings: a proper prefix comes first, otherwise the first differing char decides. */
  predicate LexLess(a: string, b: string)
    decreases |a|
  {
    if |a| == 0 then |b| > 0
    else |b| > 0 && (a[0] < b[0] || (a[0] == b[0] && LexLess(a[1..], b[1..])))
  }

  /**
   * `String.compareTo`: the difference of the first differing chars, or the
   * difference of the lengths when one string is a prefix of the other.
   */
  function StringCompareTo(a: string, b: string): (r: int)
    ensures r == 0 <==> a == b
    ensures r < 0 <==> LexLess(a, b)
    ensures r > 0 <==> LexLess(b, a)
    decreases |a|
  {
    if |a| == 0 || |b| == 0 then |a| - |b|
    else if a[0] != b[0] then a[0] as int - b[0] as int
    else
      var r := StringCompareTo(a[1..], b[1..]);
      assert a == [a[0]] + a[1..] && b == [b[0]] + b[1..];
      r
  }

  /** Swapping the arguments of `compareTo` negates the result. */
  lemma {:induction false} StringCompareToAntisymmetric(a: string, b: string)
    ensures StringCompareTo(a, b) == -StringCompareTo(b, a)
    decreases |a|
  {
    if |a| > 0 && |b| > 0 && a[0] == b[0] {
      StringCompareToAntisymmetric(a[1..], b[1..]);
    }
  }

  lemma {:induction false} LexLessTransitive(a: string, b: string, c: string)
    requires LexLess(a, b) && LexLess(b, c)
    ensures LexLess(a, c)
    decreases |a|
  {
    if |a| > 0 && a[0] == b[0] && b[0] == c[0] {
      LexLessTransitive(a[1..], b[1..], c[1..]);
    }
  }

  lemma LexLessIrreflexive(a: string)
    ensures !LexLess(a, a)
  {
    StringCompareToAntisymmetric(a, a);
  }

  predicate StrictlySortedStrings(s: seq<string>) {
    forall i, j | 0 <= i < j < |s| :: LexLess(s[i], s[j])
  }

  /** Inserts `x` before the first string it precedes. */
  function InsertString(x: string, s: seq<string>): (r: seq<string>)
    ensures multiset(r) == multiset(s) + multiset{x}
  {
    if |s| == 0 then [x]
    else if LexLess(x, s[0]) then [x] + s
    else
      assert s == [s[0]] + s[1..];
      [s[0]] + InsertString(x, s[1..])
  }

  lemma SortedConsString(x: string, t: seq<string>)
    requires StrictlySortedStrings(t)
    requires forall j | 0 <= j < |t| :: LexLess(x, t[j])
    ensures StrictlySortedStrings([x] + t)
  {
    var r := [x] + t;
    forall i, j | 0 <= i < j < |r| ensures LexLess(r[i], r[j]) {
      assert r[j] == t[j - 1];
      if i > 0 {
        assert r[i] == t[i - 1];
      }
    }
  }

  /** Inserting a new string into a strictly sorted sequence keeps it strictly sorted. */
  lemma {:induction false} InsertStringSorted(x: string, s: seq<string>)
    requires StrictlySortedStrings(s) && x !in s
    ensures StrictlySortedStrings(InsertString(x, s))
    ensures InsertString(x, s)[0] == x || (0 < |s| && InsertString(x, s)[0] == s[0])
    decreases |s|
  {
    if |s| == 0 {
    } else if LexLess(x, s[0]) {
      forall j | 0 <= j < |s| ensures LexLess(x, s[j]) {
        if j > 0 {
          LexLessTransitive(x, s[0], s[j]);
        }
      }
      SortedConsString(x, s);
    } else {
      var tail := s[1..];
      assert x != s[0];
      assert LexLess(s[0], x) by {
        StringCompareToAntisymmetric(x, s[0]);
      }
      assert StrictlySortedStrings(tail);
      InsertStringSorted(x, tail);
      var t := InsertString(x, tail);
      assert LexLess(s[0], t[0]);
      forall j | 0 <= j < |t| ensures LexLess(s[0], t[j]) {
        if j > 0 {
          LexLessTransitive(s[0], t[0], t[j]);
        }
      }
      SortedConsString(s[0], t);
    }
  }

  /** `Collections.sort` of strings in `compareTo` order. */
  function SortStrings(s: seq<string>): (r: seq<string>)
    ensures multiset(r) == multiset(s)
  {
    if |s| == 0 then []
    else
      assert s == [s[0]] + s[1..];
      InsertString(s[0], SortStrings(s[1..]))
  }

  /** Sorting distinct strings gives a strictly ascending sequence. */
  lemma {:induction false} SortStringsSorted(s: seq<string>)
    requires forall i, j | 0 <= i < j < |s| :: s[i] != s[j]
    ensures StrictlySortedStrings(SortStrings(s))
    decreases |s|
  {
    if |s| > 0 {
      var tail := s[1..];
      assert forall i, j | 0 <= i < j < |tail| :: tail[i] != tail[j] by {
        forall i, j | 0 <= i < j < |tail| ensures tail[i] != tail[j] {
          assert tail[i] == s[i + 1] && tail[j] == s[j + 1];
        }
      }
      SortStringsSorted(tail);
      var t := SortStrings(tail);
      assert s[0] !in t by {
        forall j | 0 <= j < |t| ensures t[j] != s[0] {
          assert t[j] in multiset(tail);
          var l :| 0 <= l < |tail| && tail[l] == t[j];
          assert s[l + 1] == t[j];
        }
      }
      InsertStringSorted(s[0], t);
    }
  }

  /** Sorting keeps exactly the elements and their number. */
  lemma SortStringsSameElements(s: seq<string>, x: string)
    ensures x in SortStrings(s) <==> x in s
    ensures |SortStrings(s)| == |s|
  {
    var r := SortStrings(s);
    assert x in r <==> x in multiset(r);
    assert |r| == |multiset(r)|;
  }

  // ---------------------------------------------------------------- matrix file entries

  /** One `<termID:value>` entry of a document-term matrix block, with its document. */
  datatype MatrixEntry = MatrixEntry(docID: int, termID: int, value: nat)

  /** The reference order: by document, then by term; the value is ignored. */
  predicate MatrixEntryLess(x: MatrixEntry, y: MatrixEntry) {
    x.docID < y.docID || (x.docID == y.docID && x.termID < y.termID)
  }

  /** `DocumentTermMatrixFileEntry.compareTo`. */
  function CompareMatrixEntries(x: MatrixEntry, y: MatrixEntry): (r: int)
    ensures x.docID != y.docID ==> r == IntCompare(x.docID, y.docID)
    ensures x.docID == y.docID ==> r == IntCompare(x.termID, y.termID)
  {
    var c := IntCompare(x.docID, y.docID);
    if c == 0 then IntCompare(x.termID, y.termID) else c
  }

  /**
   * `compareTo` is the lexicographic `(docID, termID)` order: negative exactly
   * when `x` comes first, zero exactly when both ids agree, and swapping the
   * arguments negates it.
   */
  lemma MatrixEntryOrder(x: MatrixEntry, y: MatrixEntry)
    ensures CompareMatrixEntries(x, y) < 0 <==> MatrixEntryLess(x, y)
    ensures CompareMatrixEntries(x, y) == 0 <==> x.docID == y.docID && x.termID == y.termID
    ensures CompareMatrixEntries(x, y) == -CompareMatrixEntries(y, x)
  {
  }

  lemma MatrixEntryTransitive(x: MatrixEntry, y: MatrixEntry, z: MatrixEntry)
    requires CompareMatrixEntries(x, y) <= 0 && CompareMatrixEntries(y, z) <= 0
    ensures CompareMatrixEntries(x, z) <= 0
    ensures CompareMatrixEntries(x, y) < 0 || CompareMatrixEntries(y, z) < 0 ==> CompareMatrixEntries(x, z) < 0
  {
  }

  // ---------------------------------------------------------------- postings entries

  /** One posting of a dictionary block, with its term. */
  datatype PostingEntry = PostingEntry(term: string, docID: int, tf: int)

  predicate PostingEntryLess(x: PostingEntry, y: PostingEntry) {
    LexLess(x.term, y.term) || (x.term == y.term && x.docID < y.docID)
  }

  /** `PostingsListEntry.compareTo`. */
  function ComparePostingEntries(x: PostingEntry, y: PostingEntry): (r: int)
    ensures x.term != y.term ==> r == StringCompareTo(x.term, y.term)
    ensures x.term == y.term ==> r == IntCompare(x.docID, y.docID)
  {
    var c := StringCompareTo(x.term, y.term);
    if c == 0 then IntCompare(x.docID, y.docID) else c
  }

  /** The `(term, docID)` order: sign matches the reference order, zero iff both agree, antisymmetric. */
  lemma PostingEntryOrder(x: PostingEntry, y: PostingEntry)
    ensures ComparePostingEntries(x, y) < 0 <==> PostingEntryLess(x, y)
    ensures ComparePostingEntries(x, y) == 0 <==> x.term == y.term && x.docID == y.docID
    ensures ComparePostingEntries(x, y) == -ComparePostingEntries(y, x)
  {
    StringCompareToAntisymmetric(x.term, y.term);
  }

  lemma PostingEntryTransitive(x: PostingEntry, y: PostingEntry, z: PostingEntry)
    requires PostingEntryLess(x, y) && PostingEntryLess(y, z)
    ensures PostingEntryLess(x, z)
  {
    if LexLess(x.term, y.term) && LexLess(y.term, z.term) {
      LexLessTransitive(x.term, y.term, z.term);
    }
  }

  // ---------------------------------------------------------------- priority-queue comparator

  /** A block reader in the merge queue: its current entry and its number. */
  datatype QueuedReader<T> = QueuedReader(current: T, number: int)

  /**
   * `PriorityQueueTermReaderComparator.compare`: the order of the current
   * entries, and on a tie the reader with the smaller number first; it never
   * answers 0.
   */
  function CompareQueued<T>(cmp: (T, T) -> int, x: QueuedReader<T>, y: QueuedReader<T>): (r: int)
    ensures r != 0
    ensures cmp(x.current, y.current) != 0 ==> r == cmp(x.current, y.current)
    ensures cmp(x.current, y.current) == 0 ==> (r < 0 <==> x.number < y.number)
  {
    var c := cmp(x.current, y.current);
    if c == 0 then (if x.number < y.number then -1 else 1) else c
  }

  /** A reader compared with itself (same entry, same number) comes after itself. */
  lemma CompareQueuedSelf(x: QueuedReader<MatrixEntry>)
    ensures CompareQueued(CompareMatrixEntries, x, x) == 1
  {
  }

  predicate QueuedLess(x: QueuedReader<MatrixEntry>, y: QueuedReader<MatrixEntry>) {
    MatrixEntryLess(x.current, y.current)
    || (x.current.docID == y.current.docID && x.current.termID == y.current.termID && x.number < y.number)
  }

  /**
   * For matrix readers with different numbers the comparator is the
   * lexicographic `(docID, termID, number)` order and it is antisymmetric.
   */
  lemma QueuedMatrixOrder(x: QueuedReader<MatrixEntry>, y: QueuedReader<MatrixEntry>)
    requires x.number != y.number
    ensures CompareQueued(CompareMatrixEntries, x, y) < 0 <==> QueuedLess(x, y)
    ensures (CompareQueued(CompareMatrixEntries, x, y) < 0) == (CompareQueued(CompareMatrixEntries, y, x) > 0)
  {
    MatrixEntryOrder(x.current, y.current);
  }
}
