/**
 * A postings list: an insertion-ordered map from document id to term
 * frequency, its text form `<docID:tf>...`, and its memory estimate with
 * Java's 32-bit arithmetic.
 */
module PostingsList {
  import opened Wrappers
  import OrderedMap
  import opened Text

  type Postings = seq<(int, int)>

  /** `getTermFrequency(docID)`: the stored frequency, 0 for an absent document. */
  function TermFrequency(p: Postings, docID: int): (r: int)
    ensures !OrderedMap.HasKey(p, docID) ==> r == 0
    ensures OrderedMap.HasKey(p, docID) ==> OrderedMap.Get(p, docID) == Some(r)
  {
    OrderedMap.Get(p, docID).GetOr(0)
  }

  /**
   * `add(docID, termFreq)`: accumulates into an existing posting, or appends a
   * new posting with `tf`.
   */
  function AddTf(p: Postings, docID: int, tf: int): (r: Postings)
    ensures OrderedMap.Keys(r) ==
      if OrderedMap.HasKey(p, docID) then OrderedMap.Keys(p) else OrderedMap.Keys(p) + [docID]
    ensures TermFrequency(r, docID) == TermFrequency(p, docID) + tf
    ensures forall d | d != docID :: OrderedMap.Get(r, d) == OrderedMap.Get(p, d)
    ensures OrderedMap.DistinctKeys(p) ==> OrderedMap.DistinctKeys(r)
    ensures OrderedMap.DistinctKeys(p) ==> TotalTermFrequency(r) == TotalTermFrequency(p) + tf
  {
    var v: int := TermFrequency(p, docID) + tf;
    if OrderedMap.DistinctKeys(p) then
      PutTotals(p, docID, v);
      OrderedMap.Put<int, int>(p, docID, v)
    else
      OrderedMap.Put<int, int>(p, docID, v)
  }

  /** `add(docID)`: one more occurrence in the document. */
  function AddDoc(p: Postings, docID: int): (r: Postings)
    ensures OrderedMap.Keys(r) ==
      if OrderedMap.HasKey(p, docID) then OrderedMap.Keys(p) else OrderedMap.Keys(p) + [docID]
    ensures TermFrequency(r, docID) == TermFrequency(p, docID) + 1
    ensures forall d | d != docID :: OrderedMap.Get(r, d) == OrderedMap.Get(p, d)
    ensures OrderedMap.DistinctKeys(p) ==> OrderedMap.DistinctKeys(r)
  {
    AddTf(p, docID, 1)
  }

  /** `clear`. */
  function Clear(): (r: Postings)
    ensures DocumentFrequency(r) == 0 && TotalTermFrequency(r) == 0
  {
    []
  }

  /** `getTermFrequency()`: the sum of all per-document frequencies. */
  function TotalTermFrequency(p: Postings): int
    decreases |p|
  {
    if |p| == 0 then 0 else TotalTermFrequency(p[..|p| - 1]) + p[|p| - 1].1
  }

  /** `getDocumentFrequency`: the number of postings, one per distinct document. */
  function DocumentFrequency(p: Postings): nat {
    |p|
  }

  lemma {:induction false} TotalOfUpdate(p: Postings, i: int, e: (int, int))
    requires 0 <= i < |p|
    ensures TotalTermFrequency(p[i := e]) == TotalTermFrequency(p) - p[i].1 + e.1
    decreases |p|
  {
    var q := p[i := e];
    assert q[..|q| - 1] == if i == |p| - 1 then p[..|p| - 1] else p[..|p| - 1][i := e];
    if i < |p| - 1 {
      TotalOfUpdate(p[..|p| - 1], i, e);
    }
  }

  /** A put replaces the key's old frequency in the total, and adds a posting only for a new key. */
  lemma PutTotals(p: Postings, docID: int, v: int)
    requires OrderedMap.DistinctKeys(p)
    ensures TotalTermFrequency(OrderedMap.Put<int, int>(p, docID, v)) == TotalTermFrequency(p) - TermFrequency(p, docID) + v
  {
    var i := OrderedMap.Find(p, docID);
    OrderedMap.PutShape<int, int>(p, docID, v);
    if i >= 0 {
      assert TermFrequency(p, docID) == p[i].1;
      TotalOfUpdate(p, i, (docID, v));
    } else {
      TotalOfAppend(p, (docID, v));
    }
  }

  /** Adding a posting raises the document frequency by one exactly when the document is new. */
  lemma AddTfDocumentFrequency(p: Postings, docID: int, tf: int)
    ensures DocumentFrequency(AddTf(p, docID, tf)) ==
      DocumentFrequency(p) + (if OrderedMap.HasKey(p, docID) then 0 else 1)
  {
    var r := AddTf(p, docID, tf);
    assert |OrderedMap.Keys(r)| == |r|;
  }

  lemma TotalOfAppend(p: Postings, e: (int, int))
    ensures TotalTermFrequency(p + [e]) == TotalTermFrequency(p) + e.1
  {
    var r := p + [e];
    assert r[..|r| - 1] == p;
  }

  /** One posting in text form: `<docID:tf>`. */
  function PostingText(docID: int, tf: int): string {
    "<" + IntToString(docID) + ":" + IntToString(tf) + ">"
  }

  /** `toString`: the postings' text forms concatenated in insertion order. */
  function ToString(p: Postings): (s: string)
    ensures |p| == 0 <==> |s| == 0
    decreases |p|
  {
    if |p| == 0 then "" else ToString(p[..|p| - 1]) + PostingText(p[|p| - 1].0, p[|p| - 1].1)
  }

  // ---------------------------------------------------------------- memory estimate

  predicate IsPow2(x: int)
    decreases if x < 0 then 0 else x
  {
    x == 1 || (x > 1 && x % 2 == 0 && IsPow2(x / 2))
  }

  /** `Integer.highestOneBit` for a non-negative value. */
  function HighestOneBit(n: nat): (r: nat)
    ensures n == 0 ==> r == 0
    ensures n > 0 ==> IsPow2(r) && r <= n < 2 * r
  {
    if n <= 1 then n else 2 * HighestOneBit(n / 2)
  }

  /** Java's int arithmetic: the value modulo 2^32 in the range of an int. */
  function Wrap32(x: int): (r: int)
    ensures IsInt32(r)
    ensures IsInt32(x) ==> r == x
  {
    (x - INT_MIN) % 0x1_0000_0000 + INT_MIN
  }

  /**
   * `getAllocatedSizeInBytes` for a list of `n` postings:
   * 16 * max(highestOneBit(n) << 1, 1), each step in 32-bit arithmetic.
   */
  function AllocatedSizeForCount(n: nat): (r: int)
    requires n <= INT_MAX
    ensures IsInt32(r)
  {
    var shifted := Wrap32(2 * HighestOneBit(n));
    var capacity := if shifted > 1 then shifted else 1;
    Wrap32(capacity * 16)
  }

  function AllocatedSizeInBytes(p: Postings): int
    requires |p| <= INT_MAX
  {
    AllocatedSizeForCount(|p|)
  }

  /**
   * Below 2^26 postings the estimate is 16 for an empty list and otherwise
   * 16 * c for the power of two c with n < c <= 2n.
   */
  lemma AllocatedSizeBounds(n: nat)
    requires n < 0x400_0000
    ensures n == 0 ==> AllocatedSizeForCount(n) == 16
    ensures n > 0 ==> exists c :: IsPow2(c) && n < c <= 2 * n && AllocatedSizeForCount(n) == 16 * c
  {
    var h := HighestOneBit(n);
    assert h <= n;
    assert IsInt32(2 * h);
    var shifted := Wrap32(2 * h);
    assert shifted == 2 * h;
    var capacity := if shifted > 1 then shifted else 1;
    assert capacity * 16 <= 0x800_0000 * 16;
    assert Wrap32(capacity * 16) == capacity * 16;
    if n > 0 {
      assert IsPow2(2 * h);
      assert AllocatedSizeForCount(n) == 16 * (2 * h);
    }
  }

  function Pow2(k: nat): (r: nat)
  {
    if k == 0 then 1 else 2 * Pow2(k - 1)
  }

  lemma {:induction false} Pow2Add(a: nat, b: nat)
    ensures Pow2(a + b) == Pow2(a) * Pow2(b)
  {
    if a > 0 {
      Pow2Add(a - 1, b);
    }
  }

  lemma Pow2Of25()
    ensures Pow2(25) == 0x200_0000
  {
    assert Pow2(5) == 32;
    Pow2Add(5, 5);
    Pow2Add(10, 5);
    Pow2Add(15, 5);
    Pow2Add(20, 5);
  }

  lemma {:induction false} Pow2IsPow2(k: nat)
    ensures IsPow2(Pow2(k))
  {
    if k > 0 {
      Pow2IsPow2(k - 1);
      var h: int := Pow2(k - 1);
      assert Pow2(k) == 2 * h && (2 * h) / 2 == h;
    }
  }

  /** A smaller power of two is at most half of a larger one. */
  lemma {:induction false} Pow2Below(x: int, y: int)
    requires IsPow2(x) && IsPow2(y) && x < y
    ensures 2 * x <= y
    decreases y
  {
    if x > 1 {
      Pow2Below(x / 2, y / 2);
    }
  }

  /** From 2^26 postings on, the 32-bit product no longer equals 32 * highestOneBit(n). */
  lemma AllocatedSizeOverflows(n: nat)
    requires 0x400_0000 <= n <= INT_MAX
    ensures AllocatedSizeForCount(n) != 32 * HighestOneBit(n)
  {
    var h := HighestOneBit(n);
    Pow2IsPow2(25);
    Pow2Of25();
    Pow2Below(0x200_0000, h);
    assert 32 * h > INT_MAX;
    assert IsInt32(AllocatedSizeForCount(n));
  }
}
