/**
 * The older in-memory index: a map from term to its postings list, with a
 * sorted term list that is computed on demand and then cached, and the text
 * file written from it (`term\t<docID:tf>...\n` per kept term).
 *
 * The program hands out the live postings list from `addTerm` and callers
 * mutate it; the model returns the list's value and stores changes back with
 * `SetPostings`.
 */
module Dictionary {
  import opened Wrappers
  import OrderedMap
  import opened Text
  import opened Orderings
  import PostingsList

  type Postings = PostingsList.Postings

  datatype Dict = Dict(terms: seq<(string, Postings)>, sorted: Option<seq<string>>)

  /** Distinct terms; a cached sorted list only names terms of the map. */
  predicate Valid(d: Dict) {
    && OrderedMap.DistinctKeys(d.terms)
    && (d.sorted.Some? ==> forall i | 0 <= i < |d.sorted.value| :: d.sorted.value[i] in OrderedMap.Keys(d.terms))
  }

  function Empty(): (d: Dict)
    ensures Valid(d) && NumberOfTerms(d) == 0 && d.sorted.None?
  {
    Dict([], None)
  }

  /** `getNumberOfTerms`. */
  function NumberOfTerms(d: Dict): nat {
    |d.terms|
  }

  /** `getPostingsList(term)`: `None` for a term that was never added. */
  function GetPostingsList(d: Dict, term: string): (r: Option<Postings>)
    ensures r.Some? <==> term in OrderedMap.Keys(d.terms)
  {
    var r := OrderedMap.Get(d.terms, term);
    assert r.Some? ==> d.terms[OrderedMap.Find(d.terms, term)].0 == term;
    r
  }

  /**
   * `addTerm(term)`: a known term's postings list is returned and nothing
   * changes; an unknown term is stored with a fresh empty list.
   */
  function AddTerm(d: Dict, term: string): (r: (Dict, Postings))
    ensures GetPostingsList(r.0, term) == Some(r.1)
    ensures GetPostingsList(d, term).Some? ==> r.0 == d && GetPostingsList(d, term) == Some(r.1)
    ensures GetPostingsList(d, term).None? ==>
      && r.1 == []
      && OrderedMap.Keys(r.0.terms) == OrderedMap.Keys(d.terms) + [term]
      && r.0.sorted == d.sorted
    ensures forall t | t != term :: GetPostingsList(r.0, t) == GetPostingsList(d, t)
    ensures Valid(d) ==> Valid(r.0)
  {
    match GetPostingsList(d, term)
    case Some(p) => (d, p)
    case None =>
      var terms := OrderedMap.Put<string, Postings>(d.terms, term, []);
      (d.(terms := terms), [])
  }

  /** Stores a changed postings list for a term (the caller's mutation of the shared list). */
  function SetPostings(d: Dict, term: string, p: Postings): (r: Dict)
    ensures GetPostingsList(r, term) == Some(p)
    ensures forall t | t != term :: GetPostingsList(r, t) == GetPostingsList(d, t)
    ensures r.sorted == d.sorted
    ensures term in OrderedMap.Keys(d.terms) ==> OrderedMap.Keys(r.terms) == OrderedMap.Keys(d.terms)
    ensures Valid(d) ==> Valid(r)
  {
    d.(terms := OrderedMap.Put<string, Postings>(d.terms, term, p))
  }

  /** `sortTerms`: caches every term of the map, in `compareTo` order. */
  function SortTerms(d: Dict): (r: Dict)
    requires Valid(d)
    ensures r.terms == d.terms && r.sorted.Some? && Valid(r)
    ensures StrictlySortedStrings(r.sorted.value)
    ensures forall t :: t in r.sorted.value <==> t in OrderedMap.Keys(d.terms)
    ensures |r.sorted.value| == NumberOfTerms(d)
  {
    var keys := OrderedMap.Keys(d.terms);
    var s := SortStrings(keys);
    forall t ensures t in s <==> t in keys {
      SortStringsSameElements(keys, t);
    }
    SortStringsSameElements(keys, "");
    SortStringsSorted(keys);
    Dict(d.terms, Some(s))
  }

  /**
   * `getTerms`: sorts on the first call and afterwards returns the cached
   * list, whatever was added since.
   */
  function GetTerms(d: Dict): (r: (Dict, seq<string>))
    requires Valid(d)
    ensures Valid(r.0) && r.0.terms == d.terms && r.0.sorted == Some(r.1)
    ensures d.sorted.Some? ==> r.0 == d
    ensures d.sorted.None? ==> r.0 == SortTerms(d)
  {
    var e := if d.sorted.Some? then d else SortTerms(d);
    (e, e.sorted.value)
  }

  /** Before any caching, `getTerms` lists exactly the dictionary's terms, sorted. */
  lemma GetTermsFresh(d: Dict)
    requires Valid(d) && d.sorted.None?
    ensures StrictlySortedStrings(GetTerms(d).1)
    ensures forall t :: t in GetTerms(d).1 <==> t in OrderedMap.Keys(d.terms)
  {
  }

  /** A term added after the list was cached is missing from `getTerms` until `sortTerms` runs again. */
  lemma GetTermsStale(d: Dict, term: string)
    requires Valid(d) && GetPostingsList(d, term).None?
    ensures var e := AddTerm(GetTerms(d).0, term).0;
      && term !in GetTerms(e).1
      && GetPostingsList(e, term).Some?
      && term in SortTerms(e).sorted.value
  {
  }

  // ---------------------------------------------------------------- counting terms

  function AddTerms(d: Dict, ts: seq<string>): Dict
    decreases |ts|
  {
    if |ts| == 0 then d else AddTerm(AddTerms(d, ts[..|ts| - 1]), ts[|ts| - 1]).0
  }

  function Distinct(ts: seq<string>): set<string> {
    set i | 0 <= i < |ts| :: ts[i]
  }

  lemma {:induction false} AddTermsKeys(ts: seq<string>)
    ensures Valid(AddTerms(Empty(), ts))
    ensures forall t :: t in OrderedMap.Keys(AddTerms(Empty(), ts).terms) <==> t in Distinct(ts)
    decreases |ts|
  {
    if |ts| > 0 {
      var p := ts[..|ts| - 1];
      AddTermsKeys(p);
      assert forall t :: t in Distinct(ts) <==> t in Distinct(p) || t == ts[|ts| - 1] by {
        forall t ensures t in Distinct(ts) <==> t in Distinct(p) || t == ts[|ts| - 1] {
          if t in Distinct(p) {
            var i :| 0 <= i < |p| && p[i] == t;
            assert ts[i] == t;
          }
          if t in Distinct(ts) {
            var i :| 0 <= i < |ts| && ts[i] == t;
            if i < |p| {
              assert p[i] == t;
            }
          }
        }
      }
    }
  }

  /** A sequence without repetitions has as many elements as its set. */
  lemma {:induction false} DistinctCardinality(s: seq<string>)
    requires forall i, j | 0 <= i < j < |s| :: s[i] != s[j]
    ensures |Distinct(s)| == |s|
    decreases |s|
  {
    if |s| > 0 {
      var p := s[..|s| - 1];
      var x := s[|s| - 1];
      DistinctCardinality(p);
      assert Distinct(s) == Distinct(p) + {x} by {
        forall t | t in Distinct(s) ensures t in Distinct(p) + {x} {
          var i :| 0 <= i < |s| && s[i] == t;
          if i < |p| {
            assert p[i] == t;
          }
        }
        forall t | t in Distinct(p) ensures t in Distinct(s) {
          var i :| 0 <= i < |p| && p[i] == t;
          assert s[i] == t;
        }
      }
      assert x !in Distinct(p);
    }
  }

  /** `getNumberOfTerms` after adding a stream of terms is the number of distinct terms in it. */
  lemma NumberOfTermsCountsDistinct(ts: seq<string>)
    ensures NumberOfTerms(AddTerms(Empty(), ts)) == |Distinct(ts)|
  {
    var d := AddTerms(Empty(), ts);
    AddTermsKeys(ts);
    var keys := OrderedMap.Keys(d.terms);
    DistinctCardinality(keys);
    assert Distinct(keys) == Distinct(ts) by {
      forall t ensures t in Distinct(keys) <==> t in Distinct(ts) {
        assert t in Distinct(keys) <==> t in keys;
      }
    }
  }

  // ---------------------------------------------------------------- the block file

  /** The postings list of a term known to be in the map. */
  function PostingsOf(terms: seq<(string, Postings)>, t: string): (p: Postings)
    requires t in OrderedMap.Keys(terms)
    ensures OrderedMap.Get(terms, t) == Some(p)
  {
    OrderedMap.InKeys(terms, t);
    OrderedMap.Get(terms, t).value
  }

  /** A term is written when its number of postings lies strictly between the thresholds. */
  predicate Kept(p: Postings, lo: int, hi: int) {
    lo < PostingsList.DocumentFrequency(p) < hi
  }

  function Line(term: string, p: Postings): string {
    term + "\t" + PostingsList.ToString(p) + "\n"
  }

  /** The lines written for `ts`, one per kept term, in the order of `ts`. */
  function Emit(terms: seq<(string, Postings)>, ts: seq<string>, lo: int, hi: int): string
    requires forall i | 0 <= i < |ts| :: ts[i] in OrderedMap.Keys(terms)
    decreases |ts|
  {
    if |ts| == 0 then ""
    else
      var p := PostingsOf(terms, ts[0]);
      if Kept(p, lo, hi) then Line(ts[0], p) + Emit(terms, ts[1..], lo, hi)
      else Emit(terms, ts[1..], lo, hi)
  }

  /**
   * `writeToDisk(lo, hi)`: the file text. Without a cached sorted list the
   * loop dereferences null.
   */
  function WriteToDisk(d: Dict, lo: int, hi: int): (r: Result<string>)
    requires Valid(d)
    ensures r.Failure? <==> d.sorted.None?
    ensures r.Failure? ==> r.error == NullPointer
    ensures r.Success? ==> r.value == Flatten(Lines(d.terms, Selected(d.terms, d.sorted.value, lo, hi)))
  {
    match d.sorted
    case None => Failure(NullPointer)
    case Some(ts) =>
      EmitIsLines(d.terms, ts, lo, hi);
      Success(Emit(d.terms, ts, lo, hi))
  }

  /** Reference filter: the terms of `ts` that are written, in the order of `ts`. */
  function Selected(terms: seq<(string, Postings)>, ts: seq<string>, lo: int, hi: int): (r: seq<string>)
    requires forall i | 0 <= i < |ts| :: ts[i] in OrderedMap.Keys(terms)
    ensures forall i | 0 <= i < |r| :: r[i] in OrderedMap.Keys(terms) && r[i] in ts
    decreases |ts|
  {
    if |ts| == 0 then []
    else
      var rest := Selected(terms, ts[1..], lo, hi);
      if Kept(PostingsOf(terms, ts[0]), lo, hi) then [ts[0]] + rest else rest
  }

  function Lines(terms: seq<(string, Postings)>, ts: seq<string>): (r: seq<string>)
    requires forall i | 0 <= i < |ts| :: ts[i] in OrderedMap.Keys(terms)
    ensures |r| == |ts|
    decreases |ts|
  {
    if |ts| == 0 then [] else [Line(ts[0], PostingsOf(terms, ts[0]))] + Lines(terms, ts[1..])
  }

  lemma LinesCons(terms: seq<(string, Postings)>, t: string, rest: seq<string>)
    requires t in OrderedMap.Keys(terms)
    requires forall i | 0 <= i < |rest| :: rest[i] in OrderedMap.Keys(terms)
    ensures Flatten(Lines(terms, [t] + rest)) == Line(t, PostingsOf(terms, t)) + Flatten(Lines(terms, rest))
  {
    var ts := [t] + rest;
    assert ts[0] == t && ts[1..] == rest;
    var ls := Lines(terms, ts);
    assert ls == [Line(t, PostingsOf(terms, t))] + Lines(terms, rest);
    assert ls[1..] == Lines(terms, rest);
  }

  lemma {:induction false} EmitIsLines(terms: seq<(string, Postings)>, ts: seq<string>, lo: int, hi: int)
    requires forall i | 0 <= i < |ts| :: ts[i] in OrderedMap.Keys(terms)
    ensures Emit(terms, ts, lo, hi) == Flatten(Lines(terms, Selected(terms, ts, lo, hi)))
    decreases |ts|
  {
    if |ts| > 0 {
      EmitIsLines(terms, ts[1..], lo, hi);
      var rest := Selected(terms, ts[1..], lo, hi);
      if Kept(PostingsOf(terms, ts[0]), lo, hi) {
        assert Selected(terms, ts, lo, hi) == [ts[0]] + rest;
        LinesCons(terms, ts[0], rest);
      }
    }
  }

  /**
   * The written terms are exactly the cached terms whose postings size is
   * strictly between the thresholds, and they keep the sorted order.
   */
  lemma {:induction false} SelectedTerms(terms: seq<(string, Postings)>, ts: seq<string>, lo: int, hi: int)
    requires forall i | 0 <= i < |ts| :: ts[i] in OrderedMap.Keys(terms)
    ensures forall t :: t in Selected(terms, ts, lo, hi) <==>
      t in ts && OrderedMap.Get(terms, t).Some? && Kept(OrderedMap.Get(terms, t).value, lo, hi)
    ensures StrictlySortedStrings(ts) ==> StrictlySortedStrings(Selected(terms, ts, lo, hi))
    decreases |ts|
  {
    if |ts| > 0 {
      SelectedTerms(terms, ts[1..], lo, hi);
      var p := PostingsOf(terms, ts[0]);
      assert forall t :: t in ts <==> t == ts[0] || t in ts[1..];
      var rest := Selected(terms, ts[1..], lo, hi);
      if StrictlySortedStrings(ts) {
        assert forall j | 0 <= j < |rest| :: LexLess(ts[0], rest[j]) by {
          forall j | 0 <= j < |rest| ensures LexLess(ts[0], rest[j]) {
            var k :| 1 <= k < |ts| && ts[k] == rest[j];
          }
        }
      }
    }
  }

  /** The file lists exactly the kept terms of the whole dictionary once a sorted list is cached fresh. */
  lemma WriteAfterSort(d: Dict, lo: int, hi: int, t: string)
    requires Valid(d)
    ensures var s := SortTerms(d);
      && WriteToDisk(s, lo, hi).Success?
      && (t in Selected(s.terms, s.sorted.value, lo, hi) <==>
          GetPostingsList(d, t).Some? && Kept(GetPostingsList(d, t).value, lo, hi))
      && StrictlySortedStrings(Selected(s.terms, s.sorted.value, lo, hi))
  {
    var s := SortTerms(d);
    SelectedTerms(s.terms, s.sorted.value, lo, hi);
  }
}
