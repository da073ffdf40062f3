/**
 * The fixed-size priority queue of the retrieval side: a list kept in
 * priority order by insertion, cut back to at most `size` entries after every
 * insertion. Values come either with a `double` priority (kept in a second,
 * parallel list) or are ordered by a comparator.
 *
 * Priorities are modelled as reals: for finite doubles the sign of
 * `val - priority`, which decides the insertion point, is the sign of the
 * exact difference.
 */
module SizedPriorityQueue {
  import opened Wrappers
  import opened Text

  datatype Queue<!T> = Queue(
    size: int,
    getLowest: bool,
    comparator: Option<(T, T) -> int>,
    values: seq<T>,
    priorities: seq<real>)

  /** The two constructors: both lists start empty. */
  function New<T>(size: int, getLowest: bool, comparator: Option<(T, T) -> int>): Queue<T> {
    Queue(size, getLowest, comparator, [], [])
  }

  /** `mSize - 1` in Java `int` arithmetic, which wraps below the smallest `int`. */
  function Limit(size: int): int
    requires IsInt32(size)
  {
    if size == INT_MIN then INT_MAX else size - 1
  }

  /** An element whose comparison with the newcomer is `less`/`greater` ends the scan. */
  predicate Stops(getLowest: bool, less: bool, greater: bool) {
    (getLowest && less) || (!getLowest && greater)
  }

  /** The scan of `add(value, priority)`: the first priority below (or, tracking highest-last, above) `p`. */
  function PriorityIndex(ps: seq<real>, p: real, getLowest: bool): (i: nat)
    ensures i <= |ps|
    decreases |ps|
  {
    if |ps| == 0 || Stops(getLowest, ps[0] - p < 0.0, ps[0] - p > 0.0) then 0
    else 1 + PriorityIndex(ps[1..], p, getLowest)
  }

  /** The scan of `add(value)`: the first value the comparator puts below (or above) the newcomer. */
  function ValueIndex<T>(vs: seq<T>, v: T, cmp: (T, T) -> int, getLowest: bool): (i: nat)
    ensures i <= |vs|
    decreases |vs|
  {
    if |vs| == 0 || Stops(getLowest, cmp(vs[0], v) < 0, cmp(vs[0], v) > 0) then 0
    else 1 + ValueIndex(vs[1..], v, cmp, getLowest)
  }

  function Insert<X>(xs: seq<X>, i: nat, x: X): (r: seq<X>)
    requires i <= |xs|
    ensures |r| == |xs| + 1 && r[i] == x
    ensures r[..i] == xs[..i] && r[i + 1..] == xs[i..]
  {
    xs[..i] + [x] + xs[i..]
  }

  /** The value list and the priority list have the same length. */
  predicate Aligned<T>(q: Queue<T>) {
    |q.values| == |q.priorities|
  }

  /** Priorities never increase along the list when `getLowest` holds, and never decrease otherwise. */
  predicate Ordered(getLowest: bool, ps: seq<real>) {
    forall i, j | 0 <= i < j < |ps| :: if getLowest then ps[i] >= ps[j] else ps[i] <= ps[j]
  }

  /** The insertion of `add(value, priority)`, made only when the index is below `limit`. */
  function AddBelow<T>(q: Queue<T>, v: T, p: real, limit: int): (r: Result<Queue<T>>)
    ensures Aligned(q) && 0 <= q.size ==> r.Success?
    ensures r.Success? ==> r.value.size == q.size && r.value.getLowest == q.getLowest && r.value.comparator == q.comparator
  {
    var i := PriorityIndex(q.priorities, p, q.getLowest);
    if i < limit && |q.values| < i then Failure(IndexOutOfBounds)
    else
      var q1 := if i < limit then q.(values := Insert(q.values, i, v), priorities := Insert(q.priorities, i, p)) else q;
      if |q1.values| <= q1.size then Success(q1)
      else if |q1.values| == 0 || |q1.priorities| == 0 then Failure(NoSuchElement)
      else Success(q1.(values := q1.values[..|q1.values| - 1], priorities := q1.priorities[..|q1.priorities| - 1]))
  }

  /** `add(value, priority)` as written: the value is inserted only when its index is below `size - 1`. */
  function AddWithPriority<T>(q: Queue<T>, v: T, p: real): (r: Result<Queue<T>>)
    requires IsInt32(q.size)
    ensures Aligned(q) && 0 <= q.size ==> r.Success?
  {
    AddBelow(q, v, p, Limit(q.size))
  }

  /** `add(value, priority)` with the bound it evidently intends: an index below `size` is a free or better slot. */
  function AddWithPriorityCorrected<T>(q: Queue<T>, v: T, p: real): (r: Result<Queue<T>>)
    ensures Aligned(q) && 0 <= q.size ==> r.Success?
  {
    AddBelow(q, v, p, q.size)
  }

  /**
   * `add(value)`: without a comparator it throws; otherwise the value list
   * alone gets the value at the comparator's insertion index, if that index
   * is below `size - 1`, and is cut back to `size`.
   */
  function Add<T>(q: Queue<T>, v: T): (r: Result<Queue<T>>)
    requires IsInt32(q.size)
    ensures q.comparator.None? ==> r == Failure(Runtime)
    ensures q.comparator.Some? && 0 <= q.size ==> r.Success?
    ensures r.Success? ==> r.value.priorities == q.priorities && r.value.size == q.size
  {
    match q.comparator
    case None => Failure(Runtime)
    case Some(cmp) =>
      var i := ValueIndex(q.values, v, cmp, q.getLowest);
      var vs := if i < Limit(q.size) then Insert(q.values, i, v) else q.values;
      if |vs| <= q.size then Success(q.(values := vs))
      else if |vs| == 0 then Failure(NoSuchElement)
      else Success(q.(values := vs[..|vs| - 1]))
  }

  /** `pop()`: removes the head value and, if there is one, the head priority; an empty list throws. */
  function Pop<T>(q: Queue<T>): (r: Result<(T, Queue<T>)>)
    ensures r.Success? <==> |q.values| > 0
    ensures r.Success? ==> [r.value.0] + r.value.1.values == q.values
    ensures r.Success? && Aligned(q) ==> [q.priorities[0]] + r.value.1.priorities == q.priorities
  {
    if |q.values| == 0 then Failure(NoSuchElement)
    else
      var ps := if |q.priorities| > 0 then q.priorities[1..] else q.priorities;
      Success((q.values[0], q.(values := q.values[1..], priorities := ps)))
  }

  /** `poll()`: the head value without removing it, or null for an empty list. */
  function Poll<T>(q: Queue<T>): (r: Option<T>)
    ensures r.Some? <==> |q.values| > 0
  {
    if |q.values| == 0 then None else Some(q.values[0])
  }

  function Size<T>(q: Queue<T>): nat {
    |q.values|
  }

  // ------------------------------------------------------------------ scans

  /**
   * The insertion index is the first position whose priority stops the scan;
   * every priority before it, equal ones included, stays ahead of the newcomer.
   */
  lemma {:induction false} PriorityIndexFirst(ps: seq<real>, p: real, getLowest: bool)
    ensures var i := PriorityIndex(ps, p, getLowest);
      && (forall j | 0 <= j < i :: if getLowest then ps[j] >= p else ps[j] <= p)
      && (i < |ps| ==> if getLowest then ps[i] < p else ps[i] > p)
    decreases |ps|
  {
    if |ps| != 0 && !Stops(getLowest, ps[0] - p < 0.0, ps[0] - p > 0.0) {
      PriorityIndexFirst(ps[1..], p, getLowest);
      var i := PriorityIndex(ps, p, getLowest);
      forall j | 0 <= j < i ensures if getLowest then ps[j] >= p else ps[j] <= p {
        if j > 0 {
          assert ps[j] == ps[1..][j - 1];
        }
      }
    }
  }

  /** The comparator scan stops at the first value it compares below (or above) the newcomer. */
  lemma {:induction false} ValueIndexFirst<T>(vs: seq<T>, v: T, cmp: (T, T) -> int, getLowest: bool)
    ensures var i := ValueIndex(vs, v, cmp, getLowest);
      && (forall j | 0 <= j < i :: if getLowest then cmp(vs[j], v) >= 0 else cmp(vs[j], v) <= 0)
      && (i < |vs| ==> if getLowest then cmp(vs[i], v) < 0 else cmp(vs[i], v) > 0)
    decreases |vs|
  {
    if |vs| != 0 && !Stops(getLowest, cmp(vs[0], v) < 0, cmp(vs[0], v) > 0) {
      ValueIndexFirst(vs[1..], v, cmp, getLowest);
      var i := ValueIndex(vs, v, cmp, getLowest);
      forall j | 0 <= j < i ensures if getLowest then cmp(vs[j], v) >= 0 else cmp(vs[j], v) <= 0 {
        if j > 0 {
          assert vs[j] == vs[1..][j - 1];
        }
      }
    }
  }

  // ------------------------------------------------------------- invariants

  /** A queue within its bound, with aligned lists, stays so after `add(value, priority)`, for any insertion bound. */
  lemma AddBelowBounded<T>(q: Queue<T>, v: T, p: real, limit: int)
    requires Aligned(q) && |q.values| <= q.size
    ensures AddBelow(q, v, p, limit).Success?
    ensures var r := AddBelow(q, v, p, limit).value; Aligned(r) && Size(r) <= q.size
  {
  }

  /** Inserting `p` at its scan index keeps the priorities ordered. */
  lemma InsertOrdered(ps: seq<real>, p: real, getLowest: bool)
    requires Ordered(getLowest, ps)
    ensures Ordered(getLowest, Insert(ps, PriorityIndex(ps, p, getLowest), p))
  {
    var i := PriorityIndex(ps, p, getLowest);
    var r := Insert(ps, i, p);
    PriorityIndexFirst(ps, p, getLowest);
    forall a, b | 0 <= a < b < |r| ensures if getLowest then r[a] >= r[b] else r[a] <= r[b] {
      if b < i {
        assert r[a] == ps[a] && r[b] == ps[b];
      } else if b == i {
        assert r[a] == ps[a];
      } else if a < i {
        assert r[a] == ps[a] && r[b] == ps[b - 1];
      } else if a == i {
        assert r[b] == ps[b - 1];
        assert b - 1 == i || (if getLowest then ps[i] >= ps[b - 1] else ps[i] <= ps[b - 1]);
      } else {
        assert r[a] == ps[a - 1] && r[b] == ps[b - 1];
      }
    }
  }

  /** `add(value, priority)` keeps the priorities ordered, for any insertion bound. */
  lemma AddBelowOrdered<T>(q: Queue<T>, v: T, p: real, limit: int)
    requires Ordered(q.getLowest, q.priorities)
    requires AddBelow(q, v, p, limit).Success?
    ensures Ordered(q.getLowest, AddBelow(q, v, p, limit).value.priorities)
  {
    InsertOrdered(q.priorities, p, q.getLowest);
  }

  /**
   * Where the newcomer goes: below the bound it lands at its scan index with
   * every entry ahead of it unchanged and the rest shifted back by one; at or
   * beyond the bound the queue keeps its lists.
   */
  lemma AddBelowPlaces<T>(q: Queue<T>, v: T, p: real, limit: int)
    requires Aligned(q) && |q.values| <= q.size && limit <= q.size
    ensures var i := PriorityIndex(q.priorities, p, q.getLowest);
      var r := AddBelow(q, v, p, limit).value;
      && (i < limit ==> i < |r.values| && r.values[i] == v && r.priorities[i] == p
                        && r.values[..i] == q.values[..i] && r.priorities[..i] == q.priorities[..i]
                        && r.values[i + 1..] <= q.values[i..] && r.priorities[i + 1..] <= q.priorities[i..])
      && (limit <= i ==> r == q)
  {
    var i := PriorityIndex(q.priorities, p, q.getLowest);
    if i < limit {
      var r := AddBelow(q, v, p, limit).value;
      AddBelowShape(q, v, p, limit);
      assert i < |r.values| && r.values[i] == v && r.values[..i] == q.values[..i] && r.values[i + 1..] <= q.values[i..] by {
        PlaceInBound(q.values, i, v, q.size);
      }
      assert r.priorities[i] == p && r.priorities[..i] == q.priorities[..i] && r.priorities[i + 1..] <= q.priorities[i..] by {
        PlaceInBound(q.priorities, i, p, q.size);
      }
    }
  }

  /** For an aligned queue within its bound, both lists get the insertion below the bound, then the cut. */
  lemma AddBelowShape<T>(q: Queue<T>, v: T, p: real, limit: int)
    requires Aligned(q) && |q.values| <= q.size
    ensures var i := PriorityIndex(q.priorities, p, q.getLowest);
      var r := AddBelow(q, v, p, limit).value;
      && r.values == (if i < limit then Trim(Insert(q.values, i, v), q.size) else q.values)
      && r.priorities == (if i < limit then Trim(Insert(q.priorities, i, p), q.size) else q.priorities)
  {
  }

  /** A list with one entry too many loses its last one. */
  function Trim<X>(xs: seq<X>, size: int): seq<X> {
    if |xs| <= size || |xs| == 0 then xs else xs[..|xs| - 1]
  }

  /** An insertion below the bound survives the cut, behind the same entries as before. */
  lemma PlaceInBound<X>(xs: seq<X>, i: nat, x: X, size: int)
    requires i <= |xs| <= size && i < size
    ensures var zs := Trim(Insert(xs, i, x), size);
      i < |zs| && zs[i] == x && zs[..i] == xs[..i] && zs[i + 1..] <= xs[i..]
  {
    var ys := Insert(xs, i, x);
    var zs := Trim(ys, size);
    assert zs <= ys;
    assert zs[..i] == ys[..i];
    assert zs[i + 1..] <= ys[i + 1..];
  }

  /** `pop()` keeps the lists aligned and the priorities ordered. */
  lemma PopKeeps<T>(q: Queue<T>)
    requires Aligned(q) && Ordered(q.getLowest, q.priorities) && |q.values| > 0
    ensures Aligned(Pop(q).value.1) && Ordered(q.getLowest, Pop(q).value.1.priorities)
  {
    var ps := q.priorities;
    forall a, b | 0 <= a < b < |ps[1..]| ensures if q.getLowest then ps[1..][a] >= ps[1..][b] else ps[1..][a] <= ps[1..][b] {
      assert ps[1..][a] == ps[a + 1] && ps[1..][b] == ps[b + 1];
    }
  }

  /** `poll()` shows the value the next `pop()` returns. */
  lemma PollThenPop<T>(q: Queue<T>)
    requires Poll(q).Some?
    ensures Pop(q).Success? && Pop(q).value.0 == Poll(q).value
  {
  }

  // ------------------------------------------------------- the lost slot

  /**
   * As written, a value whose place is the last free slot is dropped: with
   * `size - 1` entries and a newcomer that belongs at the end, the queue stays
   * as it was although it has room.
   */
  lemma LastSlotDropped<T>(q: Queue<T>, v: T, p: real)
    requires IsInt32(q.size) && 1 <= q.size
    requires Aligned(q) && |q.values| == q.size - 1
    requires PriorityIndex(q.priorities, p, q.getLowest) == |q.priorities|
    ensures AddWithPriority(q, v, p) == Success(q)
  {
  }

  /** As written, a queue of size one never takes a value. */
  lemma SizeOneStaysEmpty<T>(getLowest: bool, v: T, p: real)
    ensures AddWithPriority(New<T>(1, getLowest, None), v, p) == Success(New<T>(1, getLowest, None))
  {
  }

  /**
   * With the intended bound, the queue holds the first `size` entries of the
   * priority-ordered list of all its entries and the newcomer.
   */
  lemma CorrectedKeepsBest<T>(q: Queue<T>, v: T, p: real)
    requires Aligned(q) && |q.values| <= q.size && Ordered(q.getLowest, q.priorities)
    ensures var all := Insert(q.priorities, PriorityIndex(q.priorities, p, q.getLowest), p);
      && Ordered(q.getLowest, all)
      && multiset(all) == multiset(q.priorities) + multiset{p}
      && AddWithPriorityCorrected(q, v, p).value.priorities == all[..Min(q.size, |all|)]
  {
    var i := PriorityIndex(q.priorities, p, q.getLowest);
    InsertOrdered(q.priorities, p, q.getLowest);
    InsertMultiset(q.priorities, i, p);
    CorrectedPrefix(q, v, p, i);
  }

  lemma CorrectedPrefix<T>(q: Queue<T>, v: T, p: real, i: nat)
    requires Aligned(q) && |q.values| <= q.size
    requires i == PriorityIndex(q.priorities, p, q.getLowest)
    ensures var all := Insert(q.priorities, i, p);
      AddWithPriorityCorrected(q, v, p).value.priorities == all[..Min(q.size, |all|)]
  {
    AddBelowShape(q, v, p, q.size);
    var all := Insert(q.priorities, i, p);
    if i >= q.size {
      assert all[..q.size] == q.priorities;
    }
  }

  /** An insertion adds exactly the inserted element. */
  lemma InsertMultiset<X>(xs: seq<X>, i: nat, x: X)
    requires i <= |xs|
    ensures multiset(Insert(xs, i, x)) == multiset(xs) + multiset{x}
  {
    assert xs == xs[..i] + xs[i..];
  }

  /** The corrected queue of size one holds the value added to it. */
  lemma CorrectedSizeOneTakes<T>(getLowest: bool, v: T, p: real)
    ensures AddWithPriorityCorrected(New<T>(1, getLowest, None), v, p).value.values == [v]
  {
  }

  function Min(a: int, b: int): int { if a <= b then a else b }

  // ------------------------------------------------- the inverted flag

  /**
   * As written, `getLowest` keeps the highest values: a queue of size two
   * that tracks the lowest priorities and is given 1, 2 and 3 ends up
   * holding 3 and 2.
   */
  lemma GetLowestKeepsHighest()
    ensures var q1 := AddWithPriority(New<int>(2, true, None), 1, 1.0);
      && q1.Success?
      && var q2 := AddWithPriority(q1.value, 2, 2.0);
      && q2.Success?
      && var q3 := AddWithPriority(q2.value, 3, 3.0);
      && q3 == Success(Queue(2, true, None, [3, 2], [3.0, 2.0]))
  {
    WrittenFirst();
    WrittenSecond();
    WrittenThird();
  }

  lemma WrittenFirst()
    ensures AddWithPriority(New<int>(2, true, None), 1, 1.0) == Success(Queue(2, true, None, [1], [1.0]))
  {
    AddBelowShape(New<int>(2, true, None), 1, 1.0, Limit(2));
    assert Insert<int>([], 0, 1) == [1] && Insert<real>([], 0, 1.0) == [1.0];
  }

  lemma WrittenSecond()
    ensures AddWithPriority(Queue(2, true, None, [1], [1.0]), 2, 2.0) == Success(Queue(2, true, None, [2, 1], [2.0, 1.0]))
  {
    AddBelowShape(Queue(2, true, None, [1], [1.0]), 2, 2.0, Limit(2));
    assert PriorityIndex([1.0], 2.0, true) == 0;
    assert Insert([1], 0, 2) == [2, 1] && Insert([1.0], 0, 2.0) == [2.0, 1.0];
  }

  lemma WrittenThird()
    ensures AddWithPriority(Queue(2, true, None, [2, 1], [2.0, 1.0]), 3, 3.0) == Success(Queue(2, true, None, [3, 2], [3.0, 2.0]))
  {
    AddBelowShape(Queue(2, true, None, [2, 1], [2.0, 1.0]), 3, 3.0, Limit(2));
    assert PriorityIndex([2.0, 1.0], 3.0, true) == 0;
    assert Insert([2, 1], 0, 3) == [3, 2, 1] && Insert([2.0, 1.0], 0, 3.0) == [3.0, 2.0, 1.0];
    assert [3, 2, 1][..2] == [3, 2] && [3.0, 2.0, 1.0][..2] == [3.0, 2.0];
  }

  /**
   * `add(value, priority)` as its documentation describes it: the scan
   * compares with `priority - val`, the sign kept in a comment beside the
   * one in use, so that `getLowest` orders the list from the lowest up; and
   * an index below `size` takes the value.
   */
  function AddIntended<T>(q: Queue<T>, v: T, p: real): (r: Result<Queue<T>>)
    ensures Aligned(q) && 0 <= q.size ==> r.Success?
    ensures r.Success? ==> r.value.size == q.size && r.value.getLowest == q.getLowest && r.value.comparator == q.comparator
  {
    match AddBelow(q.(getLowest := !q.getLowest), v, p, q.size)
    case Success(r) => Success(r.(getLowest := q.getLowest))
    case Failure(e) => Failure(e)
  }

  /**
   * The intended queue keeps the `size` lowest priorities when `getLowest`
   * holds and the `size` highest otherwise: its priorities are the first
   * `size` entries of all its entries and the newcomer, sorted with the kept
   * end first, and none it drops beats one it keeps.
   */
  lemma IntendedKeepsTracked<T>(q: Queue<T>, v: T, p: real)
    requires Aligned(q) && |q.values| <= q.size && Ordered(!q.getLowest, q.priorities)
    ensures var all := Insert(q.priorities, PriorityIndex(q.priorities, p, !q.getLowest), p);
      var n := Min(q.size, |all|);
      && multiset(all) == multiset(q.priorities) + multiset{p}
      && AddIntended(q, v, p).value.priorities == all[..n]
      && Ordered(!q.getLowest, all[..n])
      && (forall a, b | 0 <= a < n <= b < |all| :: if q.getLowest then all[a] <= all[b] else all[a] >= all[b])
  {
    var f := q.(getLowest := !q.getLowest);
    CorrectedKeepsBest(f, v, p);
    var all := Insert(q.priorities, PriorityIndex(q.priorities, p, !q.getLowest), p);
    var n := Min(q.size, |all|);
    forall a, b | 0 <= a < b < n ensures if !q.getLowest then all[..n][a] >= all[..n][b] else all[..n][a] <= all[..n][b] {
      assert all[..n][a] == all[a] && all[..n][b] == all[b];
    }
  }

  /** With the documented order the same three additions leave 1 and 2. */
  lemma IntendedKeepsLowestExample()
    ensures var q1 := AddIntended(New<int>(2, true, None), 1, 1.0);
      && q1.Success?
      && var q2 := AddIntended(q1.value, 2, 2.0);
      && q2.Success?
      && var q3 := AddIntended(q2.value, 3, 3.0);
      && q3 == Success(Queue(2, true, None, [1, 2], [1.0, 2.0]))
  {
    IntendedFirst();
    IntendedSecond();
    IntendedThird();
  }

  lemma IntendedFirst()
    ensures AddIntended(New<int>(2, true, None), 1, 1.0) == Success(Queue(2, true, None, [1], [1.0]))
  {
    AddBelowShape(New<int>(2, false, None), 1, 1.0, 2);
    assert Insert<int>([], 0, 1) == [1] && Insert<real>([], 0, 1.0) == [1.0];
  }

  lemma IntendedSecond()
    ensures AddIntended(Queue(2, true, None, [1], [1.0]), 2, 2.0) == Success(Queue(2, true, None, [1, 2], [1.0, 2.0]))
  {
    AddBelowShape(Queue(2, false, None, [1], [1.0]), 2, 2.0, 2);
    assert PriorityIndex([1.0], 2.0, false) == 1 by {
      assert PriorityIndex([1.0][1..], 2.0, false) == 0;
    }
    assert Insert([1], 1, 2) == [1, 2] && Insert([1.0], 1, 2.0) == [1.0, 2.0];
  }

  lemma IntendedThird()
    ensures AddIntended(Queue(2, true, None, [1, 2], [1.0, 2.0]), 3, 3.0) == Success(Queue(2, true, None, [1, 2], [1.0, 2.0]))
  {
    AddBelowShape(Queue(2, false, None, [1, 2], [1.0, 2.0]), 3, 3.0, 2);
    assert PriorityIndex([1.0, 2.0], 3.0, false) == 2 by {
      assert PriorityIndex([1.0, 2.0][1..], 3.0, false) == 1 by {
        assert PriorityIndex([1.0, 2.0][1..][1..], 3.0, false) == 0;
      }
    }
  }

  // ---------------------------------------------------- comparator variant

  /** `add(value)` keeps the value list within the bound and never touches the priorities. */
  lemma AddBounded<T>(q: Queue<T>, v: T)
    requires IsInt32(q.size) && q.comparator.Some? && |q.values| <= q.size
    ensures Add(q, v).Success? && Size(Add(q, v).value) <= q.size
  {
  }

  /** `add(value)` puts the newcomer at the comparator's scan index when that is below `size - 1`, and keeps the list otherwise. */
  lemma AddPlaces<T>(q: Queue<T>, v: T)
    requires IsInt32(q.size) && q.comparator.Some? && |q.values| <= q.size
    ensures var i := ValueIndex(q.values, v, q.comparator.value, q.getLowest);
      var r := Add(q, v).value;
      && (i < Limit(q.size) ==> i < |r.values| && r.values[i] == v && r.values[..i] == q.values[..i] && r.values[i + 1..] <= q.values[i..])
      && (Limit(q.size) <= i ==> r == q)
  {
  }
}
