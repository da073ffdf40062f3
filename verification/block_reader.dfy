/**
 * The block readers `BufferedBlockMatrixReader` and
 * `BufferedBlockDictionaryReader`. Both walk the same line format chunk by
 * chunk and differ only in how a record's key and an entry's value are
 * parsed, so one reader is modelled with the two parsers as parameters:
 * the matrix reader parses keys with `Integer.valueOf` and values with
 * `Float.parseFloat`, the dictionary reader keeps keys as they are and parses
 * values with `Integer.parseInt`.
 *
 * The file arrives as a sequence of chunks (the reads of the input stream).
 * A read failure, an exception and the end of the stream are told apart:
 * `Crashed` is a thrown exception, `Exhausted` is the `null` that ends the
 * stream.
 */
module BlockReader {
  import opened Wrappers
  import opened Text

  /** One entry of a block, with the key of its record. */
  datatype Entry<K, V> = Entry(key: K, id: int, value: V)

  /**
   * The reader's fields: the unprocessed text `cs` (`currentString`), the tab
   * position the reader tracks, the key of the record being read, the number
   * of keys read so far, and the chunks the stream has not yet delivered.
   */
  datatype State<K> = State(cs: string, nextTab: int, key: K, counter: int, chunks: seq<string>)

  /** What preparing the next entry does: an entry, the `null` end, or an exception. */
  datatype Step<K, V> =
    | Produced(entry: Entry<K, V>, next: State<K>)
    | Exhausted(rest: State<K>)
    | Crashed(error: Error)

  /** The tab position as the reader stores it: `Integer.MAX_VALUE` when there is none. */
  function TabOf(s: string): (r: int)
    ensures '\t' in s ==> r == IndexOf(s, '\t')
    ensures '\t' !in s ==> r == INT_MAX
  {
    var i := IndexOf(s, '\t');
    if i == -1 then INT_MAX else i
  }

  /** The buffer holds a whole entry's delimiters. */
  predicate Complete(s: string) {
    '<' in s && ':' in s && '>' in s
  }

  /** The text the reader has not consumed yet: the buffer, then the undelivered chunks. */
  function Remaining<K>(st: State<K>): string {
    st.cs + Flatten(st.chunks)
  }

  /** The tracked tab position is the first tab, or lies beyond the buffer when it holds none. */
  predicate TabTracked(cs: string, nextTab: int) {
    && ('\t' in cs ==> nextTab == IndexOf(cs, '\t'))
    && ('\t' !in cs ==> nextTab >= |cs|)
  }

  /**
   * The loading loop of `prepareNextEntry`: while the buffer lacks an
   * entry's delimiters, append the next chunk and recompute the tab
   * position; a read at the end of the stream recomputes it once more.
   */
  function Load<K>(st: State<K>): (r: State<K>)
    ensures Remaining(r) == Remaining(st)
    ensures r.key == st.key && r.counter == st.counter
    ensures Complete(r.cs) <==> Complete(Remaining(st))
    ensures !Complete(r.cs) ==> r.chunks == [] && r.nextTab == TabOf(r.cs)
    ensures TabTracked(st.cs, st.nextTab) && |Remaining(st)| <= INT_MAX ==> TabTracked(r.cs, r.nextTab)
    decreases |st.chunks|
  {
    if Complete(st.cs) then
      assert forall c | c in st.cs :: c in Remaining(st) by {
        forall c | c in st.cs ensures c in Remaining(st) {
          var i :| 0 <= i < |st.cs| && st.cs[i] == c;
          assert Remaining(st)[i] == c;
        }
      }
      st
    else if |st.chunks| == 0 then
      assert Remaining(st) == st.cs;
      st.(nextTab := TabOf(st.cs))
    else
      var cs := st.cs + st.chunks[0];
      ConcatAssoc(st.cs, st.chunks[0], Flatten(st.chunks[1..]));
      Load(st.(cs := cs, nextTab := TabOf(cs), chunks := st.chunks[1..]))
  }

  /**
   * The end of `prepareNextEntry`: parse the entry `<id:value>` whose
   * delimiters are at `b`, `m` and `e`, then drop the buffer through `e`
   * and move the tracked tab position along. Every reader parses ids with
   * `Integer.parseInt`; `parseId` stands for it (see `ReadFile`).
   */
  function Finish<K, V>(cs: string, b: int, m: int, e: int, nextTab: int, key: K, counter: int,
                        chunks: seq<string>, parseId: string -> Option<int>, parseValue: string -> Option<V>): (r: Step<K, V>)
    ensures !r.Exhausted?
    ensures r.Produced? ==> |r.next.cs| < |cs| && r.next.chunks == chunks
  {
    match Substring(cs, b + 1, m)
    case None => Crashed(IndexOutOfBounds)
    case Some(idText) =>
      match parseId(idText)
      case None => Crashed(NumberFormat)
      case Some(id) =>
        match Substring(cs, m + 1, e)
        case None => Crashed(IndexOutOfBounds)
        case Some(valueText) =>
          match parseValue(valueText)
          case None => Crashed(NumberFormat)
          case Some(v) =>
            match Substring(cs, e + 1, |cs|)
            case None => Crashed(IndexOutOfBounds)
            case Some(rest) => Produced(Entry(key, id, v), State(rest, nextTab - (e + 1), key, counter, chunks))
  }

  /**
   * `prepareNextEntry`. After loading: no whole entry left ends the stream;
   * an entry before the tracked tab belongs to the current record; otherwise
   * the key between the first line break and the tab is parsed first (a
   * missing line break also ends the stream).
   */
  function Prepare<K, V>(st: State<K>, parseKey: string -> Option<K>, parseId: string -> Option<int>, parseValue: string -> Option<V>): (r: Step<K, V>)
    ensures r.Exhausted? ==> Remaining(r.rest) == Remaining(st)
    ensures r.Produced? ==> |Remaining(r.next)| < |Remaining(st)|
  {
    var s := Load(st);
    var cs := s.cs;
    if !Complete(cs) then Exhausted(s)
    else
      var b, m, e := IndexOf(cs, '<'), IndexOf(cs, ':'), IndexOf(cs, '>');
      if b < s.nextTab then
        Finish(cs, b, m, e, s.nextTab, s.key, s.counter, s.chunks, parseId, parseValue)
      else
        NextRecord(s, b, m, e, parseKey, parseId, parseValue)
  }

  /**
   * The branch of `prepareNextEntry` for an entry past the tracked tab: the
   * text between the first line break and the tab is the next record's key,
   * and the buffer restarts after that tab.
   */
  function NextRecord<K, V>(s: State<K>, b: int, m: int, e: int,
                            parseKey: string -> Option<K>, parseId: string -> Option<int>, parseValue: string -> Option<V>): (r: Step<K, V>)
    ensures r.Exhausted? ==> r.rest == s
    ensures r.Produced? ==> |r.next.cs| < |s.cs| && r.next.chunks == s.chunks
  {
    var cs := s.cs;
    var nl := IndexOf(cs, '\n');
    if nl == -1 then Exhausted(s)
    else
      match Substring(cs, nl + 1, s.nextTab)
      case None => Crashed(IndexOutOfBounds)
      case Some(keyText) =>
        match parseKey(keyText)
        case None => Crashed(NumberFormat)
        case Some(key) =>
          match Substring(cs, s.nextTab + 1, |cs|)
          case None => Crashed(IndexOutOfBounds)
          case Some(cs2) =>
            var shift := s.nextTab + 1;
            Finish(cs2, b - shift, m - shift, e - shift, TabOf(cs2), key, s.counter + 1, s.chunks, parseId, parseValue)
  }

  /** Once the stream has ended, preparing again ends it again and changes nothing. */
  lemma ExhaustedAbsorbs<K, V>(st: State<K>, parseKey: string -> Option<K>, parseId: string -> Option<int>, parseValue: string -> Option<V>)
    requires Prepare(st, parseKey, parseId, parseValue).Exhausted?
    ensures var s := Prepare(st, parseKey, parseId, parseValue).rest;
      Prepare(s, parseKey, parseId, parseValue) == Exhausted(s)
  {
    var s := Load(st);
    assert Prepare(st, parseKey, parseId, parseValue).rest == s;
    assert Load(s) == s;
  }

  // ---------------------------------------------------------------- producers

  /**
   * One call of `prepareNextEntry` as a function of the reader's fields. The
   * stream logic below only needs two facts about it: producing an entry
   * consumes text, and the end of the stream is final.
   */
  type Producer<!K, V> = State<K> -> Step<K, V>

  ghost predicate Consumes<K(!new), V>(prep: Producer<K, V>) {
    forall st: State<K> ::
      && (prep(st).Produced? ==> |Remaining(prep(st).next)| < |Remaining(st)|)
      && (prep(st).Exhausted? ==> Remaining(prep(st).rest) == Remaining(st))
  }

  ghost predicate EndIsFinal<K(!new), V>(prep: Producer<K, V>) {
    forall st: State<K> :: prep(st).Exhausted? ==> prep(prep(st).rest) == prep(st)
  }

  /** The block reader's own producer. */
  function Preparer<K(!new), V>(parseKey: string -> Option<K>, parseId: string -> Option<int>, parseValue: string -> Option<V>): (prep: Producer<K, V>)
    ensures Consumes(prep) && EndIsFinal(prep)
  {
    var prep := st => Prepare(st, parseKey, parseId, parseValue);
    assert EndIsFinal(prep) by {
      forall st: State<K> | prep(st).Exhausted? ensures prep(prep(st).rest) == prep(st) {
        ExhaustedAbsorbs(st, parseKey, parseId, parseValue);
      }
    }
    prep
  }

  /** The entries a producer yields from a state on, in order, up to the end or the first exception. */
  function Drain<K(!new), V>(st: State<K>, prep: Producer<K, V>): Result<seq<Entry<K, V>>>
    requires Consumes(prep)
    decreases |Remaining(st)|
  {
    match prep(st)
    case Crashed(err) => Failure(err)
    case Exhausted(_) => Success([])
    case Produced(x, next) =>
      var rest :- Drain(next, prep);
      Success([x] + rest)
  }

  /** `Drain` after one produced entry. */
  lemma DrainProduced<K(!new), V>(st: State<K>, prep: Producer<K, V>)
    requires Consumes(prep) && prep(st).Produced?
    ensures Drain(st, prep) == Prepend([prep(st).entry], Drain(prep(st).next, prep))
  {
  }

  // ---------------------------------------------------------------- the two-entry cache

  /** The stream object: the cached next entry, the one after it, and the reader's fields. */
  datatype Reader<K, V> = Reader(nextEntry: Option<Entry<K, V>>, nextNextEntry: Option<Entry<K, V>>, state: State<K>)

  /** `prepareNextEntry` as the stream sees it: an entry or `null`, and the new fields. */
  function PrepareNext<K, V>(st: State<K>, prep: Producer<K, V>): Result<(Option<Entry<K, V>>, State<K>)> {
    match prep(st)
    case Crashed(err) => Failure(err)
    case Exhausted(s) => Success((None, s))
    case Produced(x, next) => Success((Some(x), next))
  }

  function HasNext<K, V>(r: Reader<K, V>): bool {
    r.nextEntry.Some?
  }

  function Current<K, V>(r: Reader<K, V>): Option<Entry<K, V>> {
    r.nextEntry
  }

  /** `next`: hands out the cached entry, moves the cache along and prepares one more. */
  function Next<K, V>(r: Reader<K, V>, prep: Producer<K, V>): (x: Result<(Option<Entry<K, V>>, Reader<K, V>)>)
    ensures x.Success? ==> x.value.0 == Current(r) && x.value.1.nextEntry == r.nextNextEntry
  {
    var p :- PrepareNext(r.state, prep);
    Success((r.nextEntry, Reader(r.nextNextEntry, p.0, p.1)))
  }

  /** How many entries the cache holds. */
  function Cached<K, V>(r: Reader<K, V>): nat {
    (if r.nextEntry.Some? then 1 else 0) + (if r.nextNextEntry.Some? then 1 else 0)
  }

  /** Calling `next` while `hasNext` holds: the entries handed out, or the exception that stops it. */
  function ReadAll<K(!new), V>(r: Reader<K, V>, prep: Producer<K, V>): Result<seq<Entry<K, V>>>
    requires Consumes(prep)
    decreases |Remaining(r.state)|, Cached(r)
  {
    if !HasNext(r) then Success([])
    else
      var p :- Next(r, prep);
      var rest :- ReadAll(p.1, prep);
      Success([r.nextEntry.value] + rest)
  }

  /** The cache's contents, in order. */
  function CacheContents<K, V>(r: Reader<K, V>): seq<Entry<K, V>> {
    (if r.nextEntry.Some? then [r.nextEntry.value] else [])
      + (if r.nextNextEntry.Some? then [r.nextNextEntry.value] else [])
  }

  /**
   * The cache is consistent with the fields: an empty first slot is followed
   * by an empty second one, and an empty second slot means the stream ended.
   */
  ghost predicate CacheConsistent<K, V>(r: Reader<K, V>, prep: Producer<K, V>) {
    && (r.nextEntry.None? ==> r.nextNextEntry.None?)
    && (r.nextNextEntry.None? ==> prep(r.state) == Exhausted(r.state))
  }

  function Prepend<T>(xs: seq<T>, r: Result<seq<T>>): Result<seq<T>> {
    match r
    case Success(ys) => Success(xs + ys)
    case Failure(e) => Failure(e)
  }

  /**
   * Reading through the two-entry cache hands out the cached entries and then
   * exactly what the producer yields from the fields, and stops with the same
   * exception.
   */
  lemma {:induction false} ReadAllDrains<K(!new), V>(r: Reader<K, V>, prep: Producer<K, V>)
    requires Consumes(prep) && EndIsFinal(prep)
    requires CacheConsistent(r, prep)
    ensures ReadAll(r, prep) == Prepend(CacheContents(r), Drain(r.state, prep))
    decreases |Remaining(r.state)|, Cached(r)
  {
    if HasNext(r) {
      var x := r.nextEntry.value;
      var p := prep(r.state);
      if p.Exhausted? {
        var r2 := Reader(r.nextNextEntry, None, p.rest);
        ReadAllDrains(r2, prep);
        assert [x] + (CacheContents(r2) + []) == CacheContents(r) + [];
      } else if p.Produced? {
        var r2 := Reader(r.nextNextEntry, Some(p.entry), p.next);
        ReadAllDrains(r2, prep);
        var d := Drain(p.next, prep);
        if d.Success? {
          assert CacheContents(r) + ([p.entry] + d.value) == [x] + (CacheContents(r2) + d.value);
        }
      }
    }
  }

  /**
   * The first part of the constructor: an empty file is an IOException; the
   * first key runs from the start of the first chunk to its first tab (no tab
   * there is a StringIndexOutOfBoundsException, as `nextTab + 1` wraps).
   */
  function Opened<K>(chunks: seq<string>, parseKey: string -> Option<K>): Result<State<K>> {
    if |chunks| == 0 then Failure(IOError)
    else
      var cs := chunks[0];
      var tab := TabOf(cs);
      match Substring(cs, 0, tab)
      case None => Failure(IndexOutOfBounds)
      case Some(keyText) =>
        match parseKey(keyText)
        case None => Failure(NumberFormat)
        case Some(key) =>
          // `nextTab + 1` in Java int arithmetic
          var from := if tab == INT_MAX then INT_MIN else tab + 1;
          match Substring(cs, from, |cs|)
          case None => Failure(IndexOutOfBounds)
          case Some(rest) => Success(State(rest, TabOf(rest), key, 1, chunks[1..]))
  }

  /** The end of the constructor: cache the first two entries. */
  function Prime<K, V>(st: State<K>, prep: Producer<K, V>): Result<Reader<K, V>> {
    var first :- PrepareNext(st, prep);
    var second :- PrepareNext(first.1, prep);
    Success(Reader(first.0, second.0, second.1))
  }

  /** The constructor: read the first key, then cache two entries. */
  function OpenWith<K, V>(chunks: seq<string>, parseKey: string -> Option<K>, prep: Producer<K, V>): Result<Reader<K, V>> {
    var st :- Opened(chunks, parseKey);
    Prime(st, prep)
  }

  /** Priming the cache, then calling `next` while `hasNext` holds. */
  function ReadFrom<K(!new), V>(st: State<K>, prep: Producer<K, V>): Result<seq<Entry<K, V>>>
    requires Consumes(prep)
  {
    var r :- Prime(st, prep);
    ReadAll(r, prep)
  }

  /** The cache never changes what the reader yields: the same entries in the same order, or the same exception. */
  lemma PrimeDrains<K(!new), V>(st: State<K>, prep: Producer<K, V>)
    requires Consumes(prep) && EndIsFinal(prep)
    ensures ReadFrom(st, prep) == Drain(st, prep)
  {
    var p1 := prep(st);
    if p1.Exhausted? {
      assert Prime(st, prep) == Success(Reader(None, None, p1.rest));
    } else if p1.Produced? {
      var p2 := prep(p1.next);
      DrainProduced(st, prep);
      if p2.Exhausted? {
        var r := Reader(Some(p1.entry), None, p2.rest);
        assert Prime(st, prep) == Success(r);
        ReadAllDrains(r, prep);
        assert Drain(p1.next, prep) == Success([]);
        assert [p1.entry] + [] == CacheContents(r) + [];
      } else if p2.Produced? {
        var r := Reader(Some(p1.entry), Some(p2.entry), p2.next);
        assert Prime(st, prep) == Success(r);
        ReadAllDrains(r, prep);
        DrainProduced(p1.next, prep);
        assert CacheContents(r) == [p1.entry, p2.entry];
        var d := Drain(p2.next, prep);
        if d.Success? {
          assert [p1.entry, p2.entry] + d.value == [p1.entry] + ([p2.entry] + d.value);
        }
      }
    }
  }

  /** Reading a whole file: open it, then call `next` while `hasNext` holds. */
  function ReadFileWith<K(!new), V>(chunks: seq<string>, parseKey: string -> Option<K>, prep: Producer<K, V>): Result<seq<Entry<K, V>>>
    requires Consumes(prep)
  {
    var r :- OpenWith(chunks, parseKey, prep);
    ReadAll(r, prep)
  }

  /** The entries the producer yields from the fields the constructor leaves. */
  function ProduceWith<K(!new), V>(chunks: seq<string>, parseKey: string -> Option<K>, prep: Producer<K, V>): Result<seq<Entry<K, V>>>
    requires Consumes(prep)
  {
    var st :- Opened(chunks, parseKey);
    Drain(st, prep)
  }

  /** Over a whole file as well, the cache changes nothing. */
  lemma ReadFileProduces<K(!new), V>(chunks: seq<string>, parseKey: string -> Option<K>, prep: Producer<K, V>)
    requires Consumes(prep) && EndIsFinal(prep)
    ensures ReadFileWith(chunks, parseKey, prep) == ProduceWith(chunks, parseKey, prep)
  {
    var o := Opened(chunks, parseKey);
    if o.Success? {
      PrimeDrains(o.value, prep);
    }
  }

  /** A block reader over the file's chunks: ids parsed as Java ints, keys and values by the given parsers. */
  function ReadFile<K(!new), V>(chunks: seq<string>, parseKey: string -> Option<K>, parseValue: string -> Option<V>): Result<seq<Entry<K, V>>> {
    ReadFileWith(chunks, parseKey, Preparer(parseKey, ParseInt32, parseValue))
  }

  /** `BufferedBlockMatrixReader`: keys are document ids (`Integer.valueOf`), values parsed by `parseValue` (`Float.parseFloat`). */
  function ReadMatrix<V>(chunks: seq<string>, parseValue: string -> Option<V>): Result<seq<Entry<int, V>>> {
    ReadFile(chunks, ParseInt32, parseValue)
  }

  /** The key text as it stands: the dictionary reader's keys are the terms themselves. */
  function KeepText(s: string): Option<string> {
    Some(s)
  }

  /** `BufferedBlockDictionaryReader`: keys are terms, values term frequencies (`Integer.parseInt`). */
  function ReadDictionary(chunks: seq<string>): Result<seq<Entry<string, int>>> {
    ReadFile(chunks, KeepText, ParseInt32)
  }
}
