/**
 * What the block readers recover from the text the block writers produce:
 * every entry of every record, in file order, each with its record's key.
 */
module BlockRoundTrip {
  import opened Wrappers
  import opened Text
  import opened BlockFormat
  import opened BlockReader

  // ---------------------------------------------------------------- one entry

  /** The number text of an id never holds a delimiter. */
  lemma IdTextFree(x: int)
    ensures FreeOf(IntToString(x), Delimiters)
  {
    IntToStringChars(x);
  }

  /** A delimiter-free text holds no delimiter. */
  lemma NotIn(s: string, c: char)
    requires FreeOf(s, Delimiters) && c in Delimiters
    ensures c !in s
  {
  }

  /** Skipping a part that lacks the char moves its first occurrence along. */
  lemma IndexOfSkip(a: string, b: string, c: char)
    requires c !in a && c in b
    ensures IndexOf(a + b, c) == |a| + IndexOf(b, c)
  {
    IndexOfAppend(a, b, c);
  }

  /** The char at the front is found at 0. */
  lemma IndexOfFront(c: char, b: string)
    ensures IndexOf([c] + b, c) == 0
  {
    IndexOfIs([c] + b, c, 0);
  }

  /** Where the first delimiters of `<id:value>` followed by anything lie. */
  lemma EntryPositions<V>(x: (int, V), render: V -> string, more: string)
    requires FreeOf(render(x.1), Delimiters)
    ensures var t := EntryText(x, render) + more;
      var i, v := IntToString(x.0), render(x.1);
      && IndexOf(t, '<') == 0
      && IndexOf(t, ':') == 1 + |i|
      && IndexOf(t, '>') == 2 + |i| + |v|
      && |EntryText(x, render)| == 3 + |i| + |v|
  {
    var i, v := IntToString(x.0), render(x.1);
    IdTextFree(x.0);
    var t4 := ">" + more;
    var t3 := v + t4;
    var t2 := ":" + t3;
    var t1 := i + t2;
    var t := EntryText(x, render) + more;
    assert t == "<" + t1;
    IndexOfFront('<', t1);
    NotIn(i, ':');
    NotIn(i, '>');
    NotIn(v, '>');
    IndexOfFront(':', t3);
    IndexOfFront('>', more);
    IndexOfSkip(i, t2, ':');
    IndexOfSkip("<", t1, ':');
    IndexOfSkip(v, t4, '>');
    IndexOfSkip(":", t3, '>');
    IndexOfSkip(i, t2, '>');
    IndexOfSkip("<", t1, '>');
  }

  /** An entry's text holds no tab. */
  lemma EntryTextTabFree<V>(x: (int, V), render: V -> string)
    requires FreeOf(render(x.1), Delimiters)
    ensures '\t' !in EntryText(x, render)
  {
    IdTextFree(x.0);
    NotIn(IntToString(x.0), '\t');
    NotIn(render(x.1), '\t');
    var t := EntryText(x, render);
    forall k | 0 <= k < |t| ensures t[k] != '\t' {
      if 1 <= k < 1 + |IntToString(x.0)| {
        assert t[k] == IntToString(x.0)[k - 1];
      } else if 2 + |IntToString(x.0)| <= k < |t| - 1 {
        assert t[k] == render(x.1)[k - 2 - |IntToString(x.0)|];
      }
    }
  }

  /** The tab position moves along when a tab-free prefix is dropped. */
  lemma TabTrackedDrop(cs: string, nt: int, k: nat)
    requires k <= |cs| && '\t' !in cs[..k] && TabTracked(cs, nt)
    ensures TabTracked(cs[k..], nt - k)
  {
    assert cs == cs[..k] + cs[k..];
    IndexOfAppend(cs[..k], cs[k..], '\t');
  }

  /** A good entry: an int-sized id, and a value text free of delimiters that parses back. */
  ghost predicate GoodEntry<V>(x: (int, V), render: V -> string, parseId: string -> Option<int>, parseValue: string -> Option<V>) {
    parseId(IntToString(x.0)) == Some(x.0) && FreeOf(render(x.1), Delimiters) && parseValue(render(x.1)) == Some(x.1)
  }

  /** Two splits of one text: the longer left part starts with the shorter. */
  lemma PrefixSplit(a: string, b: string, c: string, d: string)
    requires a + b == c + d && |c| <= |a|
    ensures a[..|c|] == c && a[|c|..] + b == d
  {
    assert (a + b)[..|c|] == a[..|c|];
    assert (a + b)[|c|..] == a[|c|..] + b;
  }

  lemma SubstringIs(s: string, i: int, j: int)
    requires 0 <= i <= j <= |s|
    ensures Substring(s, i, j) == Some(s[i..j])
  {
  }

  /** The id and value texts inside an entry's text. */
  lemma EntrySlices<V>(x: (int, V), render: V -> string)
    ensures var t, i, v := EntryText(x, render), IntToString(x.0), render(x.1);
      && |t| == 3 + |i| + |v|
      && t[1..1 + |i|] == i
      && t[2 + |i|..2 + |i| + |v|] == v
  {
    var t, i, v := EntryText(x, render), IntToString(x.0), render(x.1);
    assert t == "<" + i + ":" + v + ">";
  }

  /**
   * The pieces `prepareNextEntry` cuts from a buffer that starts with a whole
   * good entry whose ':' and '>' are at `m` and `e`.
   */
  lemma EntryPieces<V>(cs: string, rest: string, m: int, e: int,
                       x: (int, V), more: string, render: V -> string, parseId: string -> Option<int>, parseValue: string -> Option<V>)
    requires GoodEntry(x, render, parseId, parseValue)
    requires cs + rest == EntryText(x, render) + more
    requires m == 1 + |IntToString(x.0)| && e == m + 1 + |render(x.1)| && e < |cs|
    ensures && Substring(cs, 1, m) == Some(IntToString(x.0))
            && Substring(cs, m + 1, e) == Some(render(x.1))
            && Substring(cs, e + 1, |cs|) == Some(cs[e + 1..])
            && cs[e + 1..] + rest == more
            && '\t' !in cs[..e + 1]
  {
    var t, i, v := EntryText(x, render), IntToString(x.0), render(x.1);
    EntrySlices(x, render);
    PrefixSplit(cs, rest, t, more);
    assert cs[1..m] == t[1..m];
    assert cs[m + 1..e] == t[m + 1..e];
    SubstringIs(cs, 1, m);
    SubstringIs(cs, m + 1, e);
    SubstringIs(cs, e + 1, |cs|);
    assert |t| == e + 1;
    assert cs[..e + 1] == t;
    assert cs[e + 1..] + rest == more;
    EntryTextTabFree(x, render);
    assert cs[e + 1..|cs|] == cs[e + 1..];
  }

  /** `Finish` on pieces that parse. */
  lemma FinishParses<K, V>(cs: string, b: int, m: int, e: int, nt: int, key: K, counter: int, chunks: seq<string>,
                           id: int, value: V, parseId: string -> Option<int>, parseValue: string -> Option<V>)
    requires b == 0 && Substring(cs, 1, m) == Some(IntToString(id)) && parseId(IntToString(id)) == Some(id)
    requires var vt := Substring(cs, m + 1, e); vt.Some? && parseValue(vt.value) == Some(value)
    requires 0 <= e + 1 <= |cs|
    ensures Finish(cs, b, m, e, nt, key, counter, chunks, parseId, parseValue)
      == Produced(Entry(key, id, value), State(cs[e + 1..], nt - (e + 1), key, counter, chunks))
  {
    SubstringIs(cs, e + 1, |cs|);
    assert cs[e + 1..|cs|] == cs[e + 1..];
  }

  /** The first occurrence of a char the loaded buffer holds is where it is in the whole remaining text. */
  lemma LoadedIndex<K>(st: State<K>, c: char)
    requires c in Load(st).cs
    ensures IndexOf(Load(st).cs, c) == IndexOf(Remaining(st), c)
  {
    var s := Load(st);
    IndexOfPrefix(s.cs, Flatten(s.chunks), c);
  }

  /** `prepareNextEntry` when the loaded buffer's next entry lies before the tracked tab. */
  lemma PrepareSameRecord<K, V>(st: State<K>, parseKey: string -> Option<K>, parseId: string -> Option<int>, parseValue: string -> Option<V>)
    requires var s := Load(st); Complete(s.cs) && IndexOf(s.cs, '<') < s.nextTab
    ensures var s := Load(st);
      Prepare(st, parseKey, parseId, parseValue)
        == Finish(s.cs, IndexOf(s.cs, '<'), IndexOf(s.cs, ':'), IndexOf(s.cs, '>'), s.nextTab, s.key, s.counter, s.chunks, parseId, parseValue)
  {
  }

  /** What loading finds when the remaining text starts with a whole good entry. */
  lemma LoadEntry<K, V>(st: State<K>, x: (int, V), more: string, render: V -> string)
    requires FreeOf(render(x.1), Delimiters)
    requires Remaining(st) == EntryText(x, render) + more
    requires TabTracked(st.cs, st.nextTab) && |Remaining(st)| <= INT_MAX
    ensures var s := Load(st);
      var m := 1 + |IntToString(x.0)|;
      var e := m + 1 + |render(x.1)|;
      && Complete(s.cs)
      && IndexOf(s.cs, '<') == 0 && IndexOf(s.cs, ':') == m && IndexOf(s.cs, '>') == e
      && e < |s.cs| && 0 < s.nextTab
      && TabTracked(s.cs, s.nextTab)
      && s.cs + Flatten(s.chunks) == EntryText(x, render) + more
      && s.key == st.key
  {
    var s := Load(st);
    EntryPositions(x, render, more);
    assert Complete(s.cs);
    LoadedIndex(st, '<');
    LoadedIndex(st, ':');
    LoadedIndex(st, '>');
    assert s.cs[0] == '<';
  }

  /**
   * `prep` is the block reader's producer. The trigger keeps the definition
   * folded until a proof names `Prepare` itself, so proofs about long texts
   * reason about `prep` through the step lemmas below only.
   */
  ghost predicate PreparesAs<K(!new), V>(prep: Producer<K, V>, parseKey: string -> Option<K>, parseId: string -> Option<int>, parseValue: string -> Option<V>) {
    forall st: State<K> {:trigger Prepare(st, parseKey, parseId, parseValue)} :: prep(st) == Prepare(st, parseKey, parseId, parseValue)
  }

  lemma PreparerPreparesAs<K(!new), V>(parseKey: string -> Option<K>, parseId: string -> Option<int>, parseValue: string -> Option<V>)
    ensures PreparesAs(Preparer(parseKey, parseId, parseValue), parseKey, parseId, parseValue)
  {
  }

  /** `prepareNextEntry` producing an entry of the current record, whose ':' and '>' are at `m` and `e`. */
  lemma PrepareProduces<K(!new), V>(st: State<K>, m: int, e: int, id: int, value: V, prep: Producer<K, V>,
                                    parseKey: string -> Option<K>, parseId: string -> Option<int>, parseValue: string -> Option<V>)
    requires PreparesAs(prep, parseKey, parseId, parseValue)
    requires var s := Load(st);
      && Complete(s.cs) && IndexOf(s.cs, '<') == 0 && IndexOf(s.cs, ':') == m && IndexOf(s.cs, '>') == e
      && 0 < s.nextTab
      && Substring(s.cs, 1, m) == Some(IntToString(id)) && parseId(IntToString(id)) == Some(id)
      && (var vt := Substring(s.cs, m + 1, e); vt.Some? && parseValue(vt.value) == Some(value))
      && 0 <= e + 1 <= |s.cs|
    ensures var s := Load(st);
      prep(st) == Produced(Entry(s.key, id, value), State(s.cs[e + 1..], s.nextTab - (e + 1), s.key, s.counter, s.chunks))
  {
    var s := Load(st);
    assert prep(st) == Prepare(st, parseKey, parseId, parseValue);
    PrepareSameRecord(st, parseKey, parseId, parseValue);
    FinishParses(s.cs, 0, m, e, s.nextTab, s.key, s.counter, s.chunks, id, value, parseId, parseValue);
  }

  /** The tab position stays tracked once a tab-free entry is consumed. */
  lemma ProducedTabTracked<K, V>(cs: string, nt: int, e: int, p: Step<K, V>)
    requires 0 <= e + 1 <= |cs| && TabTracked(cs, nt) && '\t' !in cs[..e + 1]
    requires p.Produced? && p.next.cs == cs[e + 1..] && p.next.nextTab == nt - (e + 1)
    ensures TabTracked(p.next.cs, p.next.nextTab)
  {
    TabTrackedDrop(cs, nt, e + 1);
  }

  /** Preparing the next entry while the current record still has one. */
  lemma PrepareEntry<K(!new), V>(st: State<K>, x: (int, V), more: string, prep: Producer<K, V>,
                                 parseKey: string -> Option<K>, parseId: string -> Option<int>, parseValue: string -> Option<V>, render: V -> string)
    requires PreparesAs(prep, parseKey, parseId, parseValue)
    requires GoodEntry(x, render, parseId, parseValue)
    requires Remaining(st) == EntryText(x, render) + more
    requires TabTracked(st.cs, st.nextTab) && |Remaining(st)| <= INT_MAX
    ensures var p := prep(st);
      && p.Produced?
      && p.entry == Entry(st.key, x.0, x.1)
      && Remaining(p.next) == more && p.next.key == st.key
      && TabTracked(p.next.cs, p.next.nextTab)
  {
    var s := Load(st);
    LoadEntry(st, x, more, render);
    var m := 1 + |IntToString(x.0)|;
    var e := m + 1 + |render(x.1)|;
    EntryPieces(s.cs, Flatten(s.chunks), m, e, x, more, render, parseId, parseValue);
    PrepareProduces(st, m, e, x.0, x.1, prep, parseKey, parseId, parseValue);
    ProducedTabTracked(s.cs, s.nextTab, e, prep(st));
  }

  // ---------------------------------------------------------------- the first entry of a record

  lemma NotInConcat(a: string, b: string, c: char)
    requires c !in a && c !in b
    ensures c !in a + b
  {
    assert forall k | 0 <= k < |a + b| :: (a + b)[k] == (if k < |a| then a[k] else b[k - |a|]);
  }

  /** A good record head: a key text free of delimiters that parses to the key. */
  ghost predicate GoodKey<K>(key: K, keyText: string, parseKey: string -> Option<K>) {
    FreeOf(keyText, Delimiters) && parseKey(keyText) == Some(key)
  }

  /** The line break and the tab around a delimiter-free key. */
  lemma HeadMarks(kt: string, body: string)
    requires FreeOf(kt, Delimiters)
    ensures var r := "\n" + kt + "\t" + body;
      IndexOf(r, '\n') == 0 && IndexOf(r, '\t') == |kt| + 1
  {
    var r := "\n" + kt + "\t" + body;
    IndexOfFront('\n', kt + "\t" + body);
    assert r == ['\n'] + (kt + "\t" + body);
    NotIn(kt, '\t');
    NotInConcat("\n", kt, '\t');
    IndexOfFront('\t', body);
    assert r == ("\n" + kt) + (['\t'] + body);
    IndexOfSkip("\n" + kt, ['\t'] + body, '\t');
  }

  /** An entry delimiter after a key head is found past the head. */
  lemma HeadSkip(kt: string, body: string, c: char)
    requires FreeOf(kt, Delimiters) && c in body && c in {'<', ':', '>'}
    ensures IndexOf("\n" + kt + "\t" + body, c) == |kt| + 2 + IndexOf(body, c)
  {
    NotIn(kt, c);
    NotInConcat("\n", kt, c);
    NotInConcat("\n" + kt, "\t", c);
    IndexOfSkip("\n" + kt + "\t", body, c);
  }

  /** Where the delimiters lie in a line break, a key, a tab, then an entry and anything. */
  lemma RecordPositions<V>(kt: string, x: (int, V), render: V -> string, more: string)
    requires FreeOf(kt, Delimiters) && FreeOf(render(x.1), Delimiters)
    ensures var r := "\n" + kt + "\t" + (EntryText(x, render) + more);
      var m := 1 + |IntToString(x.0)|;
      var e := m + 1 + |render(x.1)|;
      var p := |kt| + 2;
      && IndexOf(r, '\n') == 0 && IndexOf(r, '\t') == p - 1
      && IndexOf(r, '<') == p && IndexOf(r, ':') == p + m && IndexOf(r, '>') == p + e
      && |EntryText(x, render)| == e + 1
  {
    var body := EntryText(x, render) + more;
    EntryPositions(x, render, more);
    HeadMarks(kt, body);
    HeadSkip(kt, body, '<');
    HeadSkip(kt, body, ':');
    HeadSkip(kt, body, '>');
  }

  /** The key head as `prepareNextEntry` cuts it: the key before the tab, the rest after it. */
  lemma HeadPieces(cs: string, rest: string, kt: string, t: int, more: string)
    requires cs + rest == "\n" + kt + "\t" + more
    requires t == |kt| + 1 && t + 1 <= |cs|
    ensures Substring(cs, 1, t) == Some(kt)
    ensures Substring(cs, t + 1, |cs|) == Some(cs[t + 1..])
    ensures cs[t + 1..] + rest == more
  {
    PrefixSplit(cs, rest, "\n" + kt + "\t", more);
    assert cs[1..t] == ("\n" + kt + "\t")[1..t] == kt;
    SubstringIs(cs, 1, t);
    SubstringIs(cs, t + 1, |cs|);
    assert cs[t + 1..|cs|] == cs[t + 1..];
  }

  /** What loading finds when the remaining text starts a new record. */
  lemma LoadRecord<K, V>(st: State<K>, kt: string, x: (int, V), more: string, render: V -> string)
    requires FreeOf(kt, Delimiters) && FreeOf(render(x.1), Delimiters)
    requires Remaining(st) == "\n" + kt + "\t" + (EntryText(x, render) + more)
    requires TabTracked(st.cs, st.nextTab) && |Remaining(st)| <= INT_MAX
    ensures var s := Load(st);
      var m := 1 + |IntToString(x.0)|;
      var e := m + 1 + |render(x.1)|;
      var t := |kt| + 1;
      && Complete(s.cs) && s.nextTab == t
      && IndexOf(s.cs, '<') == t + 1 && IndexOf(s.cs, ':') == t + 1 + m && IndexOf(s.cs, '>') == t + 1 + e
      && IndexOf(s.cs, '\n') == 0
      && t + 1 + e < |s.cs| && |s.cs| <= INT_MAX
      && s.cs + Flatten(s.chunks) == Remaining(st)
  {
    var s := Load(st);
    var t := |kt| + 1;
    RecordPositions(kt, x, render, more);
    assert Complete(s.cs);
    LoadedIndex(st, '<');
    LoadedIndex(st, ':');
    LoadedIndex(st, '>');
    assert s.cs[t] == '\t' && s.cs[0] == '\n';
    LoadedIndex(st, '\t');
    LoadedIndex(st, '\n');
  }

  /** `prepareNextEntry` when the next entry lies past the tracked tab. */
  lemma PrepareNewRecord<K, V>(st: State<K>, parseKey: string -> Option<K>, parseId: string -> Option<int>, parseValue: string -> Option<V>)
    requires var s := Load(st); Complete(s.cs) && s.nextTab <= IndexOf(s.cs, '<')
    ensures var s := Load(st);
      Prepare(st, parseKey, parseId, parseValue)
        == NextRecord(s, IndexOf(s.cs, '<'), IndexOf(s.cs, ':'), IndexOf(s.cs, '>'), parseKey, parseId, parseValue)
  {
  }

  /** `prepareNextEntry` starting a new record with key `key` at its first entry; `s` is the loaded buffer. */
  lemma PrepareProducesNew<K(!new), V>(st: State<K>, s: State<K>, kt: string, key: K, m: int, e: int, id: int, value: V,
                                       prep: Producer<K, V>, parseKey: string -> Option<K>, parseId: string -> Option<int>, parseValue: string -> Option<V>)
    requires PreparesAs(prep, parseKey, parseId, parseValue) && s == Load(st)
    requires Complete(s.cs) && 0 <= s.nextTab && s.nextTab + 1 <= |s.cs|
    requires IndexOf(s.cs, '<') == s.nextTab + 1 && IndexOf(s.cs, ':') == s.nextTab + 1 + m
    requires IndexOf(s.cs, '>') == s.nextTab + 1 + e && IndexOf(s.cs, '\n') == 0
    requires Substring(s.cs, 1, s.nextTab) == Some(kt) && parseKey(kt) == Some(key)
    requires var cs2 := s.cs[s.nextTab + 1..];
      && Substring(cs2, 1, m) == Some(IntToString(id)) && parseId(IntToString(id)) == Some(id)
      && (var vt := Substring(cs2, m + 1, e); vt.Some? && parseValue(vt.value) == Some(value))
      && 0 <= e + 1 <= |cs2|
    ensures var cs2 := s.cs[s.nextTab + 1..];
      prep(st) == Produced(Entry(key, id, value), State(cs2[e + 1..], TabOf(cs2) - (e + 1), key, s.counter + 1, s.chunks))
  {
    assert prep(st) == Prepare(st, parseKey, parseId, parseValue);
    PrepareNewRecord(st, parseKey, parseId, parseValue);
    NextRecordProduces(s, IndexOf(s.cs, '<'), IndexOf(s.cs, ':'), IndexOf(s.cs, '>'), kt, key, m, e, id, value, parseKey, parseId, parseValue);
  }

  /** The new-record branch on a loaded buffer `s`. */
  lemma NextRecordProduces<K, V>(s: State<K>, b: int, mb: int, eb: int, kt: string, key: K, m: int, e: int, id: int, value: V,
                                 parseKey: string -> Option<K>, parseId: string -> Option<int>, parseValue: string -> Option<V>)
    requires 0 <= s.nextTab && s.nextTab + 1 <= |s.cs| && IndexOf(s.cs, '\n') == 0
    requires b == s.nextTab + 1 && mb == s.nextTab + 1 + m && eb == s.nextTab + 1 + e
    requires Substring(s.cs, 1, s.nextTab) == Some(kt) && parseKey(kt) == Some(key)
    requires var cs2 := s.cs[s.nextTab + 1..];
      && Substring(cs2, 1, m) == Some(IntToString(id)) && parseId(IntToString(id)) == Some(id)
      && (var vt := Substring(cs2, m + 1, e); vt.Some? && parseValue(vt.value) == Some(value))
      && 0 <= e + 1 <= |cs2|
    ensures var cs2 := s.cs[s.nextTab + 1..];
      NextRecord(s, b, mb, eb, parseKey, parseId, parseValue)
        == Produced(Entry(key, id, value), State(cs2[e + 1..], TabOf(cs2) - (e + 1), key, s.counter + 1, s.chunks))
  {
    var t := s.nextTab;
    var cs2 := s.cs[t + 1..];
    NextRecordFinish(s, b, mb, eb, kt, key, m, e, parseKey, parseId, parseValue);
    FinishParses(cs2, 0, m, e, TabOf(cs2), key, s.counter + 1, s.chunks, id, value, parseId, parseValue);
  }

  /** The new-record branch reads the key and hands the rest of the buffer to `Finish`. */
  lemma NextRecordFinish<K, V>(s: State<K>, b: int, mb: int, eb: int, kt: string, key: K, m: int, e: int,
                               parseKey: string -> Option<K>, parseId: string -> Option<int>, parseValue: string -> Option<V>)
    requires 0 <= s.nextTab && s.nextTab + 1 <= |s.cs| && IndexOf(s.cs, '\n') == 0
    requires b == s.nextTab + 1 && mb == s.nextTab + 1 + m && eb == s.nextTab + 1 + e
    requires Substring(s.cs, 1, s.nextTab) == Some(kt) && parseKey(kt) == Some(key)
    ensures var cs2 := s.cs[s.nextTab + 1..];
      NextRecord(s, b, mb, eb, parseKey, parseId, parseValue)
        == Finish(cs2, 0, m, e, TabOf(cs2), key, s.counter + 1, s.chunks, parseId, parseValue)
  {
    NextRecordUnfold(s, b, mb, eb, kt, key, parseKey, parseId, parseValue);
    var c2 := Substring(s.cs, s.nextTab + 1, |s.cs|).value;
    var cs2, sh := s.cs[s.nextTab + 1..], s.nextTab + 1;
    assert c2 == cs2 by {
      assert s.cs[s.nextTab + 1..|s.cs|] == cs2;
    }
    FinishAt(c2, b - sh, mb - sh, eb - sh, TabOf(c2), cs2, 0, m, e, TabOf(cs2), key, s.counter + 1, s.chunks, parseId, parseValue);
  }

  /** The new-record branch with a parsed key: `Finish` on the buffer after the tab, positions shifted. */
  lemma NextRecordUnfold<K, V>(s: State<K>, b: int, mb: int, eb: int, kt: string, key: K,
                               parseKey: string -> Option<K>, parseId: string -> Option<int>, parseValue: string -> Option<V>)
    requires 0 <= s.nextTab && s.nextTab + 1 <= |s.cs| && IndexOf(s.cs, '\n') == 0
    requires Substring(s.cs, 1, s.nextTab) == Some(kt) && parseKey(kt) == Some(key)
    ensures var c2 := Substring(s.cs, s.nextTab + 1, |s.cs|);
      var sh := s.nextTab + 1;
      && c2.Some?
      && NextRecord(s, b, mb, eb, parseKey, parseId, parseValue)
        == Finish(c2.value, b - sh, mb - sh, eb - sh, TabOf(c2.value), key, s.counter + 1, s.chunks, parseId, parseValue)
  {
  }

  /** `Finish` depends on its arguments only through their values. */
  lemma FinishAt<K, V>(cs: string, b: int, m: int, e: int, nt: int, cs0: string, b0: int, m0: int, e0: int, nt0: int,
                       key: K, counter: int, chunks: seq<string>, parseId: string -> Option<int>, parseValue: string -> Option<V>)
    requires cs == cs0 && b == b0 && m == m0 && e == e0 && nt == nt0
    ensures Finish(cs, b, m, e, nt, key, counter, chunks, parseId, parseValue) == Finish(cs0, b0, m0, e0, nt0, key, counter, chunks, parseId, parseValue)
  {
  }

  /** A tab position computed afresh is tracked. */
  lemma TabOfTracked(cs: string)
    requires |cs| <= INT_MAX
    ensures TabTracked(cs, TabOf(cs))
  {
  }

  /** Preparing the next entry when the remaining text starts a new record. */
  lemma PrepareRecord<K(!new), V>(st: State<K>, kt: string, key: K, x: (int, V), more: string, prep: Producer<K, V>,
                                  parseKey: string -> Option<K>, parseId: string -> Option<int>, parseValue: string -> Option<V>, render: V -> string)
    requires PreparesAs(prep, parseKey, parseId, parseValue)
    requires GoodKey(key, kt, parseKey) && GoodEntry(x, render, parseId, parseValue)
    requires Remaining(st) == "\n" + kt + "\t" + (EntryText(x, render) + more)
    requires TabTracked(st.cs, st.nextTab) && |Remaining(st)| <= INT_MAX
    ensures var p := prep(st);
      && p.Produced?
      && p.entry == Entry(key, x.0, x.1)
      && Remaining(p.next) == more && p.next.key == key
      && TabTracked(p.next.cs, p.next.nextTab)
  {
    var s := Load(st);
    LoadRecord(st, kt, x, more, render);
    var m := 1 + |IntToString(x.0)|;
    var e := m + 1 + |render(x.1)|;
    HeadPieces(s.cs, Flatten(s.chunks), kt, s.nextTab, EntryText(x, render) + more);
    var cs2 := s.cs[s.nextTab + 1..];
    EntryPieces(cs2, Flatten(s.chunks), m, e, x, more, render, parseId, parseValue);
    PrepareProducesNew(st, s, kt, key, m, e, x.0, x.1, prep, parseKey, parseId, parseValue);
    TabOfTracked(cs2);
    ProducedTabTracked(cs2, TabOf(cs2), e, prep(st));
  }

  // ---------------------------------------------------------------- whole blocks

  /** Every line preceded by a line break: the text after a block's first record. */
  function Lead(lines: seq<string>): string
    decreases |lines|
  {
    if |lines| == 0 then "" else "\n" + lines[0] + Lead(lines[1..])
  }

  lemma {:induction false} JoinLead(lines: seq<string>)
    requires 0 < |lines|
    ensures Join(lines) == lines[0] + Lead(lines[1..])
    decreases |lines|
  {
    if |lines| > 1 {
      JoinLead(lines[1..]);
      assert lines[1..][1..] == lines[2..];
      ConcatAssoc(lines[0] + "\n", lines[1], Lead(lines[2..]));
    }
  }

  /** Typed records: a key and its entries. */
  type Rows<K, V> = seq<(K, seq<(int, V)>)>

  /** The lines of a block whose keys are rendered by `keyText`. */
  function Lines<K, V>(rows: Rows<K, V>, keyText: K -> string, render: V -> string): (r: seq<string>)
    ensures |r| == |rows|
    decreases |rows|
  {
    if |rows| == 0 then [] else [RecordText(keyText(rows[0].0), rows[0].1, render)] + Lines(rows[1..], keyText, render)
  }

  /** The block with its keys rendered. */
  function Keyed<K, V>(rows: Rows<K, V>, keyText: K -> string): (r: Block<V>)
    ensures |r| == |rows|
    ensures forall i | 0 <= i < |rows| :: r[i] == (keyText(rows[i].0), rows[i].1)
  {
    seq(|rows|, i requires 0 <= i < |rows| => (keyText(rows[i].0), rows[i].1))
  }

  lemma {:induction false} LinesAreRecords<K, V>(rows: Rows<K, V>, keyText: K -> string, render: V -> string)
    ensures Lines(rows, keyText, render) == Records(Keyed(rows, keyText), render)
    decreases |rows|
  {
    if |rows| > 0 {
      LinesAreRecords(rows[1..], keyText, render);
      var l, r := Lines(rows, keyText, render), Records(Keyed(rows, keyText), render);
      forall i | 0 <= i < |rows| ensures l[i] == r[i] {
        if i > 0 {
          assert l[i] == Lines(rows[1..], keyText, render)[i - 1];
          assert Records(Keyed(rows[1..], keyText), render)[i - 1] == r[i];
        }
      }
    }
  }

  /** A block's text is its first record followed by the others, each after a line break. */
  lemma SerialiseLead<K, V>(rows: Rows<K, V>, keyText: K -> string, render: V -> string)
    requires 0 < |rows|
    ensures Serialise(Keyed(rows, keyText), render)
      == RecordText(keyText(rows[0].0), rows[0].1, render) + Lead(Lines(rows[1..], keyText, render))
  {
    LinesAreRecords(rows, keyText, render);
    var l := Lines(rows, keyText, render);
    JoinLead(l);
    assert l[1..] == Lines(rows[1..], keyText, render);
  }

  /** The entries a record's reader hands out, each tagged with the record's key. */
  function RowEntries<K, V>(key: K, es: seq<(int, V)>): (r: seq<Entry<K, V>>)
    ensures |r| == |es|
    ensures forall j | 0 <= j < |es| :: r[j] == Entry(key, es[j].0, es[j].1)
    decreases |es|
  {
    if |es| == 0 then [] else [Entry(key, es[0].0, es[0].1)] + RowEntries(key, es[1..])
  }

  /** All entries of a block, record by record. */
  function Flat<K, V>(rows: Rows<K, V>): seq<Entry<K, V>>
    decreases |rows|
  {
    if |rows| == 0 then [] else RowEntries(rows[0].0, rows[0].1) + Flat(rows[1..])
  }

  ghost predicate GoodEntries<V>(es: seq<(int, V)>, render: V -> string, parseId: string -> Option<int>, parseValue: string -> Option<V>) {
    forall j | 0 <= j < |es| :: GoodEntry(es[j], render, parseId, parseValue)
  }

  /** Records the reader can take apart: non-empty, with good keys and entries. */
  ghost predicate GoodRows<K, V>(rows: Rows<K, V>, keyText: K -> string, parseKey: string -> Option<K>,
                                 render: V -> string, parseId: string -> Option<int>, parseValue: string -> Option<V>) {
    forall i | 0 <= i < |rows| ::
      && 0 < |rows[i].1|
      && GoodKey(rows[i].0, keyText(rows[i].0), parseKey)
      && GoodEntries(rows[i].1, render, parseId, parseValue)
  }

  /** With no text left the stream ends. */
  lemma PrepareEmpty<K(!new), V>(st: State<K>, prep: Producer<K, V>,
                                 parseKey: string -> Option<K>, parseId: string -> Option<int>, parseValue: string -> Option<V>)
    requires PreparesAs(prep, parseKey, parseId, parseValue) && Remaining(st) == ""
    ensures prep(st).Exhausted?
  {
    assert prep(st) == Prepare(st, parseKey, parseId, parseValue);
    assert !Complete(Remaining(st));
  }

  /**
   * Draining the reader's fields when the remaining text is the rest `es` of
   * the current record (whose key is `key`) followed by the records `rows`
   * yields exactly those entries, in order, each with its record's key.
   */
  lemma {:induction false} DrainBlock<K(!new), V>(st: State<K>, key: K, es: seq<(int, V)>, rows: Rows<K, V>,
                                                  prep: Producer<K, V>, keyText: K -> string, parseKey: string -> Option<K>,
                                                  render: V -> string, parseId: string -> Option<int>, parseValue: string -> Option<V>)
    requires Consumes(prep) && PreparesAs(prep, parseKey, parseId, parseValue)
    requires GoodEntries(es, render, parseId, parseValue) && GoodRows(rows, keyText, parseKey, render, parseId, parseValue)
    requires Remaining(st) == EntriesText(es, render) + Lead(Lines(rows, keyText, render))
    requires st.key == key && TabTracked(st.cs, st.nextTab) && |Remaining(st)| <= INT_MAX
    ensures Drain(st, prep) == Success(RowEntries(key, es) + Flat(rows))
    decreases |rows|, |es|
  {
    if |es| > 0 {
      var next := EntryStep(st, key, es, rows, prep, keyText, parseKey, render, parseId, parseValue);
      DrainBlock(next, key, es[1..], rows, prep, keyText, parseKey, render, parseId, parseValue);
      DrainStep(st, Entry(key, es[0].0, es[0].1), next, RowEntries(key, es[1..]) + Flat(rows), prep);
      EntriesCons(key, es, Flat(rows));
    } else if |rows| > 0 {
      var k, es0 := rows[0].0, rows[0].1;
      var next := RecordStep(st, rows, prep, keyText, parseKey, render, parseId, parseValue);
      assert GoodRows(rows[1..], keyText, parseKey, render, parseId, parseValue) by {
        forall i | 0 <= i < |rows[1..]| ensures rows[1..][i] == rows[i + 1] { }
      }
      DrainBlock(next, k, es0[1..], rows[1..], prep, keyText, parseKey, render, parseId, parseValue);
      DrainStep(st, Entry(k, es0[0].0, es0[0].1), next, RowEntries(k, es0[1..]) + Flat(rows[1..]), prep);
      EntriesCons(k, es0, Flat(rows[1..]));
      assert RowEntries(key, es) + Flat(rows) == RowEntries(k, es0) + Flat(rows[1..]);
    } else {
      PrepareEmpty(st, prep, parseKey, parseId, parseValue);
    }
  }

  lemma EntriesCons<K, V>(key: K, es: seq<(int, V)>, tail: seq<Entry<K, V>>)
    requires 0 < |es|
    ensures [Entry(key, es[0].0, es[0].1)] + (RowEntries(key, es[1..]) + tail) == RowEntries(key, es) + tail
  {
    var x, r := Entry(key, es[0].0, es[0].1), RowEntries(key, es[1..]);
    assert RowEntries(key, es) == [x] + r;
    SeqAssoc([x], r, tail);
  }

  lemma SeqAssoc<T>(a: seq<T>, b: seq<T>, c: seq<T>)
    ensures a + (b + c) == (a + b) + c
  {
  }

  /** One produced entry in front of a successful drain of the rest. */
  lemma DrainStep<K(!new), V>(st: State<K>, x: Entry<K, V>, next: State<K>, xs: seq<Entry<K, V>>, prep: Producer<K, V>)
    requires Consumes(prep) && prep(st) == Produced(x, next) && Drain(next, prep) == Success(xs)
    ensures Drain(st, prep) == Success([x] + xs)
  {
    DrainProduced(st, prep);
  }

  /** The reader's step inside a record. */
  lemma EntryStep<K(!new), V>(st: State<K>, key: K, es: seq<(int, V)>, rows: Rows<K, V>,
                              prep: Producer<K, V>, keyText: K -> string, parseKey: string -> Option<K>,
                              render: V -> string, parseId: string -> Option<int>, parseValue: string -> Option<V>) returns (next: State<K>)
    requires PreparesAs(prep, parseKey, parseId, parseValue)
    requires 0 < |es| && GoodEntries(es, render, parseId, parseValue)
    requires Remaining(st) == EntriesText(es, render) + Lead(Lines(rows, keyText, render))
    requires st.key == key && TabTracked(st.cs, st.nextTab) && |Remaining(st)| <= INT_MAX
    ensures prep(st) == Produced(Entry(key, es[0].0, es[0].1), next)
    ensures Remaining(next) == EntriesText(es[1..], render) + Lead(Lines(rows, keyText, render))
    ensures next.key == key && TabTracked(next.cs, next.nextTab) && |Remaining(next)| <= INT_MAX
    ensures GoodEntries(es[1..], render, parseId, parseValue)
  {
    var more := EntriesText(es[1..], render) + Lead(Lines(rows, keyText, render));
    ConcatAssoc(EntryText(es[0], render), EntriesText(es[1..], render), Lead(Lines(rows, keyText, render)));
    assert GoodEntry(es[0], render, parseId, parseValue);
    PrepareEntry(st, es[0], more, prep, parseKey, parseId, parseValue, render);
    next := prep(st).next;
  }

  /** The reader's step from the end of a record into the next one. */
  lemma RecordStep<K(!new), V>(st: State<K>, rows: Rows<K, V>,
                               prep: Producer<K, V>, keyText: K -> string, parseKey: string -> Option<K>,
                               render: V -> string, parseId: string -> Option<int>, parseValue: string -> Option<V>) returns (next: State<K>)
    requires PreparesAs(prep, parseKey, parseId, parseValue)
    requires 0 < |rows| && GoodRows(rows, keyText, parseKey, render, parseId, parseValue)
    requires Remaining(st) == EntriesText([], render) + Lead(Lines(rows, keyText, render))
    requires TabTracked(st.cs, st.nextTab) && |Remaining(st)| <= INT_MAX
    ensures var es0 := rows[0].1;
      && 0 < |es0|
      && prep(st) == Produced(Entry(rows[0].0, es0[0].0, es0[0].1), next)
      && Remaining(next) == EntriesText(es0[1..], render) + Lead(Lines(rows[1..], keyText, render))
      && next.key == rows[0].0 && TabTracked(next.cs, next.nextTab) && |Remaining(next)| <= INT_MAX
      && GoodEntries(es0[1..], render, parseId, parseValue)
  {
    var k, es0 := rows[0].0, rows[0].1;
    assert 0 < |es0| && GoodKey(k, keyText(k), parseKey) && GoodEntries(es0, render, parseId, parseValue);
    assert GoodEntry(es0[0], render, parseId, parseValue);
    var more := EntriesText(es0[1..], render) + Lead(Lines(rows[1..], keyText, render));
    var lines := Lines(rows, keyText, render);
    assert lines == [RecordText(keyText(k), es0, render)] + Lines(rows[1..], keyText, render);
    RecordRemaining(keyText(k), es0, Lines(rows[1..], keyText, render), render);
    PrepareRecord(st, keyText(k), k, es0[0], more, prep, parseKey, parseId, parseValue, render);
    next := prep(st).next;
  }

  /** The text at the start of a record, cut where the reader's first step cuts it. */
  lemma RecordRemaining<V>(kt: string, es: seq<(int, V)>, tail: seq<string>, render: V -> string)
    requires 0 < |es|
    ensures EntriesText([], render) + Lead([RecordText(kt, es, render)] + tail)
      == "\n" + kt + "\t" + (EntryText(es[0], render) + (EntriesText(es[1..], render) + Lead(tail)))
  {
    var lines := [RecordText(kt, es, render)] + tail;
    assert lines[0] == RecordText(kt, es, render) && lines[1..] == tail;
    var a, b, c := EntryText(es[0], render), EntriesText(es[1..], render), Lead(tail);
    calc {
      EntriesText([], render) + Lead(lines);
      "\n" + (kt + "\t" + (a + b)) + c;
      { ConcatAssoc("\n" + kt + "\t", a + b, c); }
      "\n" + kt + "\t" + ((a + b) + c);
      { ConcatAssoc(a, b, c); }
      "\n" + kt + "\t" + (a + (b + c));
    }
  }

  // ---------------------------------------------------------------- opening and the whole file

  /** Where the first tab lies when the first chunk holds the first key and its tab. */
  lemma FirstTab(cs: string, rest: string, kt: string, more: string)
    requires FreeOf(kt, Delimiters) && cs + rest == kt + "\t" + more && '\t' in cs
    ensures |kt| < |cs| && IndexOf(cs, '\t') == |kt|
  {
    var whole := cs + rest;
    assert IndexOf(whole, '\t') == |kt| by {
      NotIn(kt, '\t');
      IndexOfFront('\t', more);
      IndexOfSkip(kt, "\t" + more, '\t');
      ConcatAssoc(kt, "\t", more);
    }
    assert IndexOf(cs, '\t') != -1;
    IndexOfPrefix(cs, rest, '\t');
  }

  /** The constructor on a file whose first chunk holds the first key: the fields it leaves. */
  lemma OpenedStart<K>(chunks: seq<string>, kt: string, key: K, more: string, parseKey: string -> Option<K>)
    requires 0 < |chunks| && '\t' in chunks[0] && GoodKey(key, kt, parseKey)
    requires Flatten(chunks) == kt + "\t" + more && |Flatten(chunks)| <= INT_MAX
    ensures var o := Opened(chunks, parseKey);
      && o.Success? && o.value.key == key && Remaining(o.value) == more
      && TabTracked(o.value.cs, o.value.nextTab) && |Remaining(o.value)| <= INT_MAX
  {
    var cs, rest := chunks[0], Flatten(chunks[1..]);
    FirstTab(cs, rest, kt, more);
    PrefixSplit(cs, rest, kt + "\t", more);
    assert cs[0..|kt|] == kt by {
      assert (kt + "\t")[..|kt|] == kt;
    }
    SubstringIs(cs, 0, |kt|);
    SubstringIs(cs, |kt| + 1, |cs|);
    var tail := cs[|kt| + 1..];
    assert cs[|kt| + 1..|cs|] == tail;
    TabOfTracked(tail);
  }

  /** The typed conditions under which a block reads back: what `WellFormed` asks, and parsers that invert the renderings. */
  ghost predicate Reparses<K, V>(rows: Rows<K, V>, keyText: K -> string, parseKey: string -> Option<K>,
                                 render: V -> string, parseValue: string -> Option<V>) {
    forall i | 0 <= i < |rows| ::
      && parseKey(keyText(rows[i].0)) == Some(rows[i].0)
      && forall j | 0 <= j < |rows[i].1| :: parseValue(render(rows[i].1[j].1)) == Some(rows[i].1[j].1)
  }

  lemma GoodFromWellFormed<K, V>(rows: Rows<K, V>, keyText: K -> string, parseKey: string -> Option<K>,
                                 render: V -> string, parseValue: string -> Option<V>)
    requires WellFormed(Keyed(rows, keyText), render) && Reparses(rows, keyText, parseKey, render, parseValue)
    ensures GoodRows(rows, keyText, parseKey, render, ParseInt32, parseValue)
  {
    forall i | 0 <= i < |rows|
      ensures GoodEntries(rows[i].1, render, ParseInt32, parseValue)
    {
      forall j | 0 <= j < |rows[i].1|
        ensures GoodEntry(rows[i].1[j], render, ParseInt32, parseValue)
      {
        assert Keyed(rows, keyText)[i].1 == rows[i].1;
        ParseIntegerOfIntToString(rows[i].1[j].0, INT_MIN, INT_MAX);
      }
    }
    forall i | 0 <= i < |rows| ensures GoodKey(rows[i].0, keyText(rows[i].0), parseKey) {
      assert Keyed(rows, keyText)[i].0 == keyText(rows[i].0);
    }
    forall i | 0 <= i < |rows| ensures 0 < |rows[i].1| {
      assert Keyed(rows, keyText)[i].1 == rows[i].1;
    }
  }

  /**
   * The round trip of a block file: whatever way its text is cut into chunks,
   * as long as the first chunk holds the first key's tab, the reader hands
   * out every entry of every record, in file order, each with its key.
   */
  lemma ReadFileRoundTrip<K(!new), V>(chunks: seq<string>, rows: Rows<K, V>, keyText: K -> string,
                                      parseKey: string -> Option<K>, render: V -> string, parseValue: string -> Option<V>)
    requires 0 < |rows| && WellFormed(Keyed(rows, keyText), render) && Reparses(rows, keyText, parseKey, render, parseValue)
    requires Flatten(chunks) == Serialise(Keyed(rows, keyText), render) && |Flatten(chunks)| <= INT_MAX
    requires 0 < |chunks| && '\t' in chunks[0]
    ensures ReadFile(chunks, parseKey, parseValue) == Success(Flat(rows))
  {
    GoodFromWellFormed(rows, keyText, parseKey, render, parseValue);
    var k0, es0 := rows[0].0, rows[0].1;
    var kt0 := keyText(k0);
    var tail := Lead(Lines(rows[1..], keyText, render));
    var more := EntriesText(es0, render) + tail;
    SerialiseLead(rows, keyText, render);
    ConcatAssoc(kt0 + "\t", EntriesText(es0, render), tail);
    assert GoodKey(k0, kt0, parseKey);
    OpenedStart(chunks, kt0, k0, more, parseKey);
    var st := Opened(chunks, parseKey).value;
    var prep := Preparer(parseKey, ParseInt32, parseValue);
    PreparerPreparesAs(parseKey, ParseInt32, parseValue);
    ReadFileProduces(chunks, parseKey, prep);
    assert GoodRows(rows[1..], keyText, parseKey, render, ParseInt32, parseValue) by {
      forall i | 0 <= i < |rows[1..]| ensures rows[1..][i] == rows[i + 1] { }
    }
    DrainBlock(st, k0, es0, rows[1..], prep, keyText, parseKey, render, ParseInt32, parseValue);
  }
}
