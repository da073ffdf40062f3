/**
 * The buffered block writers. Both stage text in a 1024-char array and hand
 * the filled part to the file writer whenever fewer than a fixed headroom of
 * chars is left; the text of one entry is never split between two writes.
 * Staging past the end of the array raises ArrayIndexOutOfBoundsException.
 *
 * The file is the concatenation of the written chunks; whatever is still
 * staged when the stream is closed is never written.
 */
module BlockWriter {
  import opened Wrappers
  import opened Text
  import opened BlockFormat
  import OrderedMap
  import PostingsList
  import Dictionary

  const BUFFER_SIZE: nat := 1024
  /** The matrix writer stages entries while fewer than BUFFER_SIZE - 30 chars are filled. */
  const MATRIX_LIMIT: nat := BUFFER_SIZE - 30
  /** The dictionary writer stages postings while fewer than BUFFER_SIZE - 25 chars are filled. */
  const DICTIONARY_LIMIT: nat := BUFFER_SIZE - 25

  /** The staged chars and the chunks already handed to the file. */
  datatype Buf = Buf(filled: string, written: seq<string>)

  /** The file text so far. */
  function Output(b: Buf): string {
    Flatten(b.written)
  }

  /** No written chunk was longer than the array. */
  predicate ChunksFit(b: Buf) {
    forall i | 0 <= i < |b.written| :: |b.written[i]| <= BUFFER_SIZE
  }

  /** Copies chars into the array, failing when they run past its end. */
  function Stage(b: Buf, s: string): (r: Result<Buf>) {
    if |b.filled| + |s| <= BUFFER_SIZE then Success(Buf(b.filled + s, b.written)) else Failure(IndexOutOfBounds)
  }

  /** `out.write(currentString, 0, numOfCharsFilled)` followed by resetting the fill count. */
  function Flush(b: Buf): Buf {
    Buf("", b.written + [b.filled])
  }

  /** Every entry text fits into the room the fill loop leaves. */
  predicate FitsAfter(texts: seq<string>, limit: nat) {
    forall i | 0 <= i < |texts| :: |texts[i]| + limit <= BUFFER_SIZE + 1
  }

  /**
   * The inner loop: stages entries while fewer than `limit` chars are filled
   * and entries remain. Returns the buffer and the entries not yet staged.
   */
  function FillChunk(b: Buf, texts: seq<string>, limit: nat): (r: Result<(Buf, seq<string>)>)
    ensures r.Success? ==>
      var k := |texts| - |r.value.1|;
      && 0 <= k
      && r.value.1 == texts[k..]
      && r.value.0 == Buf(b.filled + Flatten(texts[..k]), b.written)
      && (k == 0 && |texts| > 0 ==> |b.filled| >= limit)
      && (|b.filled| <= BUFFER_SIZE ==> |r.value.0.filled| <= BUFFER_SIZE)
    ensures |b.filled| <= BUFFER_SIZE && FitsAfter(texts, limit) ==> r.Success?
    decreases |texts|
  {
    if |texts| == 0 || |b.filled| >= limit then
      assert texts[..0] == [];
      Success((b, texts))
    else
      var b1 :- Stage(b, texts[0]);
      var r := FillChunk(b1, texts[1..], limit);
      if r.Success? then
        var k := |texts| - |r.value.1|;
        assert texts[..k] == [texts[0]] + texts[1..][..k - 1];
        assert texts[1..][k - 1..] == texts[k..];
        r
      else r
  }

  /** The outer loop: fill and write until no entry is left. */
  function WriteEntries(b: Buf, texts: seq<string>, limit: nat): (r: Result<Buf>)
    requires 0 < limit
    ensures r.Success? ==> Output(r.value) + r.value.filled == Output(b) + b.filled + Flatten(texts)
    ensures r.Success? && |texts| > 0 ==> r.value.filled == ""
    ensures r.Success? && |texts| == 0 ==> r.value == b
    decreases |texts|, |b.filled|
  {
    if |texts| == 0 then Success(b)
    else
      match FillChunk(b, texts, limit)
      case Failure(e) => Failure(e)
      case Success(c) =>
        var r := WriteEntries(Flush(c.0), c.1, limit);
        if r.Success? then
          WriteEntriesStep(b, texts, c.0, c.1, r.value);
          r
        else r
  }

  lemma WriteEntriesStep(b: Buf, texts: seq<string>, c: Buf, rest: seq<string>, r: Buf)
    requires |rest| <= |texts| && rest == texts[|texts| - |rest|..]
    requires c == Buf(b.filled + Flatten(texts[..|texts| - |rest|]), b.written)
    requires Output(r) + r.filled == Output(Flush(c)) + "" + Flatten(rest)
    ensures Output(r) + r.filled == Output(b) + b.filled + Flatten(texts)
  {
    var k := |texts| - |rest|;
    var done := texts[..k];
    FlattenSnoc(b.written, c.filled);
    assert texts == done + rest;
    FlattenAppend(done, rest);
    var o, f, x, y := Output(b), b.filled, Flatten(done), Flatten(rest);
    calc {
      Output(r) + r.filled;
      Output(Flush(c)) + "" + y;
      { assert Output(Flush(c)) + "" == Output(Flush(c)); }
      Output(Flush(c)) + y;
      (o + (f + x)) + y;
      { ConcatAssoc(o, f + x, y); ConcatAssoc(f, x, y); }
      o + (f + (x + y));
      { ConcatAssoc(o, f, x + y); }
      o + f + Flatten(texts);
    }
  }

  /** When every entry fits the room the fill loop leaves, the outer loop never overruns the array. */
  lemma {:induction false} WriteEntriesFits(b: Buf, texts: seq<string>, limit: nat)
    requires 0 < limit
    requires |b.filled| <= BUFFER_SIZE && FitsAfter(texts, limit)
    ensures WriteEntries(b, texts, limit).Success?
    decreases |texts|, |b.filled|
  {
    if |texts| > 0 {
      var c := FillChunk(b, texts, limit).value;
      assert FitsAfter(c.1, limit) by {
        var k := |texts| - |c.1|;
        forall i | 0 <= i < |c.1| ensures |c.1[i]| + limit <= BUFFER_SIZE + 1 {
          assert c.1[i] == texts[k + i];
        }
      }
      WriteEntriesFits(Flush(c.0), c.1, limit);
    }
  }

  /** Every chunk the outer loop writes is at most the array's length. */
  lemma {:induction false} WriteEntriesChunks(b: Buf, texts: seq<string>, limit: nat)
    requires 0 < limit
    requires ChunksFit(b) && |b.filled| <= BUFFER_SIZE
    requires WriteEntries(b, texts, limit).Success?
    ensures ChunksFit(WriteEntries(b, texts, limit).value)
    decreases |texts|, |b.filled|
  {
    if |texts| > 0 {
      var c := FillChunk(b, texts, limit).value;
      WriteEntriesChunks(Flush(c.0), c.1, limit);
    }
  }

  // ---------------------------------------------------------------- matrix blocks

  /**
   * One matrix row: the document id and a tab, then the entries, then a
   * pending line break. A row without entries leaves its `docID\t` staged,
   * where the next row is appended to it.
   */
  function WriteRow<V>(b: Buf, doc: int, row: seq<(int, V)>, render: V -> string): (r: Result<Buf>) {
    var b1 :- Stage(b, IntToString(doc) + "\t");
    if |row| == 0 then Success(b1)
    else
      var b2 :- WriteEntries(b1, EntryTexts(row, render), MATRIX_LIMIT);
      Success(b2.(filled := "\n"))
  }

  function WriteRows<V>(b: Buf, m: seq<(int, seq<(int, V)>)>, render: V -> string): Result<Buf>
    decreases |m|
  {
    if |m| == 0 then Success(b)
    else
      var b1 :- WriteRow(b, m[0].0, m[0].1, render);
      WriteRows(b1, m[1..], render)
  }

  /** `BufferedBlockMatrixWriter.writeToFile`: the file text, or the array overrun. */
  function WriteMatrix<V>(m: seq<(int, seq<(int, V)>)>, render: V -> string): Result<string> {
    var b :- WriteRows(Buf("", []), m, render);
    Success(Output(b))
  }

  /** Everything a row puts into the buffer: a row with entries ends with a line break. */
  function StagedRow<V>(doc: int, row: seq<(int, V)>, render: V -> string): string {
    IntToString(doc) + "\t" + EntriesText(row, render) + (if |row| == 0 then "" else "\n")
  }

  function StagedRows<V>(m: seq<(int, seq<(int, V)>)>, render: V -> string): string
    decreases |m|
  {
    if |m| == 0 then "" else StagedRow(m[0].0, m[0].1, render) + StagedRows(m[1..], render)
  }

  /** The rows of `m` that end with a row that has entries leave exactly one line break staged. */
  predicate LastRowHasEntries<V>(m: seq<(int, seq<(int, V)>)>) {
    |m| > 0 && |m[|m| - 1].1| > 0
  }

  /** One row adds its staged text; a row with entries leaves one line break staged. */
  lemma WriteRowStaged<V>(b: Buf, doc: int, row: seq<(int, V)>, render: V -> string)
    requires WriteRow(b, doc, row, render).Success?
    ensures var r := WriteRow(b, doc, row, render).value;
      && Output(r) + r.filled == Output(b) + b.filled + StagedRow(doc, row, render)
      && (|row| > 0 ==> r.filled == "\n")
  {
    var head := IntToString(doc) + "\t";
    var b1 := Buf(b.filled + head, b.written);
    assert Stage(b, head) == Success(b1);
    var o, f := Output(b), b.filled;
    var e := EntriesText(row, render);
    if |row| > 0 {
      var texts := EntryTexts(row, render);
      var b2 := WriteEntries(b1, texts, MATRIX_LIMIT).value;
      assert WriteRow(b, doc, row, render).value == b2.(filled := "\n");
      FlattenEntryTexts(row, render);
      calc {
        Output(b2) + "\n";
        { assert Output(b2) + "" == Output(b2); }
        ((o + (f + head)) + e) + "\n";
        { ConcatAssoc(o, f + head, e); ConcatAssoc(f, head, e); }
        (o + (f + (head + e))) + "\n";
        { ConcatAssoc(o, f + (head + e), "\n"); ConcatAssoc(f, head + e, "\n"); }
        o + (f + ((head + e) + "\n"));
        { ConcatAssoc(o, f, (head + e) + "\n"); }
        o + f + StagedRow(doc, row, render);
      }
    } else {
      assert e == "";
      calc {
        Output(b1) + b1.filled;
        o + (f + head);
        { ConcatAssoc(o, f, head); }
        o + f + head;
        { assert head + "" + "" == head; }
        o + f + StagedRow(doc, row, render);
      }
    }
  }

  /** The chunks a row writes fit the array. */
  lemma WriteRowChunks<V>(b: Buf, doc: int, row: seq<(int, V)>, render: V -> string)
    requires WriteRow(b, doc, row, render).Success?
    requires ChunksFit(b) && |b.filled| <= BUFFER_SIZE
    ensures ChunksFit(WriteRow(b, doc, row, render).value)
    ensures |WriteRow(b, doc, row, render).value.filled| <= BUFFER_SIZE
  {
    var head := IntToString(doc) + "\t";
    var b1 := Buf(b.filled + head, b.written);
    assert Stage(b, head) == Success(b1);
    if |row| > 0 {
      WriteEntriesChunks(b1, EntryTexts(row, render), MATRIX_LIMIT);
    }
  }

  /**
   * What the matrix writer writes plus what it leaves staged is the staged
   * text of every row, in matrix order.
   */
  lemma WriteRowsUnfold<V>(b: Buf, m: seq<(int, seq<(int, V)>)>, render: V -> string)
    requires WriteRows(b, m, render).Success? && |m| > 0
    ensures WriteRow(b, m[0].0, m[0].1, render).Success?
    ensures WriteRows(b, m, render) == WriteRows(WriteRow(b, m[0].0, m[0].1, render).value, m[1..], render)
  {
  }

  lemma {:induction false} WriteRowsStaged<V>(b: Buf, m: seq<(int, seq<(int, V)>)>, render: V -> string)
    requires WriteRows(b, m, render).Success?
    ensures var r := WriteRows(b, m, render).value;
      Output(r) + r.filled == Output(b) + b.filled + StagedRows(m, render)
    decreases |m|
  {
    if |m| > 0 {
      WriteRowsUnfold(b, m, render);
      var b1 := WriteRow(b, m[0].0, m[0].1, render).value;
      WriteRowStaged(b, m[0].0, m[0].1, render);
      WriteRowsStaged(b1, m[1..], render);
      ConcatAssoc(Output(b) + b.filled, StagedRow(m[0].0, m[0].1, render), StagedRows(m[1..], render));
    } else {
      assert Output(b) + b.filled + "" == Output(b) + b.filled;
    }
  }

  lemma WriteRowBreak<V>(b: Buf, doc: int, row: seq<(int, V)>, render: V -> string)
    requires WriteRow(b, doc, row, render).Success? && 0 < |row|
    ensures WriteRow(b, doc, row, render).value.filled == "\n"
  {
  }

  /** After a last row with entries exactly one line break is left staged. */
  lemma {:induction false} WriteRowsLastBreak<V>(b: Buf, m: seq<(int, seq<(int, V)>)>, render: V -> string)
    requires WriteRows(b, m, render).Success?
    requires LastRowHasEntries(m)
    ensures WriteRows(b, m, render).value.filled == "\n"
    decreases |m|
  {
    WriteRowsUnfold(b, m, render);
    var b1 := WriteRow(b, m[0].0, m[0].1, render).value;
    if |m| == 1 {
      WriteRowBreak(b, m[0].0, m[0].1, render);
      assert |m[1..]| == 0;
      assert WriteRows(b1, m[1..], render) == Success(b1);
    } else {
      var rest := m[1..];
      assert rest[|rest| - 1] == m[|m| - 1];
      assert LastRowHasEntries(rest);
      WriteRowsLastBreak(b1, rest, render);
    }
  }

  /** Every chunk the matrix writer writes is at most the array's length. */
  lemma {:induction false} WriteRowsChunks<V>(b: Buf, m: seq<(int, seq<(int, V)>)>, render: V -> string)
    requires WriteRows(b, m, render).Success?
    requires ChunksFit(b) && |b.filled| <= BUFFER_SIZE
    ensures ChunksFit(WriteRows(b, m, render).value)
    decreases |m|
  {
    if |m| > 0 {
      WriteRowsUnfold(b, m, render);
      var b1 := WriteRow(b, m[0].0, m[0].1, render).value;
      WriteRowChunks(b, m[0].0, m[0].1, render);
      WriteRowsChunks(b1, m[1..], render);
    }
  }

  /**
   * For a matrix whose rows all have entries the file is the records joined
   * by line breaks, with no break after the last one.
   */
  lemma WriteMatrixText<V>(m: seq<(int, seq<(int, V)>)>, render: V -> string)
    requires WriteMatrix(m, render).Success?
    requires forall i | 0 <= i < |m| :: 0 < |m[i].1|
    ensures WriteMatrix(m, render).value == Serialise(MatrixBlock(m), render)
    ensures ChunksFit(WriteRows(Buf("", []), m, render).value)
  {
    var r := WriteRows(Buf("", []), m, render).value;
    WriteRowsStaged(Buf("", []), m, render);
    WriteRowsChunks(Buf("", []), m, render);
    if |m| > 0 {
      WriteRowsLastBreak(Buf("", []), m, render);
    }
    assert Output(Buf("", [])) == "";
    var out := Output(r);
    if |m| > 0 {
      var recs := Records(MatrixBlock(m), render);
      StagedRowsTerminated(m, render);
      TerminatedIsJoin(recs);
      assert out + "\n" == Join(recs) + "\n";
      assert out == (out + "\n")[..|out|];
      assert Join(recs) == (Join(recs) + "\n")[..|Join(recs)|];
    } else {
      assert r == Buf("", []);
    }
  }

  lemma {:induction false} StagedRowsTerminated<V>(m: seq<(int, seq<(int, V)>)>, render: V -> string)
    requires forall i | 0 <= i < |m| :: 0 < |m[i].1|
    ensures StagedRows(m, render) == Terminated(Records(MatrixBlock(m), render))
    decreases |m|
  {
    if |m| > 0 {
      StagedRowsTerminated(m[1..], render);
      assert Records(MatrixBlock(m), render)[1..] == Records(MatrixBlock(m[1..]), render);
    }
  }

  /** Staging a row's id and tab needs room for the pending line break, at most 11 digits and the tab. */
  predicate MatrixFits<V>(m: seq<(int, seq<(int, V)>)>, render: V -> string) {
    forall i | 0 <= i < |m| ::
      && IsInt32(m[i].0)
      && 0 < |m[i].1|
      && forall j | 0 <= j < |m[i].1| :: IsInt32(m[i].1[j].0) && |render(m[i].1[j].1)| <= 15
  }

  /** A row with int ids and short value texts fits when at most one char is staged before it. */
  lemma WriteRowFits<V>(b: Buf, doc: int, row: seq<(int, V)>, render: V -> string)
    requires |b.filled| <= 1 && IsInt32(doc) && 0 < |row|
    requires forall j | 0 <= j < |row| :: IsInt32(row[j].0) && |render(row[j].1)| <= 15
    ensures WriteRow(b, doc, row, render).Success?
    ensures WriteRow(b, doc, row, render).value.filled == "\n"
  {
    IntToStringLength(doc);
    var head := IntToString(doc) + "\t";
    assert |b.filled| + |head| <= BUFFER_SIZE;
    var b1 := Buf(b.filled + head, b.written);
    assert Stage(b, head) == Success(b1);
    var texts := EntryTexts(row, render);
    forall i | 0 <= i < |texts| ensures |texts[i]| + MATRIX_LIMIT <= BUFFER_SIZE + 1 {
      IntToStringLength(row[i].0);
    }
    WriteEntriesFits(b1, texts, MATRIX_LIMIT);
  }

  /**
   * With int ids, value texts of at most 15 chars (the longest float text)
   * and rows with entries, no staging runs past the array: every entry text
   * is at most 29 chars and is staged only while fewer than 994 are filled.
   */
  lemma {:induction false} WriteRowsFits<V>(b: Buf, m: seq<(int, seq<(int, V)>)>, render: V -> string)
    requires |b.filled| <= 1
    requires MatrixFits(m, render)
    ensures WriteRows(b, m, render).Success?
    decreases |m|
  {
    if |m| > 0 {
      WriteRowFits(b, m[0].0, m[0].1, render);
      assert MatrixFits(m[1..], render) by {
        forall i | 0 <= i < |m[1..]| ensures m[1..][i] == m[i + 1] {
        }
      }
      WriteRowsFits(WriteRow(b, m[0].0, m[0].1, render).value, m[1..], render);
    }
  }

  lemma WriteMatrixFits<V>(m: seq<(int, seq<(int, V)>)>, render: V -> string)
    requires MatrixFits(m, render)
    ensures WriteMatrix(m, render).Success?
    ensures WriteMatrix(m, render).value == Serialise(MatrixBlock(m), render)
  {
    WriteRowsFits(Buf("", []), m, render);
    WriteMatrixText(m, render);
  }

  /**
   * A row without entries never gets its line break: its id and tab stay
   * staged and the next record is glued to them.
   */
  lemma EmptyRowGlued<V>(d1: int, d2: int, row: seq<(int, V)>, render: V -> string)
    requires 0 < |row|
    requires WriteMatrix([(d1, []), (d2, row)], render).Success?
    ensures WriteMatrix([(d1, []), (d2, row)], render).value
      == IntToString(d1) + "\t" + RecordText(IntToString(d2), row, render)
  {
    var m := [(d1, []), (d2, row)];
    var r := WriteRows(Buf("", []), m, render).value;
    WriteRowsStaged(Buf("", []), m, render);
    WriteRowsLastBreak(Buf("", []), m, render);
    assert Output(Buf("", [])) == "";
    assert m[1..] == [(d2, row)];
    var head := IntToString(d1) + "\t";
    var rec := RecordText(IntToString(d2), row, render);
    assert EntriesText([], render) == "";
    assert StagedRow(d1, [], render) == head;
    assert StagedRow(d2, row, render) == rec + "\n";
    assert StagedRows(m[1..], render) == rec + "\n" + "";
    assert StagedRows(m[1..], render) == rec + "\n";
    ConcatAssoc(head, rec, "\n");
    assert Output(r) + "\n" == head + rec + "\n";
    assert Output(r) == (Output(r) + "\n")[..|Output(r)|];
  }

  // ---------------------------------------------------------------- dictionary blocks

  /**
   * One term: the term and a tab, then the postings, then a pending line
   * break that replaces whatever is staged. A term without postings
   * therefore loses its staged text.
   */
  function WriteTerm(b: Buf, term: string, p: PostingsList.Postings): (r: Result<Buf>) {
    var b1 :- Stage(b, term + "\t");
    var b2 :- WriteEntries(b1, EntryTexts(p, IntToString), DICTIONARY_LIMIT);
    Success(b2.(filled := "\n"))
  }

  function WriteTerms(b: Buf, terms: seq<(string, PostingsList.Postings)>): Result<Buf>
    decreases |terms|
  {
    if |terms| == 0 then Success(b)
    else
      var b1 :- WriteTerm(b, terms[0].0, terms[0].1);
      WriteTerms(b1, terms[1..])
  }

  /** The terms in `getTerms` order with their postings lists. */
  function TermsWithPostings(d: Dictionary.Dict, ts: seq<string>): (r: seq<(string, PostingsList.Postings)>)
    requires forall i | 0 <= i < |ts| :: ts[i] in OrderedMap.Keys(d.terms)
    ensures |r| == |ts|
    ensures forall i | 0 <= i < |ts| :: r[i].0 == ts[i] && Dictionary.GetPostingsList(d, ts[i]) == Some(r[i].1)
  {
    seq(|ts|, i requires 0 <= i < |ts| => (ts[i], Dictionary.PostingsOf(d.terms, ts[i])))
  }

  /**
   * `BufferedBlockDictionaryWriter.writeToFile`: fetches the terms with
   * `getTerms` (which may sort and cache them) and writes every term.
   */
  function WriteDictionary(d: Dictionary.Dict): (r: Result<(Dictionary.Dict, string)>)
    requires Dictionary.Valid(d)
    ensures r.Success? ==> r.value.0 == Dictionary.GetTerms(d).0
  {
    var (d1, ts) := Dictionary.GetTerms(d);
    var b :- WriteTerms(Buf("", []), TermsWithPostings(d1, ts));
    Success((d1, Output(b)))
  }

  /** A record as written: preceded by a line break unless it is the first text of the file. */
  function Piece(first: bool, term: string, p: PostingsList.Postings): string {
    (if first then "" else "\n") + RecordText(term, p, IntToString)
  }

  /**
   * Reference text: each term with postings contributes its record, preceded
   * by a line break unless it is the very first term written.
   */
  function DictionaryText(terms: seq<(string, PostingsList.Postings)>, first: bool): string
    decreases |terms|
  {
    if |terms| == 0 then ""
    else if |terms[0].1| == 0 then DictionaryText(terms[1..], false)
    else Piece(first, terms[0].0, terms[0].1) + DictionaryText(terms[1..], false)
  }

  /** One term writes its record after what was staged, or nothing when it has no postings. */
  lemma WriteTermStaged(b: Buf, term: string, p: PostingsList.Postings)
    requires WriteTerm(b, term, p).Success?
    ensures var r := WriteTerm(b, term, p).value;
      && r.filled == "\n"
      && (|p| == 0 ==> r.written == b.written)
      && (|p| > 0 ==> Output(r) == Output(b) + (b.filled + RecordText(term, p, IntToString)))
  {
    var head := term + "\t";
    var b1 := Buf(b.filled + head, b.written);
    assert Stage(b, head) == Success(b1);
    var texts := EntryTexts(p, IntToString);
    var b2 := WriteEntries(b1, texts, DICTIONARY_LIMIT).value;
    assert WriteTerm(b, term, p).value == b2.(filled := "\n");
    if |p| > 0 {
      FlattenEntryTexts(p, IntToString);
      var e := EntriesText(p, IntToString);
      calc {
        Output(b2);
        { assert Output(b2) + "" == Output(b2); }
        Output(b) + (b.filled + head) + e;
        { ConcatAssoc(Output(b), b.filled + head, e); ConcatAssoc(b.filled, head, e); }
        Output(b) + (b.filled + (head + e));
      }
    }
  }

  /** The chunks a term writes fit the array. */
  lemma WriteTermChunks(b: Buf, term: string, p: PostingsList.Postings)
    requires WriteTerm(b, term, p).Success?
    requires ChunksFit(b) && |b.filled| <= BUFFER_SIZE
    ensures ChunksFit(WriteTerm(b, term, p).value)
  {
    var head := term + "\t";
    var b1 := Buf(b.filled + head, b.written);
    assert Stage(b, head) == Success(b1);
    WriteEntriesChunks(b1, EntryTexts(p, IntToString), DICTIONARY_LIMIT);
  }

  lemma WriteTermsUnfold(b: Buf, terms: seq<(string, PostingsList.Postings)>)
    requires WriteTerms(b, terms).Success? && |terms| > 0
    ensures WriteTerm(b, terms[0].0, terms[0].1).Success?
    ensures WriteTerms(b, terms) == WriteTerms(WriteTerm(b, terms[0].0, terms[0].1).value, terms[1..])
  {
  }

  /** The dictionary writer writes exactly the reference text. */
  lemma {:induction false} WriteTermsText(b: Buf, terms: seq<(string, PostingsList.Postings)>, first: bool)
    requires b.filled == (if first then "" else "\n")
    requires WriteTerms(b, terms).Success?
    ensures Output(WriteTerms(b, terms).value) == Output(b) + DictionaryText(terms, first)
    decreases |terms|
  {
    if |terms| > 0 {
      WriteTermsUnfold(b, terms);
      var b1 := WriteTerm(b, terms[0].0, terms[0].1).value;
      WriteTermStaged(b, terms[0].0, terms[0].1);
      WriteTermsText(b1, terms[1..], false);
      var rest := DictionaryText(terms[1..], false);
      if |terms[0].1| > 0 {
        ConcatAssoc(Output(b), Piece(first, terms[0].0, terms[0].1), rest);
      }
    } else {
      assert Output(b) + "" == Output(b);
    }
  }

  /** Every chunk the dictionary writer writes is at most the array's length. */
  lemma {:induction false} WriteTermsChunks(b: Buf, terms: seq<(string, PostingsList.Postings)>)
    requires WriteTerms(b, terms).Success?
    requires ChunksFit(b) && |b.filled| <= BUFFER_SIZE
    ensures ChunksFit(WriteTerms(b, terms).value)
    decreases |terms|
  {
    if |terms| > 0 {
      WriteTermsUnfold(b, terms);
      WriteTermStaged(b, terms[0].0, terms[0].1);
      WriteTermChunks(b, terms[0].0, terms[0].1);
      WriteTermsChunks(WriteTerm(b, terms[0].0, terms[0].1).value, terms[1..]);
    }
  }

  /** With postings for every term, the written records are joined by line breaks. */
  lemma {:induction false} DictionaryTextJoin(terms: seq<(string, PostingsList.Postings)>)
    requires forall i | 0 <= i < |terms| :: 0 < |terms[i].1|
    ensures DictionaryText(terms, true) == Serialise(terms, IntToString)
    decreases |terms|
  {
    if |terms| == 1 {
      assert DictionaryText(terms[1..], false) == "";
      assert Piece(true, terms[0].0, terms[0].1) + "" == Piece(true, terms[0].0, terms[0].1);
    } else if |terms| > 1 {
      var rec := RecordText(terms[0].0, terms[0].1, IntToString);
      var recs := Records(terms, IntToString);
      var tail := Join(Records(terms[1..], IntToString));
      assert recs[1..] == Records(terms[1..], IntToString);
      calc {
        DictionaryText(terms, true);
        { assert Piece(true, terms[0].0, terms[0].1) == rec; }
        rec + DictionaryText(terms[1..], false);
        { DictionaryTextFollow(terms[1..]); DictionaryTextJoin(terms[1..]); }
        rec + ("\n" + tail);
        { ConcatAssoc(rec, "\n", tail); }
        rec + "\n" + tail;
        Join(recs);
      }
    }
  }

  lemma DictionaryTextFollow(terms: seq<(string, PostingsList.Postings)>)
    requires 0 < |terms| && 0 < |terms[0].1|
    ensures DictionaryText(terms, false) == "\n" + DictionaryText(terms, true)
  {
    var rec := RecordText(terms[0].0, terms[0].1, IntToString);
    var rest := DictionaryText(terms[1..], false);
    assert Piece(true, terms[0].0, terms[0].1) == rec;
    ConcatAssoc("\n", rec, rest);
  }

  /**
   * The dictionary file is the records of the `getTerms` list joined by line
   * breaks when every term has postings; each record's postings text is the
   * postings list's `toString`.
   */
  lemma WriteDictionaryText(d: Dictionary.Dict)
    requires Dictionary.Valid(d)
    requires WriteDictionary(d).Success?
    requires forall t | t in OrderedMap.Keys(d.terms) :: 0 < |Dictionary.GetPostingsList(d, t).value|
    ensures var terms := TermsWithPostings(Dictionary.GetTerms(d).0, Dictionary.GetTerms(d).1);
      && WriteDictionary(d).value.1 == Serialise(terms, IntToString)
      && forall i | 0 <= i < |terms| :: EntriesText(terms[i].1, IntToString) == PostingsList.ToString(terms[i].1)
  {
    var (d1, ts) := Dictionary.GetTerms(d);
    var terms := TermsWithPostings(d1, ts);
    WriteTermsText(Buf("", []), terms, true);
    assert Output(Buf("", [])) == "";
    DictionaryTextJoin(terms);
    forall i | 0 <= i < |terms| ensures EntriesText(terms[i].1, IntToString) == PostingsList.ToString(terms[i].1) {
      EntriesTextIsToString(terms[i].1);
    }
  }

  /** The postings part of a record is `PostingsList.toString`. */
  lemma {:induction false} EntriesTextIsToString(p: PostingsList.Postings)
    ensures EntriesText(p, IntToString) == PostingsList.ToString(p)
    decreases |p|
  {
    if |p| > 0 {
      var q := p[..|p| - 1];
      EntriesTextIsToString(q);
      EntriesTextSnoc(q, p[|p| - 1], IntToString);
      assert q + [p[|p| - 1]] == p;
    }
  }

  lemma {:induction false} EntriesTextSnoc<V>(es: seq<(int, V)>, e: (int, V), render: V -> string)
    ensures EntriesText(es + [e], render) == EntriesText(es, render) + EntryText(e, render)
    decreases |es|
  {
    if |es| == 0 {
      assert EntriesText([e], render) == EntryText(e, render) + EntriesText([], render);
    } else {
      assert (es + [e])[1..] == es[1..] + [e];
      EntriesTextSnoc(es[1..], e, render);
    }
  }

  /** A first term without postings leaves a line break in front of the next record. */
  lemma LeadingBreak()
    ensures DictionaryText([("a", []), ("b", [(1, 2)])], true) == "\nb\t<1:2>"
  {
  }
}
