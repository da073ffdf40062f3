/**
 * The ARFF writer: a header naming the document attributes and one numeric
 * attribute per vocabulary term, then one sparse row `{0 docID,1 class,2 name,col value,...}`
 * per document. The matrix arrives in parts; a document that continues from
 * the previous part is stitched onto its still open row.
 *
 * The writer stages its chars in the same fixed array as the block writers
 * (`BlockWriter.Buf`); the gzip stream is left out, so the output is the text
 * before compression.
 */
module ArffWriter {
  import opened Wrappers
  import opened Text
  import opened BlockWriter
  import BlockFormat
  import OrderedMap
  import Vocabulary
  import opened Documents

  /** The attributes before the term columns: docID, class and name. */
  const META_FIELD_COUNT: int := 3

  /** A value of Java `int` arithmetic: wrapped into the 32-bit range. */
  function Wrap32(x: int): (r: int)
    ensures IsInt32(r)
    ensures IsInt32(x) ==> r == x
  {
    (x - INT_MIN) % 0x1_0000_0000 + INT_MIN
  }

  /** The column of a term id: shifted past the three leading attributes, in `int` arithmetic. */
  function Column(termID: int): int {
    Wrap32(termID + META_FIELD_COUNT)
  }

  // ------------------------------------------------------------------ header

  const RELATION := "@RELATION documentterm\n\n"
  const HEADER_COMMENTS :=
    "% The first three columns are the docID, class and the name of the document.\n"
    + "% We add ! in front of the attributes to make them unique (no term starts with a !).\n"

  /** The attribute declarations, one per column, in column order. */
  function Attributes(terms: seq<string>): (r: seq<string>)
    ensures |r| == |terms| + META_FIELD_COUNT
    ensures forall k | 0 <= k < |terms| :: r[k + META_FIELD_COUNT] == "@ATTRIBUTE " + terms[k] + " NUMERIC"
  {
    ["@ATTRIBUTE !docID NUMERIC", "@ATTRIBUTE !class string", "@ATTRIBUTE !name string"]
    + seq(|terms|, k requires 0 <= k < |terms| => "@ATTRIBUTE " + terms[k] + " NUMERIC")
  }

  /** `writeHeader`: the relation, two comments, the attributes, then the start of the data section. */
  function Header(terms: seq<string>): string {
    RELATION + HEADER_COMMENTS + Terminated(Attributes(terms)) + "\n\n@DATA\n"
  }

  /**
   * The column a term id is written to is the attribute of that term: the
   * vocabulary hands out ids in insertion order, which is the order of the
   * term attributes.
   */
  lemma TermColumn(v: Vocabulary.Vocab, term: string)
    requires Vocabulary.Valid(v) && Vocabulary.Get(v, term).Some?
    requires |v.entries| <= INT_MAX - META_FIELD_COUNT
    ensures var col := Column(Vocabulary.Get(v, term).value.termID);
      var attributes := Attributes(OrderedMap.Keys(v.entries));
      0 <= col < |attributes| && attributes[col] == "@ATTRIBUTE " + term + " NUMERIC"
  {
    Vocabulary.GetTermID(v, term);
  }

  // ------------------------------------------------------------------- cells

  /** One `column value` pair of a sparse row. */
  function Cell<V>(e: (int, V), render: V -> string): string {
    IntToString(Column(e.0)) + " " + render(e.1)
  }

  /** What the fill loop stages for a row: every pair followed by a comma. */
  function Cells<V>(row: seq<(int, V)>, render: V -> string): (r: seq<string>)
    ensures |r| == |row|
    ensures forall i | 0 <= i < |row| :: r[i] == Cell(row[i], render) + ","
  {
    seq(|row|, i requires 0 <= i < |row| => Cell(row[i], render) + ",")
  }

  function DropLast(s: string): string {
    if |s| == 0 then s else s[..|s| - 1]
  }

  /** The pairs of a row separated by commas, with none after the last. */
  function CellsText<V>(row: seq<(int, V)>, render: V -> string): string {
    DropLast(Flatten(Cells(row, render)))
  }

  lemma DropLastAppend(a: string, b: string)
    requires 0 < |b|
    ensures DropLast(a + b) == a + DropLast(b)
  {
    assert (a + b)[..|a + b| - 1] == a + b[..|b| - 1];
  }

  /** Staged text followed by the rest of the cells is everything the outer loop started with. */
  lemma CellsStep(b: Buf, cells: seq<string>, c: Buf, rest: seq<string>)
    requires |rest| <= |cells| && rest == cells[|cells| - |rest|..]
    requires c == Buf(b.filled + Flatten(cells[..|cells| - |rest|]), b.written)
    ensures Output(Flush(c)) + Flatten(rest) == Output(b) + b.filled + Flatten(cells)
  {
    var r := Buf(Flatten(rest), Flush(c).written);
    assert Output(r) + r.filled == Output(Flush(c)) + "" + Flatten(rest);
    WriteEntriesStep(b, cells, c, rest, r);
  }

  /** Writing the last chunk without its final char writes everything staged but that char. */
  lemma LastChunk(b: Buf, cells: seq<string>, c: Buf)
    requires c == Buf(b.filled + Flatten(cells[..|cells|]), b.written) && 0 < |c.filled|
    ensures Output(Flush(c.(filled := DropLast(c.filled)))) == DropLast(Output(b) + b.filled + Flatten(cells))
  {
    assert cells[..|cells|] == cells;
    FlattenSnoc(c.written, DropLast(c.filled));
    DropLastAppend(Output(b), c.filled);
    ConcatAssoc(Output(b), b.filled, Flatten(cells));
  }

  /**
   * The term loop of `writeNextPart`: fills and writes chunks like the block
   * writers, and before writing the chunk that holds the last pair takes back
   * its trailing comma. Taking back a char of an empty chunk makes the write
   * fail.
   */
  function WriteCells(b: Buf, cells: seq<string>): (r: Result<Buf>)
    ensures r.Success? && |cells| > 0 ==> r.value.filled == ""
    ensures |cells| == 0 ==> r == Success(b)
    decreases |cells|, |b.filled|
  {
    if |cells| == 0 then Success(b)
    else
      match FillChunk(b, cells, MATRIX_LIMIT)
      case Failure(e) => Failure(e)
      case Success(c) =>
        if |c.1| == 0 then
          if |c.0.filled| == 0 then Failure(IndexOutOfBounds)
          else Success(Flush(c.0.(filled := DropLast(c.0.filled))))
        else WriteCells(Flush(c.0), c.1)
  }

  /** One round of the term loop: the step `WriteCells` takes after filling the chunk `c`. */
  lemma WriteCellsUnfold(b: Buf, cells: seq<string>, c: (Buf, seq<string>))
    requires 0 < |cells| && FillChunk(b, cells, MATRIX_LIMIT) == Success(c)
    ensures |c.1| == 0 && 0 < |c.0.filled| ==> WriteCells(b, cells) == Success(Flush(c.0.(filled := DropLast(c.0.filled))))
    ensures |c.1| != 0 ==> WriteCells(b, cells) == WriteCells(Flush(c.0), c.1)
  {
  }

  lemma EmptyMiddle(x: string, y: string)
    ensures x + "" + y == x + y
  {
  }

  /** A successful term loop writes every staged and every filled char except the final comma. */
  lemma {:induction false} WriteCellsText(b: Buf, cells: seq<string>)
    requires 0 < |cells| && WriteCells(b, cells).Success?
    ensures Output(WriteCells(b, cells).value) == DropLast(Output(b) + b.filled + Flatten(cells))
    decreases |cells|, |b.filled|
  {
    var c := FillChunk(b, cells, MATRIX_LIMIT).value;
    WriteCellsUnfold(b, cells, c);
    if |c.1| == 0 {
      LastChunk(b, cells, c.0);
    } else {
      WriteCellsText(Flush(c.0), c.1);
      EmptyMiddle(Output(Flush(c.0)), Flatten(c.1));
      CellsStep(b, cells, c.0, c.1);
    }
  }

  /** With non-empty cells that fit the room the fill loop leaves, the term loop never fails. */
  lemma {:induction false} WriteCellsFits(b: Buf, cells: seq<string>)
    requires |b.filled| <= BUFFER_SIZE && FitsAfter(cells, MATRIX_LIMIT)
    requires forall i | 0 <= i < |cells| :: 0 < |cells[i]|
    ensures WriteCells(b, cells).Success?
    decreases |cells|, |b.filled|
  {
    if |cells| > 0 {
      var c := FillChunk(b, cells, MATRIX_LIMIT).value;
      var k := |cells| - |c.1|;
      if |c.1| == 0 {
        assert cells[..k] == cells[..k - 1] + [cells[k - 1]];
        FlattenSnoc(cells[..k - 1], cells[k - 1]);
      } else {
        assert FitsAfter(c.1, MATRIX_LIMIT) && forall i | 0 <= i < |c.1| :: 0 < |c.1[i]| by {
          forall i | 0 <= i < |c.1| ensures |c.1[i]| + MATRIX_LIMIT <= BUFFER_SIZE + 1 && 0 < |c.1[i]| {
            assert c.1[i] == cells[k + i];
          }
        }
        WriteCellsFits(Flush(c.0), c.1);
      }
    }
  }

  // ----------------------------------------------------------------- records

  /** The writer between parts: the staging array and `lastActiveDocument`, -1 before the first record. */
  datatype Writer = Writer(buf: Buf, lastActive: int)

  /** What the records are completed with: each document's class and name, and the text of a value. */
  datatype Setup<!V> = Setup(documents: seq<(int, Document)>, render: V -> string)

  /**
   * When a new record first closes the one before it. As written, the test is
   * whether the document is other than the first of its part; the evidently
   * intended test is whether a record is open at all.
   */
  datatype Closing = AsWritten | Intended

  predicate ClosesPrevious(lastActive: int, d: int, first: int, closing: Closing) {
    match closing
    case AsWritten => d != first
    case Intended => lastActive != -1
  }

  function CloseText(lastActive: int, d: int, first: int, closing: Closing): string {
    if ClosesPrevious(lastActive, d, first, closing) then "}\n" else ""
  }

  /** The start of a record: the docID, class and name attributes, each followed by a comma. */
  function RecordHead(d: int, doc: Document): string {
    HeadLead(d) + HeadTail(doc)
  }

  /** The chars of a record head staged before the document is looked up. */
  function HeadLead(d: int): string {
    "{0 " + IntToString(d) + ",1 "
  }

  function HeadTail(doc: Document): string {
    doc.category + ",2 " + doc.name + ","
  }

  /** `documents.get(key)` followed by a field access: a missing document is a null pointer. */
  function Lookup(documents: seq<(int, Document)>, d: int): (r: Result<Document>)
    ensures r.Success? <==> OrderedMap.HasKey(documents, d)
    ensures r.Success? ==> OrderedMap.Get(documents, d) == Some(r.value)
  {
    match OrderedMap.Get(documents, d)
    case None => Failure(NullPointer)
    case Some(doc) => Success(doc)
  }

  /**
   * A new document: the previous record is closed where the rule says so,
   * then the head of the new record is staged. The chars up to the class are
   * staged before the document is looked up.
   */
  function OpenRecord<V>(w: Writer, d: int, first: int, s: Setup<V>, closing: Closing): (r: Result<Buf>)
    ensures r.Success? <==>
      && OrderedMap.HasKey(s.documents, d)
      && |w.buf.filled| + |CloseText(w.lastActive, d, first, closing)| + |RecordHead(d, OrderedMap.Get(s.documents, d).value)| <= BUFFER_SIZE
    ensures r.Success? ==>
      r.value == Buf(w.buf.filled + CloseText(w.lastActive, d, first, closing) + RecordHead(d, OrderedMap.Get(s.documents, d).value), w.buf.written)
  {
    var close := CloseText(w.lastActive, d, first, closing);
    var b1 :- Stage(w.buf, close + HeadLead(d));
    var doc :- Lookup(s.documents, d);
    ConcatAssoc(w.buf.filled, close, HeadLead(d));
    ConcatAssoc(w.buf.filled + close, HeadLead(d), HeadTail(doc));
    Stage(b1, HeadTail(doc))
  }

  /** A continued record gets a separating comma unless the staged chars already end with one. */
  function Stitch(b: Buf): (r: Result<Buf>)
    ensures r.Success? ==> r.value.written == b.written && 0 < |r.value.filled| && r.value.filled[|r.value.filled| - 1] == ','
    ensures r.Success? ==> r.value.filled == b.filled || r.value.filled == b.filled + ","
    ensures r.Success? <==> |b.filled| < BUFFER_SIZE || b.filled[|b.filled| - 1] == ','
  {
    if |b.filled| == 0 || b.filled[|b.filled| - 1] != ',' then Stage(b, ",") else Success(b)
  }

  /**
   * One document term list of a part: a document other than the active one
   * opens a record, the active one is stitched onto its open record, and then
   * the cells are written. The document becomes the active one.
   */
  function WriteTermList<V>(w: Writer, d: int, row: seq<(int, V)>, first: int, s: Setup<V>, closing: Closing): (r: Result<Writer>)
    ensures r.Success? ==> r.value.lastActive == d
    ensures r.Success? && |row| > 0 ==> r.value.buf.filled == ""
  {
    var b1 :- if d != w.lastActive then OpenRecord(w, d, first, s, closing) else Stitch(w.buf);
    var b2 :- WriteCells(b1, Cells(row, s.render));
    Success(Writer(b2, d))
  }

  function WriteTermLists<V>(w: Writer, rows: seq<(int, seq<(int, V)>)>, first: int, s: Setup<V>, closing: Closing): (r: Result<Writer>)
    ensures |rows| == 0 ==> r == Success(w)
    ensures r.Success? && 0 < |rows| ==> r.value.lastActive == rows[|rows| - 1].0
    decreases |rows|
  {
    if |rows| == 0 then Success(w)
    else
      var w1 :- WriteTermList(w, rows[0].0, rows[0].1, first, s, closing);
      WriteTermLists(w1, rows[1..], first, s, closing)
  }

  /**
   * `writeNextPart`: the first document of the part is read before anything
   * is staged, so an empty part fails; afterwards the last document written
   * is the active one.
   */
  function WriteNextPart<V>(w: Writer, part: seq<(int, seq<(int, V)>)>, s: Setup<V>, closing: Closing): (r: Result<Writer>)
    ensures |part| == 0 ==> r == Failure(NoSuchElement)
    ensures r.Success? ==> 0 < |part| && r.value.lastActive == part[|part| - 1].0
  {
    if |part| == 0 then Failure(NoSuchElement)
    else WriteTermLists(w, part, part[0].0, s, closing)
  }

  function WriteParts<V>(w: Writer, parts: seq<seq<(int, seq<(int, V)>)>>, s: Setup<V>, closing: Closing): Result<Writer>
    decreases |parts|
  {
    if |parts| == 0 then Success(w)
    else
      var w1 :- WriteNextPart(w, parts[0], s, closing);
      WriteParts(w1, parts[1..], s, closing)
  }

  /** The writer after the constructor and `init`: the header is written and no record is active. */
  function Init(terms: seq<string>): Writer {
    Writer(Buf("", [Header(terms)]), -1)
  }

  /** `close`: one brace goes straight to the stream; chars still staged are never written. */
  function Close(w: Writer): string {
    Output(w.buf) + "}"
  }

  lemma InitOutput(terms: seq<string>)
    ensures Output(Init(terms).buf) == Header(terms)
  {
    var ws := [Header(terms)];
    assert ws[1..] == [];
    assert Flatten(ws) == ws[0] + Flatten(ws[1..]);
  }

  /** The whole file: the header, every part in turn, then the closing brace. */
  function WriteFile<V>(terms: seq<string>, parts: seq<seq<(int, seq<(int, V)>)>>, s: Setup<V>, closing: Closing): Result<string> {
    var w :- WriteParts(Init(terms), parts, s, closing);
    Success(Close(w))
  }

  /** A term list without cells writes nothing: its record head or comma stays staged. */
  lemma EmptyTermListStaged<V>(w: Writer, d: int, first: int, s: Setup<V>, closing: Closing)
    requires WriteTermList(w, d, [], first, s, closing).Success?
    ensures var r := WriteTermList(w, d, [], first, s, closing).value;
      r.buf.written == w.buf.written
  {
  }

  // ------------------------------------------------------------- part splits

  /** The intended rule never looks at the first document of the part. */
  lemma {:induction false} IntendedIgnoresFirst<V>(w: Writer, rows: seq<(int, seq<(int, V)>)>, f1: int, f2: int, s: Setup<V>)
    ensures WriteTermLists(w, rows, f1, s, Intended) == WriteTermLists(w, rows, f2, s, Intended)
    decreases |rows|
  {
    if |rows| > 0 {
      assert CloseText(w.lastActive, rows[0].0, f1, Intended) == CloseText(w.lastActive, rows[0].0, f2, Intended);
      assert WriteTermList(w, rows[0].0, rows[0].1, f1, s, Intended) == WriteTermList(w, rows[0].0, rows[0].1, f2, s, Intended);
      match WriteTermList(w, rows[0].0, rows[0].1, f1, s, Intended)
      case Failure(_) =>
      case Success(w1) => IntendedIgnoresFirst(w1, rows[1..], f1, f2, s);
    }
  }

  /** Writing two runs of term lists one after the other is writing their concatenation. */
  lemma {:induction false} WriteTermListsAppend<V>(w: Writer, a: seq<(int, seq<(int, V)>)>, b: seq<(int, seq<(int, V)>)>, first: int, s: Setup<V>, closing: Closing)
    ensures WriteTermLists(w, a + b, first, s, closing) ==
      match WriteTermLists(w, a, first, s, closing)
      case Failure(e) => Failure(e)
      case Success(w1) => WriteTermLists(w1, b, first, s, closing)
    decreases |a|
  {
    if |a| == 0 {
      assert a + b == b;
    } else {
      assert (a + b)[0] == a[0] && (a + b)[1..] == a[1..] + b;
      match WriteTermList(w, a[0].0, a[0].1, first, s, closing)
      case Failure(_) =>
      case Success(w1) => WriteTermListsAppend(w1, a[1..], b, first, s, closing);
    }
  }

  function Concat<T>(parts: seq<seq<T>>): seq<T>
    decreases |parts|
  {
    if |parts| == 0 then [] else parts[0] + Concat(parts[1..])
  }

  /**
   * Under the intended rule the cut of the matrix into non-empty parts plays
   * no role: writing the parts one by one, failures included, is writing all
   * their term lists as one part.
   */
  lemma {:induction false} PartsDoNotMatter<V>(w: Writer, parts: seq<seq<(int, seq<(int, V)>)>>, first: int, s: Setup<V>)
    requires forall i | 0 <= i < |parts| :: 0 < |parts[i]|
    ensures WriteParts(w, parts, s, Intended) == WriteTermLists(w, Concat(parts), first, s, Intended)
    decreases |parts|
  {
    if |parts| > 0 {
      WriteTermListsAppend(w, parts[0], Concat(parts[1..]), first, s, Intended);
      IntendedIgnoresFirst(w, parts[0], parts[0][0].0, first, s);
      match WriteTermLists(w, parts[0], first, s, Intended)
      case Failure(_) =>
      case Success(w1) =>
        assert forall i | 0 <= i < |parts[1..]| :: 0 < |parts[1..][i]| by {
          forall i | 0 <= i < |parts[1..]| ensures 0 < |parts[1..][i]| {
            assert parts[1..][i] == parts[i + 1];
          }
        }
        PartsDoNotMatter(w1, parts[1..], first, s);
    }
  }

  // -------------------------------------------------------------------- text

  /** The head of document `d`'s record, or nothing for a document that is not known. */
  function Head<V>(s: Setup<V>, d: int): string {
    match OrderedMap.Get(s.documents, d)
    case Some(doc) => RecordHead(d, doc)
    case None => ""
  }

  /** A term list that has cells, a known document, and a head and cells that fit the array. */
  predicate RowFits<V>(s: Setup<V>, d: int, row: seq<(int, V)>) {
    && 0 < |row|
    && OrderedMap.HasKey(s.documents, d)
    && 2 + |Head(s, d)| <= BUFFER_SIZE
    && FitsAfter(Cells(row, s.render), MATRIX_LIMIT)
  }

  predicate RowsFit<V>(s: Setup<V>, rows: seq<(int, seq<(int, V)>)>) {
    forall i | 0 <= i < |rows| :: RowFits(s, rows[i].0, rows[i].1)
  }

  /** What a term list with cells adds to the file: a comma where its record continues, else the head of a new record. */
  function ListText<V>(lastActive: int, d: int, row: seq<(int, V)>, first: int, s: Setup<V>, closing: Closing): string {
    (if d == lastActive then "," else CloseText(lastActive, d, first, closing) + Head(s, d)) + CellsText(row, s.render)
  }

  function PartText<V>(rows: seq<(int, seq<(int, V)>)>, lastActive: int, first: int, s: Setup<V>, closing: Closing): string
    decreases |rows|
  {
    if |rows| == 0 then ""
    else ListText(lastActive, rows[0].0, rows[0].1, first, s, closing) + PartText(rows[1..], rows[0].0, first, s, closing)
  }

  /** The parts in turn, each read against its own first document. */
  function PartsText<V>(parts: seq<seq<(int, seq<(int, V)>)>>, lastActive: int, s: Setup<V>, closing: Closing): string
    decreases |parts|
  {
    if |parts| == 0 || |parts[0]| == 0 then ""
    else
      PartText(parts[0], lastActive, parts[0][0].0, s, closing)
      + PartsText(parts[1..], parts[0][|parts[0]| - 1].0, s, closing)
  }

  /** Non-empty cells have a non-empty text. */
  lemma FlattenCells<V>(row: seq<(int, V)>, render: V -> string)
    requires 0 < |row|
    ensures 0 < |Flatten(Cells(row, render))|
  {
    var cells := Cells(row, render);
    assert Flatten(cells) == cells[0] + Flatten(cells[1..]);
  }

  /** The chars in front of a term list's cells, once it is staged into an empty array. */
  function Lead<V>(w: Writer, d: int, first: int, s: Setup<V>, closing: Closing): string {
    if d == w.lastActive then "," else CloseText(w.lastActive, d, first, closing) + Head(s, d)
  }

  lemma LeadStaged<V>(w: Writer, d: int, first: int, s: Setup<V>, closing: Closing)
    requires w.buf.filled == "" && OrderedMap.HasKey(s.documents, d) && 2 + |Head(s, d)| <= BUFFER_SIZE
    ensures (if d != w.lastActive then OpenRecord(w, d, first, s, closing) else Stitch(w.buf))
      == Success(Buf(Lead(w, d, first, s, closing), w.buf.written))
  {
    if d != w.lastActive {
      var close := CloseText(w.lastActive, d, first, closing);
      assert Head(s, d) == RecordHead(d, OrderedMap.Get(s.documents, d).value);
      assert "" + close + Head(s, d) == close + Head(s, d);
    } else {
      assert "" + "," == ",";
    }
  }

  /** Once the lead is staged, a term list writes what its cells write. */
  lemma WriteTermListIs<V>(w: Writer, d: int, row: seq<(int, V)>, first: int, s: Setup<V>, closing: Closing, b2: Buf)
    requires w.buf.filled == "" && OrderedMap.HasKey(s.documents, d) && 2 + |Head(s, d)| <= BUFFER_SIZE
    requires WriteCells(Buf(Lead(w, d, first, s, closing), w.buf.written), Cells(row, s.render)) == Success(b2)
    ensures WriteTermList(w, d, row, first, s, closing) == Success(Writer(b2, d))
  {
    LeadStaged(w, d, first, s, closing);
  }

  /** A term list that fits, written from an empty array, writes its text and leaves the array empty. */
  lemma WriteTermListText<V>(w: Writer, d: int, row: seq<(int, V)>, first: int, s: Setup<V>, closing: Closing)
    requires w.buf.filled == "" && RowFits(s, d, row)
    ensures WriteTermList(w, d, row, first, s, closing).Success?
    ensures var r := WriteTermList(w, d, row, first, s, closing).value;
      r.buf.filled == "" && Output(r.buf) == Output(w.buf) + ListText(w.lastActive, d, row, first, s, closing)
  {
    var cells := Cells(row, s.render);
    var lead := Lead(w, d, first, s, closing);
    var b1 := Buf(lead, w.buf.written);
    assert forall i | 0 <= i < |cells| :: 0 < |cells[i]|;
    WriteCellsFits(b1, cells);
    var b2 := WriteCells(b1, cells).value;
    assert b2.filled == "" && Output(b2) == Output(w.buf) + ListText(w.lastActive, d, row, first, s, closing) by {
      WriteCellsText(b1, cells);
      FlattenCells(row, s.render);
      DropLastAppend(Output(w.buf) + lead, Flatten(cells));
      ConcatAssoc(Output(w.buf), lead, CellsText(row, s.render));
    }
    WriteTermListIs(w, d, row, first, s, closing, b2);
  }

  /** A part whose term lists fit, written from an empty array, writes its text and leaves the array empty. */
  lemma {:induction false} WriteTermListsText<V>(w: Writer, rows: seq<(int, seq<(int, V)>)>, first: int, s: Setup<V>, closing: Closing)
    requires w.buf.filled == "" && RowsFit(s, rows)
    ensures WriteTermLists(w, rows, first, s, closing).Success?
    ensures var r := WriteTermLists(w, rows, first, s, closing).value;
      r.buf.filled == "" && Output(r.buf) == Output(w.buf) + PartText(rows, w.lastActive, first, s, closing)
    decreases |rows|
  {
    if |rows| > 0 {
      WriteTermListText(w, rows[0].0, rows[0].1, first, s, closing);
      var w1 := WriteTermList(w, rows[0].0, rows[0].1, first, s, closing).value;
      assert RowsFit(s, rows[1..]) by {
        forall i | 0 <= i < |rows[1..]| ensures RowFits(s, rows[1..][i].0, rows[1..][i].1) {
          assert rows[1..][i] == rows[i + 1];
        }
      }
      WriteTermListsText(w1, rows[1..], first, s, closing);
      ConcatAssoc(Output(w.buf), ListText(w.lastActive, rows[0].0, rows[0].1, first, s, closing), PartText(rows[1..], rows[0].0, first, s, closing));
    }
  }

  predicate PartsFit<V>(s: Setup<V>, parts: seq<seq<(int, seq<(int, V)>)>>) {
    forall i | 0 <= i < |parts| :: 0 < |parts[i]| && RowsFit(s, parts[i])
  }

  /** Parts that fit, written from an empty array, write their texts in turn. */
  lemma {:induction false} WritePartsText<V>(w: Writer, parts: seq<seq<(int, seq<(int, V)>)>>, s: Setup<V>, closing: Closing)
    requires w.buf.filled == "" && PartsFit(s, parts)
    ensures WriteParts(w, parts, s, closing).Success?
    ensures var r := WriteParts(w, parts, s, closing).value;
      r.buf.filled == "" && Output(r.buf) == Output(w.buf) + PartsText(parts, w.lastActive, s, closing)
    decreases |parts|
  {
    if |parts| > 0 {
      var p := parts[0];
      var text := PartText(p, w.lastActive, p[0].0, s, closing);
      var rest := PartsText(parts[1..], p[|p| - 1].0, s, closing);
      assert WriteNextPart(w, p, s, closing).Success? by {
        WriteTermListsText(w, p, p[0].0, s, closing);
      }
      var w1 := WriteNextPart(w, p, s, closing).value;
      assert w1.buf.filled == "" && Output(w1.buf) == Output(w.buf) + text by {
        WriteTermListsText(w, p, p[0].0, s, closing);
      }
      assert PartsFit(s, parts[1..]) by {
        forall i | 0 <= i < |parts[1..]| ensures 0 < |parts[1..][i]| && RowsFit(s, parts[1..][i]) {
          assert parts[1..][i] == parts[i + 1];
        }
      }
      assert WriteParts(w, parts, s, closing) == WriteParts(w1, parts[1..], s, closing);
      assert PartsText(parts, w.lastActive, s, closing) == text + rest;
      WritePartsText(w1, parts[1..], s, closing);
      ConcatAssoc(Output(w.buf), text, rest);
    }
  }

  /**
   * The file of parts that fit: the header, the text of each part read
   * against its first document, and the closing brace.
   */
  lemma WriteFileText<V>(terms: seq<string>, parts: seq<seq<(int, seq<(int, V)>)>>, s: Setup<V>, closing: Closing)
    requires PartsFit(s, parts)
    ensures WriteFile(terms, parts, s, closing) == Success(Header(terms) + PartsText(parts, -1, s, closing) + "}")
  {
    WritePartsText(Init(terms), parts, s, closing);
    InitOutput(terms);
  }

  /**
   * Under the intended rule the file depends only on the term lists in order:
   * the header, the text of all lists as one part, and the closing brace.
   */
  lemma IntendedFileText<V>(terms: seq<string>, parts: seq<seq<(int, seq<(int, V)>)>>, first: int, s: Setup<V>)
    requires forall i | 0 <= i < |parts| :: 0 < |parts[i]|
    requires RowsFit(s, Concat(parts))
    ensures WriteFile(terms, parts, s, Intended) == Success(Header(terms) + PartText(Concat(parts), -1, first, s, Intended) + "}")
  {
    PartsDoNotMatter(Init(terms), parts, first, s);
    WriteTermListsText(Init(terms), Concat(parts), first, s, Intended);
    InitOutput(terms);
  }

  lemma FileOfText<V>(terms: seq<string>, parts: seq<seq<(int, seq<(int, V)>)>>, s: Setup<V>, closing: Closing, t: string)
    requires PartsFit(s, parts) && PartsText(parts, -1, s, closing) == t
    ensures WriteFile(terms, parts, s, closing) == Success(Header(terms) + t + "}")
  {
    WriteFileText(terms, parts, s, closing);
  }

  lemma IntendedFileOf<V>(terms: seq<string>, parts: seq<seq<(int, seq<(int, V)>)>>, rows: seq<(int, seq<(int, V)>)>, s: Setup<V>, t: string)
    requires forall i | 0 <= i < |parts| :: 0 < |parts[i]|
    requires Concat(parts) == rows && RowsFit(s, rows) && PartText(rows, -1, 0, s, Intended) == t
    ensures WriteFile(terms, parts, s, Intended) == Success(Header(terms) + t + "}")
  {
    IntendedFileText(terms, parts, 0, s);
  }

  // ----------------------------------------------------------------- records

  /** A document's line of the data section: its record head, its cells and the closing brace. */
  function RecordLine<V>(s: Setup<V>, d: int, row: seq<(int, V)>): string {
    Head(s, d) + CellsText(row, s.render) + "}"
  }

  function RecordLines<V>(s: Setup<V>, rows: seq<(int, seq<(int, V)>)>): (r: seq<string>)
    ensures |r| == |rows|
    ensures forall i | 0 <= i < |rows| :: r[i] == RecordLine(s, rows[i].0, rows[i].1)
  {
    seq(|rows|, i requires 0 <= i < |rows| => RecordLine(s, rows[i].0, rows[i].1))
  }

  /**
   * No two neighbouring term lists belong to the same document, and no
   * document has the id -1 that stands for "no record yet".
   */
  predicate Separate<V>(rows: seq<(int, seq<(int, V)>)>) {
    && (forall i | 0 < i < |rows| :: rows[i - 1].0 != rows[i].0)
    && (forall i | 0 <= i < |rows| :: rows[i].0 != -1)
  }

  lemma SeparateTail<V>(rows: seq<(int, seq<(int, V)>)>)
    requires 0 < |rows| && Separate(rows)
    ensures Separate(rows[1..]) && rows[0].0 != -1 && (1 < |rows| ==> rows[1..][0].0 != rows[0].0)
  {
    forall i | 0 < i < |rows[1..]| ensures rows[1..][i - 1].0 != rows[1..][i].0 {
      assert rows[1..][i - 1] == rows[i] && rows[1..][i] == rows[i + 1];
    }
    forall i | 0 <= i < |rows[1..]| ensures rows[1..][i].0 != -1 {
      assert rows[1..][i] == rows[i + 1];
    }
  }

  lemma BreakAfterBrace(x: string, tail: string)
    ensures "}\n" + x + "}" + tail == "}" + ("\n" + (x + "}" + tail))
  {
    var y := x + "}" + tail;
    calc {
      "}\n" + x + "}" + tail;
      { ConcatAssoc("}\n" + x, "}", tail); }
      "}\n" + x + ("}" + tail);
      { ConcatAssoc("}\n", x, "}" + tail); }
      "}\n" + (x + ("}" + tail));
      { ConcatAssoc(x, "}", tail); }
      "}\n" + y;
      { assert "}\n" == "}" + "\n"; ConcatAssoc("}", "\n", y); }
      "}" + ("\n" + y);
    }
  }

  /** Moving the closing brace of the rest in front of what follows it. */
  lemma ShiftBrace(x: string, rest: string, tail: string)
    requires rest + "}" == "}" + tail
    ensures x + rest + "}" == x + "}" + tail
  {
    calc {
      x + rest + "}";
      x + (rest + "}");
      x + ("}" + tail);
      x + "}" + tail;
    }
  }

  lemma RecordLinesTail<V>(s: Setup<V>, rows: seq<(int, seq<(int, V)>)>)
    requires 0 < |rows|
    ensures RecordLines(s, rows)[1..] == RecordLines(s, rows[1..])
  {
  }

  /** The join of at least two lines: the first, a line break, and the join of the rest. */
  lemma JoinCons(lines: seq<string>)
    requires 1 < |lines|
    ensures BlockFormat.Join(lines) == lines[0] + "\n" + BlockFormat.Join(lines[1..])
  {
  }

  /** The step of `ClosedRecords`, over the strings alone. */
  lemma ClosedStep(text: string, h: string, c: string, rest: string, tail: string, joined: string)
    requires rest + "}" == "}" + tail
    requires text == "}\n" + h + c + rest && joined == h + c + "}" + tail
    ensures text + "}" == "}" + ("\n" + joined)
  {
    ShiftBrace("}\n" + h + c, rest, tail);
    BreakAfterBrace(h + c, tail);
  }

  /** The step of `RecordsJoin`, over the strings alone. */
  lemma OpenStep(text: string, h: string, c: string, rest: string, tail: string, joined: string)
    requires rest + "}" == "}" + tail
    requires text == h + c + rest && joined == h + c + "}" + tail
    ensures text + "}" == joined
  {
    ShiftBrace(h + c, rest, tail);
  }

  /** The join of a document's line in front of the lines after it. */
  lemma JoinFirst<V>(s: Setup<V>, rows: seq<(int, seq<(int, V)>)>)
    requires 0 < |rows|
    ensures var lines := RecordLines(s, rows);
      BlockFormat.Join(lines)
      == Head(s, rows[0].0) + CellsText(rows[0].1, s.render) + "}"
        + (if |rows| == 1 then "" else "\n" + BlockFormat.Join(RecordLines(s, rows[1..])))
  {
    var lines := RecordLines(s, rows);
    RecordLinesTail(s, rows);
    if 1 < |rows| {
      JoinCons(lines);
    }
  }

  /** After an open record, each further record closes the one before it on its own line. */
  lemma {:induction false} ClosedRecords<V>(rows: seq<(int, seq<(int, V)>)>, lastActive: int, first: int, s: Setup<V>)
    requires lastActive != -1 && Separate(rows) && (0 < |rows| ==> rows[0].0 != lastActive)
    ensures PartText(rows, lastActive, first, s, Intended) + "}"
      == "}" + (if |rows| == 0 then "" else "\n" + BlockFormat.Join(RecordLines(s, rows)))
    decreases |rows|
  {
    if |rows| > 0 {
      var d := rows[0].0;
      var h, c := Head(s, d), CellsText(rows[0].1, s.render);
      var rest := PartText(rows[1..], d, first, s, Intended);
      var tail := if |rows| == 1 then "" else "\n" + BlockFormat.Join(RecordLines(s, rows[1..]));
      assert rest + "}" == "}" + tail by {
        SeparateTail(rows);
        ClosedRecords(rows[1..], d, first, s);
      }
      assert PartText(rows, lastActive, first, s, Intended) == "}\n" + h + c + rest;
      JoinFirst(s, rows);
      ClosedStep(PartText(rows, lastActive, first, s, Intended), h, c, rest, tail, BlockFormat.Join(RecordLines(s, rows)));
    }
  }

  /**
   * Under the intended rule, term lists of distinct neighbouring documents
   * make a data section of one braced record per line, and the closing brace
   * of the file ends the last one.
   */
  lemma RecordsJoin<V>(rows: seq<(int, seq<(int, V)>)>, first: int, s: Setup<V>)
    requires 0 < |rows| && Separate(rows)
    ensures PartText(rows, -1, first, s, Intended) + "}" == BlockFormat.Join(RecordLines(s, rows))
  {
    var d := rows[0].0;
    var h, c := Head(s, d), CellsText(rows[0].1, s.render);
    var rest := PartText(rows[1..], d, first, s, Intended);
    var tail := if |rows| == 1 then "" else "\n" + BlockFormat.Join(RecordLines(s, rows[1..]));
    SeparateTail(rows);
    assert rest + "}" == "}" + tail by {
      ClosedRecords(rows[1..], d, first, s);
    }
    assert PartText(rows, -1, first, s, Intended) == h + c + rest by {
      assert "" + h == h;
    }
    JoinFirst(s, rows);
    OpenStep(PartText(rows, -1, first, s, Intended), h, c, rest, tail, BlockFormat.Join(RecordLines(s, rows)));
  }

  // --------------------------------------------------------------- stitching

  /** The fill loop's text of a non-empty row is its cells text and the comma taken back. */
  lemma FlattenCellsComma<V>(row: seq<(int, V)>, render: V -> string)
    requires 0 < |row|
    ensures Flatten(Cells(row, render)) == CellsText(row, render) + ","
  {
    var n := |row| - 1;
    var x := Flatten(Cells(row[..n], render)) + Cell(row[n], render);
    assert Cells(row, render) == Cells(row[..n], render) + [Cell(row[n], render) + ","];
    FlattenSnoc(Cells(row[..n], render), Cell(row[n], render) + ",");
    ConcatAssoc(Flatten(Cells(row[..n], render)), Cell(row[n], render), ",");
    assert (x + ",")[..|x + ","| - 1] == x;
  }

  /** The cells of two non-empty rows joined by one comma are the cells of the joined row. */
  lemma CellsTextAppend<V>(r1: seq<(int, V)>, r2: seq<(int, V)>, render: V -> string)
    requires 0 < |r1| && 0 < |r2|
    ensures CellsText(r1 + r2, render) == CellsText(r1, render) + "," + CellsText(r2, render)
  {
    assert Cells(r1 + r2, render) == Cells(r1, render) + Cells(r2, render);
    FlattenAppend(Cells(r1, render), Cells(r2, render));
    FlattenCells(r2, render);
    DropLastAppend(Flatten(Cells(r1, render)), Flatten(Cells(r2, render)));
    FlattenCellsComma(r1, render);
  }

  /** The text of two runs of term lists one after the other. */
  lemma {:induction false} PartTextAppend<V>(a: seq<(int, seq<(int, V)>)>, b: seq<(int, seq<(int, V)>)>, lastActive: int, first: int, s: Setup<V>, closing: Closing)
    ensures PartText(a + b, lastActive, first, s, closing)
      == PartText(a, lastActive, first, s, closing) + PartText(b, if |a| == 0 then lastActive else a[|a| - 1].0, first, s, closing)
    decreases |a|
  {
    if |a| == 0 {
      assert a + b == b;
    } else {
      assert (a + b)[0] == a[0] && (a + b)[1..] == a[1..] + b;
      PartTextAppend(a[1..], b, a[0].0, first, s, closing);
      ConcatAssoc(ListText(lastActive, a[0].0, a[0].1, first, s, closing),
        PartText(a[1..], a[0].0, first, s, closing),
        PartText(b, if |a| == 1 then a[0].0 else a[|a| - 1].0, first, s, closing));
    }
  }

  lemma MergeStep(x: string, y: string, lead: string, c1: string, c2: string, c12: string, tail: string)
    requires x == lead + c1 + (("," + c2) + tail) && y == lead + c12 + tail && c12 == c1 + "," + c2
    ensures x == y
  {
    calc {
      x;
      lead + (c1 + (("," + c2) + tail));
      lead + ((c1 + ("," + c2)) + tail);
      lead + (c1 + "," + c2 + tail);
      y;
    }
  }

  /** Two neighbouring term lists of one document read as the one list they make together. */
  lemma StitchedMerge<V>(d: int, r1: seq<(int, V)>, r2: seq<(int, V)>, b: seq<(int, seq<(int, V)>)>, lastActive: int, first: int, s: Setup<V>, closing: Closing)
    requires 0 < |r1| && 0 < |r2|
    ensures PartText([(d, r1), (d, r2)] + b, lastActive, first, s, closing) == PartText([(d, r1 + r2)] + b, lastActive, first, s, closing)
  {
    var lead := if d == lastActive then "," else CloseText(lastActive, d, first, closing) + Head(s, d);
    var c1, c2, c12 := CellsText(r1, s.render), CellsText(r2, s.render), CellsText(r1 + r2, s.render);
    var tail := PartText(b, d, first, s, closing);
    var split, merged := [(d, r1), (d, r2)] + b, [(d, r1 + r2)] + b;
    assert PartText(split, lastActive, first, s, closing) == lead + c1 + (("," + c2) + tail) by {
      assert split[0] == (d, r1) && split[1..] == [(d, r2)] + b;
      assert split[1..][0] == (d, r2) && split[1..][1..] == b;
    }
    assert PartText(merged, lastActive, first, s, closing) == lead + c12 + tail by {
      assert merged[0] == (d, r1 + r2) && merged[1..] == b;
    }
    CellsTextAppend(r1, r2, s.render);
    MergeStep(PartText(split, lastActive, first, s, closing), PartText(merged, lastActive, first, s, closing), lead, c1, c2, c12, tail);
  }

  lemma RowFitsMerged<V>(s: Setup<V>, d: int, r1: seq<(int, V)>, r2: seq<(int, V)>)
    requires RowFits(s, d, r1) && RowFits(s, d, r2)
    ensures RowFits(s, d, r1 + r2)
  {
    var c1, c2 := Cells(r1, s.render), Cells(r2, s.render);
    assert Cells(r1 + r2, s.render) == c1 + c2;
    forall i | 0 <= i < |c1 + c2| ensures |(c1 + c2)[i]| + MATRIX_LIMIT <= BUFFER_SIZE + 1 {
      if i < |c1| { assert (c1 + c2)[i] == c1[i]; } else { assert (c1 + c2)[i] == c2[i - |c1|]; }
    }
  }

  lemma RowsFitMerged<V>(s: Setup<V>, p1: seq<(int, seq<(int, V)>)>, d: int, r1: seq<(int, V)>, r2: seq<(int, V)>, p2: seq<(int, seq<(int, V)>)>)
    requires RowsFit(s, p1 + ([(d, r1), (d, r2)] + p2))
    ensures RowsFit(s, p1 + ([(d, r1 + r2)] + p2))
  {
    var split := p1 + ([(d, r1), (d, r2)] + p2);
    var merged := p1 + ([(d, r1 + r2)] + p2);
    var n := |p1|;
    assert split[n] == (d, r1) && split[n + 1] == (d, r2);
    RowFitsMerged(s, d, r1, r2);
    forall i | 0 <= i < |merged| ensures RowFits(s, merged[i].0, merged[i].1) {
      if i < n {
        assert merged[i] == split[i];
      } else if n < i {
        assert merged[i] == split[i + 1];
      }
    }
  }

  lemma ConcatTwo<T>(a: seq<T>, b: seq<T>)
    ensures Concat([a, b]) == a + b
  {
    assert [a, b][1..] == [b] && [b][1..] == [];
    assert Concat([b]) == b + Concat([b][1..]);
  }

  lemma ConcatOne<T>(a: seq<T>)
    ensures Concat([a]) == a
  {
    assert [a][1..] == [];
  }

  /** The split and the merged term lists make the same text after the same lists in front. */
  lemma StitchedText<V>(p1: seq<(int, seq<(int, V)>)>, d: int, r1: seq<(int, V)>, r2: seq<(int, V)>, p2: seq<(int, seq<(int, V)>)>, s: Setup<V>)
    requires 0 < |r1| && 0 < |r2|
    ensures PartText(p1 + ([(d, r1), (d, r2)] + p2), -1, 0, s, Intended) == PartText(p1 + ([(d, r1 + r2)] + p2), -1, 0, s, Intended)
  {
    var la := if |p1| == 0 then -1 else p1[|p1| - 1].0;
    PartTextAppend(p1, [(d, r1), (d, r2)] + p2, -1, 0, s, Intended);
    PartTextAppend(p1, [(d, r1 + r2)] + p2, -1, 0, s, Intended);
    StitchedMerge(d, r1, r2, p2, la, 0, s, Intended);
  }

  /**
   * Under the intended rule, a document whose term list is cut in two
   * neighbouring lists, by a part boundary or otherwise, is written exactly
   * as if its list had come whole: the second half is stitched onto the open
   * record with one comma.
   */
  lemma SplitDocumentStitched<V>(terms: seq<string>, split: seq<seq<(int, seq<(int, V)>)>>, whole: seq<seq<(int, seq<(int, V)>)>>,
                                 p1: seq<(int, seq<(int, V)>)>, d: int, r1: seq<(int, V)>, r2: seq<(int, V)>, p2: seq<(int, seq<(int, V)>)>, s: Setup<V>)
    requires forall i | 0 <= i < |split| :: 0 < |split[i]|
    requires forall i | 0 <= i < |whole| :: 0 < |whole[i]|
    requires Concat(split) == p1 + ([(d, r1), (d, r2)] + p2) && Concat(whole) == p1 + ([(d, r1 + r2)] + p2)
    requires RowsFit(s, Concat(split))
    ensures WriteFile(terms, split, s, Intended) == WriteFile(terms, whole, s, Intended)
  {
    var x := PartText(Concat(split), -1, 0, s, Intended);
    assert 0 < |r1| && 0 < |r2| by {
      var rows := Concat(split);
      assert rows[|p1|] == (d, r1) && rows[|p1| + 1] == (d, r2);
    }
    RowsFitMerged(s, p1, d, r1, r2, p2);
    StitchedText(p1, d, r1, r2, p2, s);
    IntendedFileOf(terms, split, Concat(split), s, x);
    IntendedFileOf(terms, whole, Concat(whole), s, x);
  }

  /** The case of a part boundary: the first half ends one part and the second half starts the next. */
  lemma PartBoundaryStitched<V>(p1: seq<(int, seq<(int, V)>)>, d: int, r1: seq<(int, V)>, r2: seq<(int, V)>, p2: seq<(int, seq<(int, V)>)>)
    ensures Concat([p1 + [(d, r1)], [(d, r2)] + p2]) == p1 + ([(d, r1), (d, r2)] + p2)
    ensures Concat([p1 + ([(d, r1 + r2)] + p2)]) == p1 + ([(d, r1 + r2)] + p2)
  {
    ConcatTwo(p1 + [(d, r1)], [(d, r2)] + p2);
    ConcatOne(p1 + ([(d, r1 + r2)] + p2));
  }

  // ------------------------------------------------------------------ finding

  lemma PartTextOne<V>(d: int, row: seq<(int, V)>, lastActive: int, first: int, s: Setup<V>, closing: Closing)
    ensures PartText([(d, row)], lastActive, first, s, closing) == ListText(lastActive, d, row, first, s, closing)
  {
    var p := [(d, row)];
    assert p[1..] == [];
    assert PartText(p, lastActive, first, s, closing) == ListText(lastActive, d, row, first, s, closing) + "";
  }

  lemma PartsTextCons<V>(parts: seq<seq<(int, seq<(int, V)>)>>, lastActive: int, s: Setup<V>, closing: Closing)
    requires 0 < |parts| && 0 < |parts[0]|
    ensures PartsText(parts, lastActive, s, closing)
      == PartText(parts[0], lastActive, parts[0][0].0, s, closing) + PartsText(parts[1..], parts[0][|parts[0]| - 1].0, s, closing)
  {
  }

  /** The text of two parts of one term list each. */
  lemma TwoPartsText<V>(d1: int, r1: seq<(int, V)>, d2: int, r2: seq<(int, V)>, s: Setup<V>, closing: Closing)
    ensures PartsText([[(d1, r1)], [(d2, r2)]], -1, s, closing)
      == ListText(-1, d1, r1, d1, s, closing) + ListText(d1, d2, r2, d2, s, closing)
  {
    var parts := [[(d1, r1)], [(d2, r2)]];
    assert parts[1..] == [[(d2, r2)]] && parts[1..][1..] == [];
    PartTextOne(d1, r1, -1, d1, s, closing);
    PartTextOne(d2, r2, d1, d2, s, closing);
    assert PartsText(parts[1..], d1, s, closing) == ListText(d1, d2, r2, d2, s, closing) by {
      PartsTextCons(parts[1..], d1, s, closing);
      assert PartsText(parts[1..], d1, s, closing) == ListText(d1, d2, r2, d2, s, closing) + "";
    }
    PartsTextCons(parts, -1, s, closing);
  }

  /**
   * As written, a part that starts with a new document does not close the
   * record left open by the part before: two one-document parts put the second
   * record straight after the cells of the first, on the same line. The
   * intended rule closes the first record and breaks the line. `WriteFileText`
   * puts either text between the header and the final brace.
   */
  lemma PartStartLeavesRecordOpen<V>(d1: int, r1: seq<(int, V)>, d2: int, r2: seq<(int, V)>, s: Setup<V>)
    requires d1 != -1 && d1 != d2
    ensures PartsText([[(d1, r1)], [(d2, r2)]], -1, s, AsWritten)
      == (Head(s, d1) + CellsText(r1, s.render)) + (Head(s, d2) + CellsText(r2, s.render))
    ensures PartsText([[(d1, r1)], [(d2, r2)]], -1, s, Intended)
      == (Head(s, d1) + CellsText(r1, s.render)) + ("}\n" + Head(s, d2) + CellsText(r2, s.render))
  {
    var h1, h2 := Head(s, d1), Head(s, d2);
    TwoPartsText(d1, r1, d2, r2, s, AsWritten);
    TwoPartsText(d1, r1, d2, r2, s, Intended);
    assert "" + h1 == h1 && "" + h2 == h2;
  }
}
