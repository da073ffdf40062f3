/**
 * The line format shared by the block files of the indexer. A block file is a
 * sequence of records separated by single line breaks; a record is a key, a
 * tab, and the record's entries, each written `<id:value>`:
 *
 *   matrix blocks:      docID \t <termID:value><termID:value>...
 *   dictionary blocks:  term  \t <docID:tf><docID:tf>...
 *
 * The value's text is a parameter (Java's float text for the matrix, decimal
 * int text for the dictionary).
 */
module BlockFormat {
  import opened Text

  /** The characters that delimit fields; keys and value texts must avoid them. */
  const Delimiters: set<char> := {'\t', '\n', '<', ':', '>'}

  function EntryText<V>(e: (int, V), render: V -> string): string {
    "<" + IntToString(e.0) + ":" + render(e.1) + ">"
  }

  /** The entries of one record, concatenated in order. */
  function EntriesText<V>(es: seq<(int, V)>, render: V -> string): string
    decreases |es|
  {
    if |es| == 0 then "" else EntryText(es[0], render) + EntriesText(es[1..], render)
  }

  /** The entry texts one by one. */
  function EntryTexts<V>(es: seq<(int, V)>, render: V -> string): (r: seq<string>)
    ensures |r| == |es|
    ensures forall i | 0 <= i < |es| :: r[i] == EntryText(es[i], render)
  {
    seq(|es|, i requires 0 <= i < |es| => EntryText(es[i], render))
  }

  lemma {:induction false} FlattenEntryTexts<V>(es: seq<(int, V)>, render: V -> string)
    ensures Flatten(EntryTexts(es, render)) == EntriesText(es, render)
    decreases |es|
  {
    if |es| > 0 {
      FlattenEntryTexts(es[1..], render);
      assert EntryTexts(es, render)[1..] == EntryTexts(es[1..], render);
    }
  }

  function RecordText<V>(key: string, es: seq<(int, V)>, render: V -> string): string {
    key + "\t" + EntriesText(es, render)
  }

  /** Lines separated by single line breaks, with none after the last. */
  function Join(lines: seq<string>): string
    decreases |lines|
  {
    if |lines| == 0 then ""
    else if |lines| == 1 then lines[0]
    else lines[0] + "\n" + Join(lines[1..])
  }

  /** With a line break after every line, the text is the joined lines plus one final break. */
  lemma {:induction false} TerminatedIsJoin(lines: seq<string>)
    requires 0 < |lines|
    ensures Terminated(lines) == Join(lines) + "\n"
    decreases |lines|
  {
    if |lines| > 1 {
      TerminatedIsJoin(lines[1..]);
    }
  }

  /** A block: records with their keys already rendered as text. */
  type Block<V> = seq<(string, seq<(int, V)>)>

  function Records<V>(rows: Block<V>, render: V -> string): (r: seq<string>)
    ensures |r| == |rows|
    ensures forall i | 0 <= i < |rows| :: r[i] == RecordText(rows[i].0, rows[i].1, render)
  {
    seq(|rows|, i requires 0 <= i < |rows| => RecordText(rows[i].0, rows[i].1, render))
  }

  /** The whole file text of a block. */
  function Serialise<V>(rows: Block<V>, render: V -> string): string {
    Join(Records(rows, render))
  }

  /** The matrix block of a document-term matrix: keys are the decimal document ids. */
  function MatrixBlock<V>(m: seq<(int, seq<(int, V)>)>): (r: Block<V>)
    ensures |r| == |m|
    ensures forall i | 0 <= i < |m| :: r[i] == (IntToString(m[i].0), m[i].1)
  {
    seq(|m|, i requires 0 <= i < |m| => (IntToString(m[i].0), m[i].1))
  }

  /**
   * A block the readers can take apart: every record has at least one entry,
   * keys and value texts avoid the delimiters, and ids fit in a Java int.
   */
  predicate WellFormed<V>(rows: Block<V>, render: V -> string) {
    forall i | 0 <= i < |rows| ::
      && 0 < |rows[i].1|
      && FreeOf(rows[i].0, Delimiters)
      && forall j | 0 <= j < |rows[i].1| ::
        IsInt32(rows[i].1[j].0) && FreeOf(render(rows[i].1[j].1), Delimiters)
  }
}
