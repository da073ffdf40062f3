/**
 * What the block writers write, the block readers read back: the matrix
 * file of a document-term matrix and the dictionary file of the in-memory
 * index, each read from chunks whose first chunk holds the first key. The
 * chunks are the decoded texts of the reader's reads, and they are taken to
 * concatenate to the file: a read that cuts a multi-byte character is not
 * modelled.
 */
module BlockFiles {
  import opened Wrappers
  import opened Text
  import opened BlockFormat
  import opened BlockReader
  import opened BlockWriter
  import opened BlockRoundTrip
  import OrderedMap
  import Dictionary

  /** Matrix rows the reader takes apart, with a value parser that inverts the value text. */
  ghost predicate MatrixReparses<V>(m: seq<(int, seq<(int, V)>)>, render: V -> string, parseValue: string -> Option<V>) {
    forall i | 0 <= i < |m| :: forall j | 0 <= j < |m[i].1| ::
      FreeOf(render(m[i].1[j].1), Delimiters) && parseValue(render(m[i].1[j].1)) == Some(m[i].1[j].1)
  }

  /**
   * The matrix writer's file read back by the matrix reader gives every
   * (document, term, value) entry of the matrix, row by row in order.
   */
  lemma MatrixRoundTrip<V>(m: seq<(int, seq<(int, V)>)>, render: V -> string, parseValue: string -> Option<V>, chunks: seq<string>)
    requires 0 < |m| && MatrixFits(m, render) && MatrixReparses(m, render, parseValue)
    requires WriteMatrix(m, render) == Success(Flatten(chunks)) && |Flatten(chunks)| <= INT_MAX
    requires 0 < |chunks| && '\t' in chunks[0]
    ensures ReadMatrix(chunks, parseValue) == Success(Flat(m))
  {
    WriteMatrixFits(m, render);
    assert MatrixBlock(m) == Keyed(m, IntToString);
    var rows := Keyed(m, IntToString);
    assert WellFormed(rows, render) by {
      forall i | 0 <= i < |rows| ensures FreeOf(rows[i].0, Delimiters) {
        IdTextFree(m[i].0);
      }
    }
    assert Reparses(m, IntToString, ParseInt32, render, parseValue) by {
      forall i | 0 <= i < |m| ensures ParseInt32(IntToString(m[i].0)) == Some(m[i].0) {
        ParseIntegerOfIntToString(m[i].0, INT_MIN, INT_MAX);
      }
    }
    ReadFileRoundTrip(chunks, m, IntToString, ParseInt32, render, parseValue);
  }

  /** The terms the dictionary writer writes, in `getTerms` order, with their postings lists. */
  function WrittenTerms(d: Dictionary.Dict): (r: seq<(string, Dictionary.Postings)>)
    requires Dictionary.Valid(d)
    ensures |r| == |Dictionary.GetTerms(d).1|
    ensures forall i | 0 <= i < |r| ::
      (r[i].0 == Dictionary.GetTerms(d).1[i] && Dictionary.GetPostingsList(d, r[i].0) == Some(r[i].1))
  {
    var (d1, ts) := Dictionary.GetTerms(d);
    TermsWithPostings(d1, ts)
  }

  /** Terms the reader takes apart: delimiter-free, with postings, and int ids and frequencies. */
  predicate ReadableTerms(terms: seq<(string, Dictionary.Postings)>) {
    forall i | 0 <= i < |terms| ::
      && FreeOf(terms[i].0, Delimiters)
      && 0 < |terms[i].1|
      && forall j | 0 <= j < |terms[i].1| :: IsInt32(terms[i].1[j].0) && IsInt32(terms[i].1[j].1)
  }

  /**
   * The dictionary writer's file read back by the dictionary reader gives
   * every (term, document, frequency) posting, term by term in `getTerms` order.
   */
  lemma DictionaryRoundTrip(d: Dictionary.Dict, chunks: seq<string>)
    requires Dictionary.Valid(d) && 0 < |WrittenTerms(d)| && ReadableTerms(WrittenTerms(d))
    requires WriteDictionary(d).Success? && WriteDictionary(d).value.1 == Flatten(chunks) && |Flatten(chunks)| <= INT_MAX
    requires 0 < |chunks| && '\t' in chunks[0]
    ensures ReadDictionary(chunks) == Success(Flat(WrittenTerms(d)))
  {
    var terms := WrittenTerms(d);
    DictionaryFile(d);
    TermsReparse(terms);
    ReadFileRoundTrip(chunks, terms, KeepTextOf, KeepText, IntToString, ParseInt32);
  }

  /** The dictionary file is the block of the written terms. */
  lemma DictionaryFile(d: Dictionary.Dict)
    requires Dictionary.Valid(d) && ReadableTerms(WrittenTerms(d)) && WriteDictionary(d).Success?
    ensures WriteDictionary(d).value.1 == Serialise(Keyed(WrittenTerms(d), KeepTextOf), IntToString)
  {
    var terms := WrittenTerms(d);
    var (d1, ts) := Dictionary.GetTerms(d);
    assert terms == TermsWithPostings(d1, ts);
    WriteTermsText(Buf("", []), terms, true);
    assert Output(Buf("", [])) == "";
    DictionaryTextJoin(terms);
    assert Keyed(terms, KeepTextOf) == terms;
  }

  lemma TermsReparse(terms: seq<(string, Dictionary.Postings)>)
    requires ReadableTerms(terms)
    ensures WellFormed(Keyed(terms, KeepTextOf), IntToString)
    ensures Reparses(terms, KeepTextOf, KeepText, IntToString, ParseInt32)
  {
    assert Keyed(terms, KeepTextOf) == terms;
    forall i, j | 0 <= i < |terms| && 0 <= j < |terms[i].1|
      ensures FreeOf(IntToString(terms[i].1[j].1), Delimiters)
      ensures ParseInt32(IntToString(terms[i].1[j].1)) == Some(terms[i].1[j].1)
    {
      IdTextFree(terms[i].1[j].1);
      ParseIntegerOfIntToString(terms[i].1[j].1, INT_MIN, INT_MAX);
    }
  }

  function KeepTextOf(s: string): string {
    s
  }
}
