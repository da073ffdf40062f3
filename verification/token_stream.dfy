/**
 * The zip token stream above the term rules: archive entries are opened in
 * order, every non-directory entry becomes a numbered document, each
 * document's chunks are searched for terms one after the other, and the
 * stream hands the tokens out through a cache of two.
 *
 * The archive and its readers are replaced by a sequence of entries, each
 * with the chunks its reader delivers.
 */
module TokenStream {
  import opened Wrappers
  import opened Documents
  import Tokenizer

  datatype Token = Token(term: string, doc: Document)

  /** An archive entry: its path, whether it is a directory, and the chunks read from it. */
  datatype ZipEntry = ZipEntry(name: string, isDirectory: bool, chunks: seq<string>)

  /**
   * The terms of one document: every chunk is searched on its own from its
   * start, and no chunk's end closes a term, so a word that runs to the end
   * of a chunk is not a term of the document.
   */
  function DocumentTerms(chunks: seq<string>): (r: seq<string>)
    decreases |chunks|
  {
    if |chunks| == 0 then []
    else Tokenizer.ChunkTerms(chunks[0], 0, false) + DocumentTerms(chunks[1..])
  }

  /** Every term of a document is well formed. */
  lemma {:induction false} DocumentTermsWellFormed(chunks: seq<string>)
    ensures forall i | 0 <= i < |DocumentTerms(chunks)| :: Tokenizer.WellFormedTerm(DocumentTerms(chunks)[i])
    decreases |chunks|
  {
    if |chunks| != 0 {
      Tokenizer.ChunkTermsWellFormed(chunks[0], 0, false);
      DocumentTermsWellFormed(chunks[1..]);
    }
  }

  /** A document whose text ends in a word without a delimiter after it loses that word. */
  lemma DocumentLastWordDropped(ws: seq<string>, w: string)
    requires Tokenizer.AllLetters(ws) && Tokenizer.Letters(w)
    ensures DocumentTerms([Tokenizer.Spaced(ws) + w]) == Tokenizer.LongWords(ws)
  {
    assert DocumentTerms([Tokenizer.Spaced(ws) + w][1..]) == [];
    Tokenizer.FinalWordDropped(ws, w);
  }

  /** The number of non-directory entries. */
  function FileCount(entries: seq<ZipEntry>): nat
    decreases |entries|
  {
    if |entries| == 0 then 0
    else (if entries[0].isDirectory then 0 else 1) + FileCount(entries[1..])
  }

  /** Every non-directory entry has a path with a name part. */
  predicate OpenablePaths(entries: seq<ZipEntry>) {
    forall i | 0 <= i < |entries| :: entries[i].isDirectory || HasNamePart(entries[i].name)
  }

  /**
   * `initNextFileEntry` over all entries: directories are passed over and
   * every other entry, empty or not, is opened as the document with the next
   * id after `lastId`; a path without a name part raises the document's
   * index error.
   */
  function OpenDocuments(entries: seq<ZipEntry>, lastId: int): (r: Result<seq<(Document, seq<string>)>>)
    ensures r.Success? <==> OpenablePaths(entries)
    ensures r.Success? ==> |r.value| == FileCount(entries)
    ensures r.Success? ==> forall k | 0 <= k < |r.value| :: r.value[k].0.id == lastId + 1 + k
    decreases |entries|
  {
    if |entries| == 0 then Success([])
    else
      var rest := OpenDocuments(entries[1..], if entries[0].isDirectory then lastId else lastId + 1);
      assert OpenablePaths(entries) <==> (entries[0].isDirectory || HasNamePart(entries[0].name)) && OpenablePaths(entries[1..]) by {
        assert forall i | 1 <= i < |entries| :: entries[i] == entries[1..][i - 1];
      }
      if entries[0].isDirectory then rest
      else
        NewDocumentSucceeds(lastId + 1, entries[0].name);
        var doc := NewDocument(lastId + 1, entries[0].name);
        if doc.Failure? then Failure(doc.error)
        else if rest.Failure? then rest
        else Success([(doc.value, entries[0].chunks)] + rest.value)
  }

  /** The tokens of one opened document, in term order. */
  function DocumentTokens(doc: Document, chunks: seq<string>): (r: seq<Token>)
    ensures |r| == |DocumentTerms(chunks)|
    ensures forall i | 0 <= i < |r| :: r[i] == Token(DocumentTerms(chunks)[i], doc)
  {
    var terms := DocumentTerms(chunks);
    seq(|terms|, i requires 0 <= i < |terms| => Token(terms[i], doc))
  }

  function Tokens(docs: seq<(Document, seq<string>)>): seq<Token>
    decreases |docs|
  {
    if |docs| == 0 then [] else DocumentTokens(docs[0].0, docs[0].1) + Tokens(docs[1..])
  }

  /** All tokens of the archive, in entry order, or the error that stops the stream. */
  function Stream(entries: seq<ZipEntry>): Result<seq<Token>> {
    var docs :- OpenDocuments(entries, 0);
    Success(Tokens(docs))
  }

  /** Documents numbered consecutively from `first` on. */
  predicate Numbered(docs: seq<(Document, seq<string>)>, first: int) {
    forall k | 0 <= k < |docs| :: docs[k].0.id == first + k
  }

  /** Tokens whose document ids lie in `[lo, hi)` and whose terms are well formed. */
  predicate TokensIn(ts: seq<Token>, lo: int, hi: int) {
    forall i | 0 <= i < |ts| :: lo <= ts[i].doc.id < hi && Tokenizer.WellFormedTerm(ts[i].term)
  }

  /** Document ids never decrease along the tokens. */
  predicate IdsOrdered(ts: seq<Token>) {
    forall i, j | 0 <= i < j < |ts| :: ts[i].doc.id <= ts[j].doc.id
  }

  /** One document's tokens in front of tokens of later documents. */
  lemma PrependDocument(head: seq<Token>, rest: seq<Token>, id: int, hi: int)
    requires id < hi
    requires TokensIn(head, id, id + 1) && TokensIn(rest, id + 1, hi) && IdsOrdered(rest)
    ensures TokensIn(head + rest, id, hi) && IdsOrdered(head + rest)
  {
    var ts := head + rest;
    forall i | 0 <= i < |ts| ensures id <= ts[i].doc.id < hi && Tokenizer.WellFormedTerm(ts[i].term) {
      if i < |head| { assert ts[i] == head[i]; } else { assert ts[i] == rest[i - |head|]; }
    }
    forall i, j | 0 <= i < j < |ts| ensures ts[i].doc.id <= ts[j].doc.id {
      if j < |head| {
        assert ts[i] == head[i] && ts[j] == head[j];
      } else if i < |head| {
        assert ts[i] == head[i] && ts[j] == rest[j - |head|];
      } else {
        assert ts[i] == rest[i - |head|] && ts[j] == rest[j - |head|];
      }
    }
  }

  /**
   * The tokens of consecutively numbered documents carry ids from `first` to
   * `first + |docs| - 1`, in non-decreasing order, and well-formed terms.
   */
  lemma {:induction false} TokensOrdered(docs: seq<(Document, seq<string>)>, first: int)
    requires Numbered(docs, first)
    ensures TokensIn(Tokens(docs), first, first + |docs|) && IdsOrdered(Tokens(docs))
    decreases |docs|
  {
    if |docs| != 0 {
      var head := DocumentTokens(docs[0].0, docs[0].1);
      assert Numbered(docs[1..], first + 1) by {
        forall k | 0 <= k < |docs[1..]| ensures docs[1..][k].0.id == first + 1 + k {
          assert docs[1..][k] == docs[k + 1];
        }
      }
      TokensOrdered(docs[1..], first + 1);
      assert TokensIn(head, first, first + 1) by {
        DocumentTermsWellFormed(docs[0].1);
      }
      PrependDocument(head, Tokens(docs[1..]), first, first + |docs|);
    }
  }

  /**
   * `DOC_ID` starts at 0 with every stream, so the tokens carry document ids
   * from 1 to the number of non-directory entries, never decreasing, and
   * every term is well formed.
   */
  lemma StreamDocumentIds(entries: seq<ZipEntry>)
    requires Stream(entries).Success?
    ensures TokensIn(Stream(entries).value, 1, FileCount(entries) + 1)
    ensures IdsOrdered(Stream(entries).value)
  {
    var docs := OpenDocuments(entries, 0).value;
    assert Stream(entries).value == Tokens(docs);
    TokensOrdered(docs, 1);
  }

  // ---------------------------------------------------------------- lookahead

  /**
   * The stream's cache: the token `next()` returns, the one after it, and the
   * tokens not yet prepared.
   */
  datatype Lookahead = Lookahead(nextToken: Option<Token>, nextNextToken: Option<Token>, pending: seq<Token>)

  /** `prepareNextToken`: the next token of the stream, or none when it has run dry. */
  function Prepare(pending: seq<Token>): (r: (Option<Token>, seq<Token>))
    ensures r.0.None? <==> pending == []
    ensures r.0.Some? ==> [r.0.value] + r.1 == pending
    ensures r.0.None? ==> r.1 == []
  {
    if |pending| == 0 then (None, []) else (Some(pending[0]), pending[1..])
  }

  function AsSeq(t: Option<Token>): seq<Token> {
    if t.Some? then [t.value] else []
  }

  /** The tokens the stream has yet to return, cached ones first. */
  function Remaining(s: Lookahead): seq<Token> {
    AsSeq(s.nextToken) + AsSeq(s.nextNextToken) + s.pending
  }

  /** A cache slot is empty only when everything after it is empty too. */
  predicate Valid(s: Lookahead) {
    && (s.nextToken.None? ==> s.nextNextToken.None?)
    && (s.nextNextToken.None? ==> s.pending == [])
  }

  function Current(s: Lookahead): Option<Token> {
    s.nextToken
  }

  predicate HasNext(s: Lookahead) {
    s.nextToken.Some?
  }

  /** `initialize`: the first two tokens are prepared and cached. */
  function Initialize(tokens: seq<Token>): (s: Lookahead)
    ensures Valid(s) && Remaining(s) == tokens
  {
    var (a, rest) := Prepare(tokens);
    var (b, rest2) := Prepare(rest);
    Lookahead(a, b, rest2)
  }

  /**
   * `next()`: returns the first cached token, moves the second one up and
   * prepares a new second one.
   */
  function Next(s: Lookahead): (r: (Option<Token>, Lookahead))
    requires Valid(s)
    ensures Valid(r.1)
    ensures r.0 == Current(s)
    ensures Remaining(s) == AsSeq(r.0) + Remaining(r.1)
    ensures r.0.None? ==> Remaining(r.1) == []
  {
    var (c, rest) := Prepare(s.pending);
    (s.nextToken, Lookahead(s.nextNextToken, c, rest))
  }

  /** In a valid cache, `hasNext()` holds exactly when tokens remain, and `current()` is the first of them. */
  lemma HasNextRemaining(s: Lookahead)
    requires Valid(s)
    ensures HasNext(s) <==> Remaining(s) != []
    ensures HasNext(s) ==> Current(s) == Some(Remaining(s)[0])
  {
  }

  /** Calling `next()` while `hasNext()` holds, collecting the results. */
  function Drain(s: Lookahead): (r: seq<Token>)
    requires Valid(s)
    decreases |Remaining(s)|
  {
    if !HasNext(s) then []
    else
      var (t, s2) := Next(s);
      [t.value] + Drain(s2)
  }

  /** Draining a cache returns exactly the tokens it has yet to return. */
  lemma {:induction false} DrainRemaining(s: Lookahead)
    requires Valid(s)
    ensures Drain(s) == Remaining(s)
    decreases |Remaining(s)|
  {
    if HasNext(s) {
      var (t, s2) := Next(s);
      DrainRemaining(s2);
    }
  }

  /** A stream that is initialised and then drained returns every token, in order. */
  lemma DrainInitialized(tokens: seq<Token>)
    ensures Drain(Initialize(tokens)) == tokens
  {
    DrainRemaining(Initialize(tokens));
  }
}
