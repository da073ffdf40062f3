/**
 * The term-boundary rules of the zip token stream, applied to one buffer of
 * text (one chunk read from a document):
 *
 *  - a term continues over letters, digits, `@`, and `.` or `-` directly
 *    followed by a letter; the character after the last valid one counts as
 *    a blank;
 *  - a term must start with a letter and be at least four characters long;
 *  - the term text is the slice between its start and its end, lower-cased.
 *
 * As written, a term that runs up to the end of the buffer has no end
 * (`getEndOfNextTerm` answers -1) and is therefore never accepted. The
 * parameter `last` says whether the buffer is the final chunk of its
 * document: with `last` false every member behaves as written; with `last`
 * true a run that reaches the end of the buffer ends there, which is the
 * behaviour the stream's own end-of-document branch describes.
 */
module Tokenizer {
  import opened Wrappers
  import Text

  /** A letter, restricted to the ASCII letters; `Character.isLetter` also accepts every other Unicode letter. */
  predicate IsLetter(c: char) {
    'a' <= c <= 'z' || 'A' <= c <= 'Z'
  }

  predicate IsUpper(c: char) {
    'A' <= c <= 'Z'
  }

  /** Lower-casing of one ASCII upper-case letter; every other character is left as it is. */
  function ToLower(c: char): (r: char)
    ensures !IsUpper(r)
    ensures IsLetter(c) <==> IsLetter(r)
    ensures !IsUpper(c) ==> r == c
  {
    if IsUpper(c) then (c as int + 32) as char else c
  }

  /**
   * Lower-casing of a term, one character at a time with `ToLower`. It
   * agrees with the program's `String.toLowerCase` only on ASCII text.
   */
  function Lower(s: string): (r: string)
    ensures |r| == |s|
    ensures forall i | 0 <= i < |s| :: r[i] == ToLower(s[i])
  {
    seq(|s|, i requires 0 <= i < |s| => ToLower(s[i]))
  }

  /** The character the continuation rule looks at after position `p`: a blank after the last valid character. */
  function Follower(buf: string, p: nat): char
    requires p < |buf|
  {
    if p + 1 < |buf| then buf[p + 1] else ' '
  }

  /** The character at `p` continues a term that started before it. */
  predicate Continues(buf: string, p: nat)
    requires p < |buf|
  {
    var c := buf[p];
    var n := Follower(buf, p);
    || IsLetter(c) || Text.IsDigit(c) || c == '@'
    || (c == '.' && IsLetter(n))
    || (c == '-' && IsLetter(n))
  }

  /** The characters a term can be made of. */
  predicate TermChar(c: char) {
    IsLetter(c) || Text.IsDigit(c) || c == '@' || c == '.' || c == '-'
  }

  // ---------------------------------------------------------------- end of a term

  /** The scanning loop of `getEndOfNextTerm` from position `pos` on. */
  function EndScan(buf: string, pos: nat): (r: int)
    ensures r == -1 || (pos <= r < |buf| && !Continues(buf, r))
    decreases |buf| - pos
  {
    if pos < |buf| then
      if !Continues(buf, pos) then pos else EndScan(buf, pos + 1)
    else -1
  }

  /** The scan stops at the first position that does not continue the term. */
  lemma {:induction false} EndScanFirst(buf: string, pos: nat, e: nat)
    requires pos <= e < |buf| && !Continues(buf, e)
    requires forall q | pos <= q < e :: Continues(buf, q)
    ensures EndScan(buf, pos) == e
    decreases e - pos
  {
    if pos < e {
      EndScanFirst(buf, pos + 1, e);
    }
  }

  /** The scan passes only positions that continue the term. */
  lemma {:induction false} EndScanContinues(buf: string, pos: nat)
    ensures var r := EndScan(buf, pos);
      forall q | pos <= q < (if r == -1 then |buf| else r) :: Continues(buf, q)
    decreases |buf| - pos
  {
    if pos < |buf| && Continues(buf, pos) {
      EndScanContinues(buf, pos + 1);
    }
  }

  /**
   * `getEndOfNextTerm(start)` over the valid characters `buf`: -1 for an
   * empty buffer or a negative start, otherwise the scan from `start + 1`.
   */
  function EndOfNextTerm(buf: string, start: int): (r: int)
    ensures r == -1 || (0 <= start < r < |buf| && !Continues(buf, r))
  {
    if |buf| == 0 then -1
    else if start <= -1 then -1
    else EndScan(buf, start + 1)
  }

  /**
   * The end of a term is the first position after its start that does not
   * continue it; there is none (-1) for an empty buffer, a negative start, or
   * a run that reaches the end of the buffer.
   */
  lemma EndOfNextTermSpec(buf: string, start: int)
    ensures var r := EndOfNextTerm(buf, start);
      r == -1 <==> |buf| == 0 || start < 0 || forall p | start < p < |buf| :: Continues(buf, p)
    ensures var r := EndOfNextTerm(buf, start);
      r != -1 ==> start < r < |buf| && !Continues(buf, r) && forall p | start < p < r :: Continues(buf, p)
  {
    if |buf| != 0 && 0 <= start {
      EndScanContinues(buf, start + 1);
    }
  }

  /**
   * The end of the term starting at `start`: as written when `last` is false;
   * when `last` is true, a run reaching the end of the buffer ends there.
   */
  function TermEnd(buf: string, start: int, last: bool): (r: int)
    ensures !last ==> r == EndOfNextTerm(buf, start)
    ensures r == -1 || 0 <= start < r <= |buf|
    ensures r == -1 || r == |buf| || !Continues(buf, r)
    ensures last && 0 <= start < |buf| ==> r != -1
  {
    var e := EndOfNextTerm(buf, start);
    if last && e == -1 && 0 <= start < |buf| then |buf| else e
  }

  /** Every character strictly inside a term continues it. */
  lemma TermEndContinues(buf: string, start: nat, last: bool)
    requires start < |buf| && TermEnd(buf, start, last) != -1
    ensures forall q | start < q < TermEnd(buf, start, last) :: Continues(buf, q)
  {
    EndScanContinues(buf, start + 1);
  }

  /** A term that starts inside a run ends at the first character that does not continue it. */
  lemma TermEndAt(buf: string, start: nat, e: nat, last: bool)
    requires start < e < |buf| && !Continues(buf, e)
    requires forall q | start < q < e :: Continues(buf, q)
    ensures TermEnd(buf, start, last) == e
  {
    EndScanFirst(buf, start + 1, e);
  }

  /** A term in a run that reaches the end of the buffer has no end as written, and ends at the buffer's end otherwise. */
  lemma TermEndOpen(buf: string, start: nat, last: bool)
    requires start < |buf|
    requires forall q | start < q < |buf| :: Continues(buf, q)
    ensures TermEnd(buf, start, last) == if last then |buf| else -1
  {
    EndOfNextTermSpec(buf, start);
  }

  // ---------------------------------------------------------------- beginning of a term

  /** A term may start at `p`: a letter whose term is longer than three characters. */
  predicate Accepts(buf: string, p: nat, last: bool)
    requires p < |buf|
  {
    IsLetter(buf[p]) && TermEnd(buf, p, last) - p > 3
  }

  /** The scanning loop of `getBeginningOfNextTerm` from position `pos` on. */
  function BeginScan(buf: string, pos: nat, last: bool): (r: int)
    ensures r == -1 || (pos <= r < |buf| && Accepts(buf, r, last))
    decreases |buf| - pos
  {
    if pos < |buf| then
      if !IsLetter(buf[pos]) then BeginScan(buf, pos + 1, last)
      else if TermEnd(buf, pos, last) - pos > 3 then pos
      else BeginScan(buf, pos + 1, last)
    else -1
  }

  /** The scan stops at the first accepted position. */
  lemma {:induction false} BeginScanFirst(buf: string, pos: nat, b: int, last: bool)
    requires b == -1 || (pos <= b < |buf| && Accepts(buf, b, last))
    requires forall p | pos <= p < (if b == -1 then |buf| else b) :: !Accepts(buf, p, last)
    ensures BeginScan(buf, pos, last) == b
    decreases |buf| - pos
  {
    if pos < |buf| && pos != b {
      BeginScanFirst(buf, pos + 1, b, last);
    }
  }

  /** The scan passes only positions that are not accepted. */
  lemma {:induction false} BeginScanSkips(buf: string, pos: nat, last: bool)
    ensures var r := BeginScan(buf, pos, last);
      forall p | pos <= p < (if r == -1 then |buf| else r) :: !Accepts(buf, p, last)
    decreases |buf| - pos
  {
    if pos < |buf| && !Accepts(buf, pos, last) {
      BeginScanSkips(buf, pos + 1, last);
    }
  }

  /**
   * `getBeginningOfNextTerm` from `offset`: -1 for an empty buffer, otherwise
   * the scan from `offset`.
   */
  function BeginningOfNextTerm(buf: string, offset: nat, last: bool): (r: int)
    ensures r == -1 || (offset <= r < |buf| && Accepts(buf, r, last))
  {
    if |buf| == 0 then -1 else BeginScan(buf, offset, last)
  }

  /**
   * The beginning of the next term is the first accepted position from the
   * offset on, and there is none (-1) exactly when no position is accepted.
   */
  lemma BeginningOfNextTermSpec(buf: string, offset: nat, last: bool)
    ensures var r := BeginningOfNextTerm(buf, offset, last);
      r == -1 <==> forall p | offset <= p < |buf| :: !Accepts(buf, p, last)
    ensures var r := BeginningOfNextTerm(buf, offset, last);
      r != -1 ==> offset <= r < |buf| && Accepts(buf, r, last) && forall p | offset <= p < r :: !Accepts(buf, p, last)
  {
    BeginScanSkips(buf, offset, last);
  }

  /** A term as the stream delivers it: long enough, starting with a letter, lower case, of term characters only. */
  predicate WellFormedTerm(t: string) {
    && |t| > 3
    && IsLetter(t[0])
    && forall i | 0 <= i < |t| :: TermChar(t[i]) && !IsUpper(t[i])
  }

  /**
   * One step of `prepareNextToken` inside the buffer: the next term,
   * lower-cased, and the offset at which the search continues, or `None`
   * when the rest of the buffer holds no term.
   */
  function NextTerm(buf: string, offset: nat, last: bool): (r: Option<(string, nat)>)
    requires offset <= |buf|
    ensures r.Some? ==> offset < r.value.1 <= |buf|
  {
    var b := BeginningOfNextTerm(buf, offset, last);
    if b == -1 then None
    else
      var e := TermEnd(buf, b, last);
      Some((Lower(buf[b..e]), if e < |buf| then e + 1 else |buf|))
  }

  /**
   * There is a next term exactly when some position from the offset on is
   * accepted; it is well formed, and the search resumes after it.
   */
  lemma NextTermSpec(buf: string, offset: nat, last: bool)
    requires offset <= |buf|
    ensures var r := NextTerm(buf, offset, last);
      r.None? <==> forall p | offset <= p < |buf| :: !Accepts(buf, p, last)
    ensures var r := NextTerm(buf, offset, last);
      r.Some? ==> WellFormedTerm(r.value.0) && |r.value.0| <= r.value.1 - offset
  {
    BeginningOfNextTermSpec(buf, offset, last);
    var b := BeginningOfNextTerm(buf, offset, last);
    if b != -1 {
      var e := TermEnd(buf, b, last);
      var t := Lower(buf[b..e]);
      TermEndContinues(buf, b, last);
      forall i | 0 <= i < |t| ensures TermChar(t[i]) && !IsUpper(t[i]) {
        assert 0 < i ==> Continues(buf, b + i);
      }
    }
  }

  /** All terms of a buffer from `offset` on, in order. */
  function ChunkTerms(buf: string, offset: nat, last: bool): (r: seq<string>)
    requires offset <= |buf|
    decreases |buf| - offset
  {
    match NextTerm(buf, offset, last)
    case None => []
    case Some((t, next)) => [t] + ChunkTerms(buf, next, last)
  }

  /** Every term of a buffer is well formed. */
  lemma {:induction false} ChunkTermsWellFormed(buf: string, offset: nat, last: bool)
    requires offset <= |buf|
    ensures forall i | 0 <= i < |ChunkTerms(buf, offset, last)| :: WellFormedTerm(ChunkTerms(buf, offset, last)[i])
    decreases |buf| - offset
  {
    NextTermSpec(buf, offset, last);
    match NextTerm(buf, offset, last)
    case None =>
    case Some((t, next)) =>
      ChunkTermsWellFormed(buf, next, last);
  }

  /** Skipping positions that cannot start a term does not change the terms. */
  lemma ChunkTermsSkip(buf: string, o: nat, o2: nat, last: bool)
    requires o <= o2 <= |buf|
    requires forall p | o <= p < o2 :: !Accepts(buf, p, last)
    ensures ChunkTerms(buf, o, last) == ChunkTerms(buf, o2, last)
  {
    BeginScanSkips(buf, o2, last);
    BeginScanFirst(buf, o, BeginScan(buf, o2, last), last);
    assert NextTerm(buf, o, last) == NextTerm(buf, o2, last);
  }

  /** The term found at `b` when `b` is the first accepted position from `o`. */
  lemma NextTermAt(buf: string, o: nat, b: nat, last: bool)
    requires o <= b < |buf| && Accepts(buf, b, last)
    requires forall p | o <= p < b :: !Accepts(buf, p, last)
    ensures var e := TermEnd(buf, b, last);
      b < e <= |buf| &&
      NextTerm(buf, o, last) == Some((Lower(buf[b..e]), if e < |buf| then e + 1 else |buf|))
  {
    BeginScanFirst(buf, o, b, last);
  }

  // ---------------------------------------------------------------- words separated by blanks

  /** Every character of `w` is a letter. */
  predicate Letters(w: string) {
    forall i | 0 <= i < |w| :: IsLetter(w[i])
  }

  predicate AllLetters(ws: seq<string>) {
    forall i | 0 <= i < |ws| :: Letters(ws[i])
  }

  /** The words, each followed by one blank. */
  function Spaced(ws: seq<string>): string {
    if |ws| == 0 then "" else ws[0] + " " + Spaced(ws[1..])
  }

  /** The words longer than three letters, lower-cased, in order. */
  function LongWords(ws: seq<string>): seq<string> {
    if |ws| == 0 then [] else (if |ws[0]| > 3 then [Lower(ws[0])] else []) + LongWords(ws[1..])
  }

  lemma {:induction false} LongWordsAppend(ws: seq<string>, w: string)
    ensures LongWords(ws + [w]) == LongWords(ws) + LongWords([w])
    decreases |ws|
  {
    if |ws| == 0 {
      assert ws + [w] == [w];
    } else {
      assert (ws + [w])[1..] == ws[1..] + [w];
      LongWordsAppend(ws[1..], w);
    }
  }

  /** Positions `o` to `e` hold letters and position `e` a blank. */
  predicate WordAt(buf: string, o: nat, e: nat) {
    && o <= e < |buf| && buf[e] == ' '
    && forall q | o <= q < e :: IsLetter(buf[q])
  }

  /** Inside a word of letters followed by a blank, every term ends at the blank. */
  lemma WordEnd(buf: string, o: nat, e: nat, p: nat, last: bool)
    requires WordAt(buf, o, e) && o <= p < e
    ensures TermEnd(buf, p, last) == e
  {
    TermEndAt(buf, p, e, last);
  }

  /** A word longer than three letters is the next term. */
  lemma WordTerm(buf: string, o: nat, e: nat, last: bool)
    requires WordAt(buf, o, e) && e - o > 3
    ensures NextTerm(buf, o, last) == Some((Lower(buf[o..e]), e + 1))
  {
    WordEnd(buf, o, e, o, last);
    NextTermAt(buf, o, o, last);
  }

  /** A word of at most three letters is skipped with its blank. */
  lemma ShortWordSkipped(buf: string, o: nat, e: nat, last: bool)
    requires WordAt(buf, o, e) && e - o <= 3
    ensures ChunkTerms(buf, o, last) == ChunkTerms(buf, e + 1, last)
  {
    forall p | o <= p < e + 1 ensures !Accepts(buf, p, last) {
      if p < e { WordEnd(buf, o, e, p, last); }
    }
    ChunkTermsSkip(buf, o, e + 1, last);
  }

  /** The first of the spaced words sits at `o`, followed by a blank and the spaced rest. */
  lemma SpacedHead(buf: string, o: nat, e: nat, end: nat, ws: seq<string>)
    requires AllLetters(ws) && 0 < |ws| && e == o + |ws[0]|
    requires end == o + |Spaced(ws)| <= |buf| && buf[o..end] == Spaced(ws)
    ensures WordAt(buf, o, e) && buf[o..e] == ws[0]
    ensures AllLetters(ws[1..])
    ensures end == e + 1 + |Spaced(ws[1..])| && buf[e + 1..end] == Spaced(ws[1..])
  {
    var w := ws[0];
    var rest := Spaced(ws[1..]);
    var all := buf[o..end];
    assert all == w + " " + rest;
    assert buf[o..e] == w by {
      assert buf[o..e] == all[..|w|];
    }
    assert buf[e] == ' ' by {
      assert buf[e] == all[|w|];
    }
    assert buf[e + 1..end] == rest by {
      assert buf[e + 1..end] == all[|w| + 1..];
    }
    assert WordAt(buf, o, e) by {
      assert Letters(w);
      forall q | o <= q < e ensures IsLetter(buf[q]) {
        assert buf[q] == buf[o..e][q - o];
      }
    }
    assert AllLetters(ws[1..]) by {
      forall i | 0 <= i < |ws[1..]| ensures Letters(ws[1..][i]) {
        assert ws[1..][i] == ws[i + 1];
      }
    }
  }

  /** A word followed by a blank contributes itself, lower-cased, when it is long enough, and nothing otherwise. */
  lemma WordStep(buf: string, o: nat, e: nat, next: nat, last: bool)
    requires WordAt(buf, o, e) && next == e + 1
    ensures ChunkTerms(buf, o, last) ==
      (if e - o > 3 then [Lower(buf[o..e])] else []) + ChunkTerms(buf, next, last)
  {
    if e - o > 3 {
      WordTerm(buf, o, e, last);
    } else {
      ShortWordSkipped(buf, o, e, last);
    }
  }

  lemma TermsAssoc(a: seq<string>, b: seq<string>, c: seq<string>)
    ensures a + (b + c) == (a + b) + c
  {
  }

  /**
   * Blank-separated words of letters from position `o` on give exactly the
   * long words, lower-cased, before whatever follows them.
   */
  lemma {:induction false} SpacedTerms(buf: string, o: nat, end: nat, ws: seq<string>, last: bool)
    requires AllLetters(ws)
    requires end == o + |Spaced(ws)| <= |buf| && buf[o..end] == Spaced(ws)
    ensures ChunkTerms(buf, o, last) == LongWords(ws) + ChunkTerms(buf, end, last)
    decreases |ws|
  {
    if |ws| == 0 {
      assert LongWords(ws) == [];
    } else {
      var e := o + |ws[0]|;
      var next := e + 1;
      SpacedHead(buf, o, e, end, ws);
      SpacedTerms(buf, next, end, ws[1..], last);
      SpacedTermsStep(buf, o, e, next, end, ws, last);
    }
  }

  /** The inductive step of `SpacedTerms`: the first word's contribution in front of the rest's. */
  lemma SpacedTermsStep(buf: string, o: nat, e: nat, next: nat, end: nat, ws: seq<string>, last: bool)
    requires 0 < |ws| && next == e + 1 && e == o + |ws[0]| && end <= |buf|
    requires WordAt(buf, o, e) && buf[o..e] == ws[0]
    requires next <= end && ChunkTerms(buf, next, last) == LongWords(ws[1..]) + ChunkTerms(buf, end, last)
    ensures ChunkTerms(buf, o, last) == LongWords(ws) + ChunkTerms(buf, end, last)
  {
    var head := if |ws[0]| > 3 then [Lower(ws[0])] else [];
    var rest := LongWords(ws[1..]);
    var tail := ChunkTerms(buf, end, last);
    assert ChunkTerms(buf, o, last) == head + ChunkTerms(buf, next, last) by {
      WordStep(buf, o, e, next, last);
    }
    assert LongWords(ws) == head + rest;
    TermsAssoc(head, rest, tail);
  }

  /** Inside a run of letters up to the end of the buffer, every term ends at the end, or nowhere as written. */
  lemma RunEnd(buf: string, o: nat, p: nat, last: bool)
    requires o <= p < |buf|
    requires forall q | o <= q < |buf| :: IsLetter(buf[q])
    ensures TermEnd(buf, p, last) == if last then |buf| else -1
  {
    TermEndOpen(buf, p, last);
  }

  /** A run of letters reaching the end of the buffer is a term only when `last` holds and it is long enough. */
  lemma FinalRun(buf: string, o: nat, last: bool)
    requires o <= |buf|
    requires forall q | o <= q < |buf| :: IsLetter(buf[q])
    ensures ChunkTerms(buf, o, last) == if last && |buf| - o > 3 then [Lower(buf[o..])] else []
  {
    if last && |buf| - o > 3 {
      RunEnd(buf, o, o, last);
      NextTermAt(buf, o, o, last);
      assert buf[o..|buf|] == buf[o..];
      assert NextTerm(buf, |buf|, last).None?;
    } else {
      forall p | o <= p < |buf| ensures !Accepts(buf, p, last) {
        RunEnd(buf, o, p, last);
      }
      assert NextTerm(buf, o, last).None?;
    }
  }

  /** Text that ends with a blank gives its long words, whether or not the buffer is the last. */
  lemma SpacedWordsTerms(ws: seq<string>, last: bool)
    requires AllLetters(ws)
    ensures ChunkTerms(Spaced(ws), 0, last) == LongWords(ws)
  {
    var buf := Spaced(ws);
    assert buf[0..|buf|] == buf;
    SpacedTerms(buf, 0, |buf|, ws, last);
    assert NextTerm(buf, |buf|, last).None?;
  }

  lemma FinalWordTerms(ws: seq<string>, w: string, last: bool)
    requires AllLetters(ws) && Letters(w)
    ensures ChunkTerms(Spaced(ws) + w, 0, last) ==
      LongWords(ws) + (if last && |w| > 3 then [Lower(w)] else [])
  {
    var buf := Spaced(ws) + w;
    var o := |Spaced(ws)|;
    assert buf[0..o] == Spaced(ws);
    SpacedTerms(buf, 0, o, ws, last);
    assert buf[o..] == w;
    forall q | o <= q < |buf| ensures IsLetter(buf[q]) {
      assert buf[q] == w[q - o];
    }
    FinalRun(buf, o, last);
  }

  /** As written, a final word with no blank after it is lost, however long it is. */
  lemma FinalWordDropped(ws: seq<string>, w: string)
    requires AllLetters(ws) && Letters(w)
    ensures ChunkTerms(Spaced(ws) + w, 0, false) == LongWords(ws)
  {
    FinalWordTerms(ws, w, false);
  }

  /** With the buffer's end taken as the end of the document's last term, the final word is kept. */
  lemma FinalWordKept(ws: seq<string>, w: string)
    requires AllLetters(ws) && Letters(w)
    ensures ChunkTerms(Spaced(ws) + w, 0, true) == LongWords(ws + [w])
  {
    FinalWordTerms(ws, w, true);
    LongWordsAppend(ws, w);
    assert LongWords([w]) == (if |w| > 3 then [Lower(w)] else []) by {
      assert LongWords([w][1..]) == [];
    }
  }

  /** "word word" gives one term as written and two when the end of the buffer closes the last term. */
  lemma WordWordExample()
    ensures ChunkTerms("word word", 0, false) == ["word"]
    ensures ChunkTerms("word word", 0, true) == ["word", "word"]
  {
    var ws := ["word"];
    assert Spaced(ws) + "word" == "word word" by {
      assert Spaced(ws[1..]) == "";
    }
    assert Lower("word") == "word";
    assert LongWords(ws) == ["word"] by {
      assert LongWords(ws[1..]) == [];
    }
    assert Letters("word");
    FinalWordTerms(ws, "word", false);
    FinalWordTerms(ws, "word", true);
  }
}
