/**
 * The collection statistics file: four numbers about the indexed collection
 * written as `key=value` lines below two comment lines, and read back line by
 * line, skipping comments, lines without `=`, unknown keys and values that
 * do not parse.
 *
 * The average document length is a `double`; its printed form and its parser
 * are parameters (`DoubleText`), so nothing here depends on floating point.
 */
module CollectionStatistics {
  import opened Wrappers
  import opened Text

  /** How the `double` field is handled: the value -1.0, `Double.toString` and `Double.parseDouble`. */
  datatype DoubleText<!D> = DoubleText(minusOne: D, render: D -> string, parse: string -> Option<D>)

  datatype Statistics<D> = Statistics(
    numberOfDocuments: int,
    numberOfTokens: int,
    numberOfUniqueTerms: int,
    averageDocumentLength: D)

  /** The Java field widths: two `int` counters and one `long`. */
  predicate InRange<D>(s: Statistics<D>) {
    && IsInt32(s.numberOfDocuments)
    && LONG_MIN <= s.numberOfTokens <= LONG_MAX
    && IsInt32(s.numberOfUniqueTerms)
  }

  /** The default constructor: every field is -1. */
  function Unknown<D>(dt: DoubleText<D>): Statistics<D> {
    Statistics(-1, -1, -1, dt.minusOne)
  }

  /** The two comment lines `writeToFile` writes before the four settings. */
  const COMMENT_1 := "% This is the " + "CollectionStatistics" + " File for the index" + " with the same " + "filename."
  const COMMENT_2 := "% This file was " + "automatically " + "generated during " + "index creation. " + "Do not modify!"
  const DOCUMENTS := "numberOfDocuments"
  const TOKENS := "numberOfTokens"
  const UNIQUE_TERMS := "numberOfUniqueTerms"
  const AVERAGE_LENGTH := "averageDocumentLength"

  predicate IsKey(key: string) {
    key == DOCUMENTS || key == TOKENS || key == UNIQUE_TERMS || key == AVERAGE_LENGTH
  }

  /** The lines `writeToFile` writes, without their line breaks. */
  function Lines<D>(s: Statistics<D>, dt: DoubleText<D>): seq<string> {
    [ COMMENT_1,
      COMMENT_2,
      DOCUMENTS + "=" + IntToString(s.numberOfDocuments),
      TOKENS + "=" + IntToString(s.numberOfTokens),
      UNIQUE_TERMS + "=" + IntToString(s.numberOfUniqueTerms),
      AVERAGE_LENGTH + "=" + dt.render(s.averageDocumentLength) ]
  }

  /** `writeToFile`: every line followed by a line break. */
  function Write<D>(s: Statistics<D>, dt: DoubleText<D>): string {
    Terminated(Lines(s, dt))
  }

  /** A value that raises NumberFormatException for the field `key` names. */
  predicate Unparsable<D>(key: string, value: string, dt: DoubleText<D>) {
    if key == DOCUMENTS || key == UNIQUE_TERMS then ParseInt32(value).None?
    else if key == TOKENS then ParseInteger(value, LONG_MIN, LONG_MAX).None?
    else if key == AVERAGE_LENGTH then dt.parse(value).None?
    else false
  }

  /**
   * One setting: the field `key` names takes the parsed value; an unknown key
   * or a value that does not parse leaves every field as it was, and no other
   * field ever changes.
   */
  function Assign<D>(s: Statistics<D>, key: string, value: string, dt: DoubleText<D>): (r: Statistics<D>)
    ensures !IsKey(key) || Unparsable(key, value, dt) ==> r == s
    ensures key != DOCUMENTS ==> r.numberOfDocuments == s.numberOfDocuments
    ensures key != TOKENS ==> r.numberOfTokens == s.numberOfTokens
    ensures key != UNIQUE_TERMS ==> r.numberOfUniqueTerms == s.numberOfUniqueTerms
    ensures key != AVERAGE_LENGTH ==> r.averageDocumentLength == s.averageDocumentLength
    ensures InRange(s) ==> InRange(r)
  {
    if key == DOCUMENTS then
      match ParseInt32(value)
      case Some(v) => s.(numberOfDocuments := v)
      case None => s
    else if key == TOKENS then
      match ParseInteger(value, LONG_MIN, LONG_MAX)
      case Some(v) => s.(numberOfTokens := v)
      case None => s
    else if key == UNIQUE_TERMS then
      match ParseInt32(value)
      case Some(v) => s.(numberOfUniqueTerms := v)
      case None => s
    else if key == AVERAGE_LENGTH then
      match dt.parse(value)
      case Some(v) => s.(averageDocumentLength := v)
      case None => s
    else s
  }

  /** A comment line, or a line without `=`. */
  predicate Ignored(line: string) {
    (|line| > 0 && line[0] == '%') || '=' !in line
  }

  /** One line of `readFromFile`: comments and lines without `=` are skipped, the rest split at the first `=`. */
  function ApplyLine<D>(s: Statistics<D>, line: string, dt: DoubleText<D>): Statistics<D> {
    if |line| > 0 && line[0] == '%' then s
    else
      var sep := IndexOf(line, '=');
      if sep == -1 then s
      else Assign(s, line[..sep], line[sep + 1..], dt)
  }

  function ApplyLines<D>(s: Statistics<D>, lines: seq<string>, dt: DoubleText<D>): Statistics<D>
    decreases |lines|
  {
    if |lines| == 0 then s else ApplyLines(ApplyLine(s, lines[0], dt), lines[1..], dt)
  }

  // ------------------------------------------------------------ scanner lines

  /** The characters a `Scanner` line ends at; `"\r\n"` together counts as one break. */
  predicate IsLineBreak(c: char) {
    c == '\n' || c == '\r' || c == '\U{85}' || c == '\U{2028}' || c == '\U{2029}'
  }

  /** A text without line breaks. */
  predicate Unbroken(s: string) {
    forall i | 0 <= i < |s| :: !IsLineBreak(s[i])
  }

  /** The first line break at or after `i`, or the end of the text. */
  function LineEnd(s: string, i: nat): (e: nat)
    requires i <= |s|
    ensures i <= e <= |s|
    ensures forall k | i <= k < e :: !IsLineBreak(s[k])
    ensures e < |s| ==> IsLineBreak(s[e])
    decreases |s| - i
  {
    if i == |s| || IsLineBreak(s[i]) then i else LineEnd(s, i + 1)
  }

  /**
   * The lines `nextLine` hands out one after the other: each runs up to the
   * next line break, which is consumed with it (`"\r\n"` as a whole); a last
   * line without a break is handed out too, and nothing follows a break at
   * the very end.
   */
  function ScannerLines(s: string): (lines: seq<string>)
    ensures forall i | 0 <= i < |lines| :: Unbroken(lines[i])
    decreases |s|
  {
    if s == "" then []
    else
      var e := LineEnd(s, 0);
      if e == |s| then [s]
      else
        var next := if s[e] == '\r' && e + 1 < |s| && s[e + 1] == '\n' then e + 2 else e + 1;
        [s[..e]] + ScannerLines(s[next..])
  }

  /** A line without breaks, followed by `brk` and a rest, is handed out first. */
  lemma ScannerLinesCons(a: string, brk: string, b: string)
    requires Unbroken(a)
    requires brk == "\n" || brk == "\r\n" || (|brk| == 1 && IsLineBreak(brk[0]) && (brk[0] == '\r' ==> b == "" || b[0] != '\n'))
    ensures ScannerLines(a + brk + b) == [a] + ScannerLines(b)
  {
    var s := a + brk + b;
    LineEndAt(s, 0, |a|);
    assert s[..|a|] == a;
    assert s[|a| + |brk|..] == b;
  }

  lemma {:induction false} LineEndAt(s: string, i: nat, e: nat)
    requires i <= e < |s| && IsLineBreak(s[e])
    requires forall k | i <= k < e :: !IsLineBreak(s[k])
    ensures LineEnd(s, i) == e
    decreases e - i
  {
    if i < e {
      LineEndAt(s, i + 1, e);
    }
  }

  /** Lines without breaks, each followed by `\n`, are handed out as they were. */
  lemma {:induction false} ScannerLinesTerminated(lines: seq<string>)
    requires forall i | 0 <= i < |lines| :: Unbroken(lines[i])
    ensures ScannerLines(Terminated(lines)) == lines
    decreases |lines|
  {
    if |lines| != 0 {
      var rest := Terminated(lines[1..]);
      assert Terminated(lines) == lines[0] + "\n" + rest;
      ScannerLinesCons(lines[0], "\n", rest);
      ScannerLinesTerminated(lines[1..]);
      assert lines == [lines[0]] + lines[1..];
    }
  }

  /** `readFromFile`: all fields are reset to -1, then every line the scanner hands out is applied in order. */
  function Read<D>(text: string, dt: DoubleText<D>): Statistics<D> {
    ApplyLines(Unknown(dt), ScannerLines(text), dt)
  }

  /** Comment lines and lines without `=` change nothing. */
  lemma ApplyLineIgnored<D>(s: Statistics<D>, line: string, dt: DoubleText<D>)
    requires Ignored(line)
    ensures ApplyLine(s, line, dt) == s
  {
  }

  /**
   * For a line that is not a comment, the key is everything before the first
   * `=` and the value everything after it.
   */
  lemma ApplyLineSetting<D>(s: Statistics<D>, key: string, value: string, dt: DoubleText<D>)
    requires '=' !in key && (key == "" || key[0] != '%')
    ensures ApplyLine(s, key + "=" + value, dt) == Assign(s, key, value, dt)
  {
    var line := key + "=" + value;
    assert line[..|key|] == key && line[|key| + 1..] == value;
    assert IndexOf(line, '=') == |key| by {
      IndexOfIs(line, '=', |key|);
    }
  }

  /** Applying a first line and then the rest. */
  lemma ApplyLinesCons<D>(s: Statistics<D>, line: string, rest: seq<string>, dt: DoubleText<D>)
    ensures ApplyLines(s, [line] + rest, dt) == ApplyLines(ApplyLine(s, line, dt), rest, dt)
  {
    assert ([line] + rest)[1..] == rest;
  }

  /** Applying two runs of lines is applying their concatenation. */
  lemma {:induction false} ApplyLinesAppend<D>(s: Statistics<D>, a: seq<string>, b: seq<string>, dt: DoubleText<D>)
    ensures ApplyLines(s, a + b, dt) == ApplyLines(ApplyLines(s, a, dt), b, dt)
    decreases |a|
  {
    if |a| == 0 {
      assert a + b == b;
    } else {
      assert (a + b)[0] == a[0] && (a + b)[1..] == a[1..] + b;
      ApplyLinesAppend(ApplyLine(s, a[0], dt), a[1..], b, dt);
    }
  }

  /** Lines that are all comments or free of `=` leave the statistics as they were. */
  lemma {:induction false} ApplyLinesIgnored<D>(s: Statistics<D>, lines: seq<string>, dt: DoubleText<D>)
    requires forall i | 0 <= i < |lines| :: Ignored(lines[i])
    ensures ApplyLines(s, lines, dt) == s
    decreases |lines|
  {
    if |lines| != 0 {
      ApplyLineIgnored(s, lines[0], dt);
      ApplyLinesIgnored(s, lines[1..], dt);
    }
  }

  /** Reading a file without a single setting line gives the defaults, whatever the object held before. */
  lemma ReadWithoutSettings<D>(text: string, dt: DoubleText<D>)
    requires forall i | 0 <= i < |ScannerLines(text)| :: Ignored(ScannerLines(text)[i])
    ensures Read(text, dt) == Unknown(dt)
  {
    ApplyLinesIgnored(Unknown(dt), ScannerLines(text), dt);
  }

  /** Reading an empty file gives the defaults. */
  lemma ReadEmpty<D>(dt: DoubleText<D>)
    ensures Read("", dt) == Unknown(dt)
  {
    ReadWithoutSettings("", dt);
  }

  /** A printed integer has no line break. */
  lemma IntToStringUnbroken(x: int)
    ensures Unbroken(IntToString(x))
  {
    IntToStringChars(x);
  }

  /** Joining texts without line breaks gives a text without line breaks. */
  lemma UnbrokenJoin(a: string, b: string)
    requires Unbroken(a) && Unbroken(b)
    ensures Unbroken(a + b)
  {
    forall i | 0 <= i < |a + b| ensures !IsLineBreak((a + b)[i]) {
      if i >= |a| {
        assert (a + b)[i] == b[i - |a|];
      }
    }
  }

  lemma UnbrokenJoin5(a: string, b: string, c: string, d: string, e: string)
    requires Unbroken(a) && Unbroken(b) && Unbroken(c) && Unbroken(d) && Unbroken(e)
    ensures Unbroken(a + b + c + d + e)
  {
    UnbrokenJoin(a, b);
    UnbrokenJoin(a + b, c);
    UnbrokenJoin(a + b + c, d);
    UnbrokenJoin(a + b + c + d, e);
  }

  /** A `key=value` line has no line break when its key and value have none. */
  lemma SettingUnbroken(key: string, value: string)
    requires Unbroken(key) && Unbroken(value)
    ensures Unbroken(key + "=" + value)
  {
    UnbrokenJoin(key, "=");
    UnbrokenJoin(key + "=", value);
  }

  /** The comment lines are single lines. */
  lemma CommentsUnbroken()
    ensures Unbroken(COMMENT_1) && Unbroken(COMMENT_2)
  {
    FirstCommentUnbroken();
    SecondCommentUnbroken();
  }

  lemma FirstCommentUnbroken()
    ensures Unbroken(COMMENT_1)
  {
    assert Unbroken("% This is the ");
    assert Unbroken("CollectionStatistics");
    assert Unbroken(" File for the index");
    assert Unbroken(" with the same ");
    assert Unbroken("filename.");
    UnbrokenJoin5("% This is the ", "CollectionStatistics", " File for the index", " with the same ", "filename.");
  }

  lemma SecondCommentUnbroken()
    ensures Unbroken(COMMENT_2)
  {
    assert Unbroken("% This file was ");
    assert Unbroken("automatically ");
    assert Unbroken("generated during ");
    assert Unbroken("index creation. ");
    assert Unbroken("Do not modify!");
    UnbrokenJoin5("% This file was ", "automatically ", "generated during ", "index creation. ", "Do not modify!");
  }

  /** The keys are single lines. */
  lemma KeysUnbroken()
    ensures Unbroken(DOCUMENTS) && Unbroken(TOKENS) && Unbroken(UNIQUE_TERMS) && Unbroken(AVERAGE_LENGTH)
  {
  }

  /** The scanner hands out the written file's lines. */
  lemma WriteSplit<D>(s: Statistics<D>, dt: DoubleText<D>)
    requires Unbroken(dt.render(s.averageDocumentLength))
    ensures ScannerLines(Write(s, dt)) == Lines(s, dt)
  {
    var lines := Lines(s, dt);
    CommentsUnbroken();
    KeysUnbroken();
    IntToStringUnbroken(s.numberOfDocuments);
    IntToStringUnbroken(s.numberOfTokens);
    IntToStringUnbroken(s.numberOfUniqueTerms);
    SettingUnbroken(DOCUMENTS, IntToString(s.numberOfDocuments));
    SettingUnbroken(TOKENS, IntToString(s.numberOfTokens));
    SettingUnbroken(UNIQUE_TERMS, IntToString(s.numberOfUniqueTerms));
    SettingUnbroken(AVERAGE_LENGTH, dt.render(s.averageDocumentLength));
    ScannerLinesTerminated(lines);
  }

  /** Six lines applied one after the other. */
  lemma ApplySix<D>(u: Statistics<D>, a: string, b: string, c: string, d: string, e: string, f: string, dt: DoubleText<D>)
    ensures ApplyLines(u, [a, b, c, d, e, f], dt)
         == ApplyLine(ApplyLine(ApplyLine(ApplyLine(ApplyLine(ApplyLine(u, a, dt), b, dt), c, dt), d, dt), e, dt), f, dt)
  {
    var u1 := ApplyLine(u, a, dt);
    var u2 := ApplyLine(u1, b, dt);
    var u3 := ApplyLine(u2, c, dt);
    var u4 := ApplyLine(u3, d, dt);
    var u5 := ApplyLine(u4, e, dt);
    ApplyLinesCons(u, a, [b, c, d, e, f], dt);
    assert [a] + [b, c, d, e, f] == [a, b, c, d, e, f];
    ApplyLinesCons(u1, b, [c, d, e, f], dt);
    assert [b] + [c, d, e, f] == [b, c, d, e, f];
    ApplyLinesCons(u2, c, [d, e, f], dt);
    assert [c] + [d, e, f] == [c, d, e, f];
    ApplyLinesCons(u3, d, [e, f], dt);
    assert [d] + [e, f] == [d, e, f];
    ApplyLinesCons(u4, e, [f], dt);
    assert [e] + [f] == [e, f];
    ApplyLinesCons(u5, f, [], dt);
    assert [f] + [] == [f];
  }

  /** The four keys differ already in length. */
  lemma KeyLengths()
    ensures |DOCUMENTS| == 17 && |TOKENS| == 14 && |UNIQUE_TERMS| == 19 && |AVERAGE_LENGTH| == 21
  {
  }

  /** The written `numberOfDocuments` line sets exactly that field. */
  lemma ApplyDocuments<D>(s: Statistics<D>, x: int, dt: DoubleText<D>)
    requires IsInt32(x)
    ensures ApplyLine(s, DOCUMENTS + "=" + IntToString(x), dt) == s.(numberOfDocuments := x)
  {
    ApplyLineSetting(s, DOCUMENTS, IntToString(x), dt);
    ParseIntegerOfIntToString(x, INT_MIN, INT_MAX);
  }

  /** The written `numberOfTokens` line sets exactly that field. */
  lemma ApplyTokens<D>(s: Statistics<D>, x: int, dt: DoubleText<D>)
    requires LONG_MIN <= x <= LONG_MAX
    ensures ApplyLine(s, TOKENS + "=" + IntToString(x), dt) == s.(numberOfTokens := x)
  {
    KeyLengths();
    ApplyLineSetting(s, TOKENS, IntToString(x), dt);
    ParseIntegerOfIntToString(x, LONG_MIN, LONG_MAX);
  }

  /** The written `numberOfUniqueTerms` line sets exactly that field. */
  lemma ApplyUniqueTerms<D>(s: Statistics<D>, x: int, dt: DoubleText<D>)
    requires IsInt32(x)
    ensures ApplyLine(s, UNIQUE_TERMS + "=" + IntToString(x), dt) == s.(numberOfUniqueTerms := x)
  {
    KeyLengths();
    ApplyLineSetting(s, UNIQUE_TERMS, IntToString(x), dt);
    ParseIntegerOfIntToString(x, INT_MIN, INT_MAX);
  }

  /** The written `averageDocumentLength` line sets that field to what its text parses to, if anything. */
  lemma ApplyAverage<D>(s: Statistics<D>, text: string, dt: DoubleText<D>)
    ensures ApplyLine(s, AVERAGE_LENGTH + "=" + text, dt)
         == match dt.parse(text) case Some(v) => s.(averageDocumentLength := v) case None => s
  {
    KeyLengths();
    ApplyLineSetting(s, AVERAGE_LENGTH, text, dt);
  }

  /**
   * Reading what `writeToFile` wrote restores the three counters; the average
   * comes back as whatever the `double` parser makes of its printed form, or
   * stays -1 when that does not parse.
   */
  lemma ReadRoundTrip<D>(s: Statistics<D>, dt: DoubleText<D>)
    requires InRange(s)
    requires Unbroken(dt.render(s.averageDocumentLength))
    ensures var r := Read(Write(s, dt), dt);
      && r.numberOfDocuments == s.numberOfDocuments
      && r.numberOfTokens == s.numberOfTokens
      && r.numberOfUniqueTerms == s.numberOfUniqueTerms
      && r.averageDocumentLength == (match dt.parse(dt.render(s.averageDocumentLength))
                                     case Some(v) => v
                                     case None => dt.minusOne)
    ensures dt.parse(dt.render(s.averageDocumentLength)) == Some(s.averageDocumentLength) ==> Read(Write(s, dt), dt) == s
  {
    var avg := dt.render(s.averageDocumentLength);
    var lines := Lines(s, dt);
    WriteSplit(s, dt);
    assert lines == [lines[0], lines[1], lines[2], lines[3], lines[4], lines[5]];
    var u := Unknown(dt);
    ApplySix(u, lines[0], lines[1], lines[2], lines[3], lines[4], lines[5], dt);
    ApplyLineIgnored(u, COMMENT_1, dt);
    ApplyLineIgnored(u, COMMENT_2, dt);
    ApplyDocuments(u, s.numberOfDocuments, dt);
    var s1 := u.(numberOfDocuments := s.numberOfDocuments);
    ApplyTokens(s1, s.numberOfTokens, dt);
    var s2 := s1.(numberOfTokens := s.numberOfTokens);
    ApplyUniqueTerms(s2, s.numberOfUniqueTerms, dt);
    var s3 := s2.(numberOfUniqueTerms := s.numberOfUniqueTerms);
    ApplyAverage(s3, avg, dt);
  }
}
