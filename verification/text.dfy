/**
 * String helpers with Java semantics: `indexOf`, `substring`, decimal
 * rendering of integers, `Integer.parseInt`/`Long.parseLong`, `split` and
 * truncating integer division. Java's 32- and 64-bit ranges are explicit
 * constants; everything else is unbounded.
 */
module Text {
  import opened Wrappers

  const INT_MIN: int := -0x8000_0000
  const INT_MAX: int := 0x7fff_ffff
  const LONG_MIN: int := -0x8000_0000_0000_0000
  const LONG_MAX: int := 0x7fff_ffff_ffff_ffff

  predicate IsInt32(x: int) { INT_MIN <= x <= INT_MAX }

  /** `String.indexOf(char)`: the first position of `c` in `s`, or -1. */
  function IndexOf(s: string, c: char): (r: int)
    ensures -1 <= r < |s|
    ensures r == -1 <==> c !in s
    ensures 0 <= r ==> s[r] == c && c !in s[..r]
  {
    if |s| == 0 then -1
    else if s[0] == c then 0
    else
      var i := IndexOf(s[1..], c);
      assert s == [s[0]] + s[1..];
      if i == -1 then -1
      else
        assert s[..i + 1] == [s[0]] + s[1..][..i];
        i + 1
  }

  /** The first occurrence is unique: any position holding `c` with no earlier `c` is the result. */
  lemma IndexOfIs(s: string, c: char, k: int)
    requires 0 <= k < |s| && s[k] == c && c !in s[..k]
    ensures IndexOf(s, c) == k
  {
    assert c in s;
  }

  /** `indexOf` over a concatenation looks in the left part first. */
  lemma IndexOfAppend(a: string, b: string, c: char)
    ensures IndexOf(a + b, c) ==
      (if c in a then IndexOf(a, c) else if c in b then |a| + IndexOf(b, c) else -1)
  {
    var s := a + b;
    if c in a {
      var k := IndexOf(a, c);
      assert s[..k] == a[..k];
      IndexOfIs(s, c, k);
    } else if c in b {
      var k := IndexOf(b, c);
      assert s[..|a| + k] == a + b[..k];
      IndexOfIs(s, c, |a| + k);
    } else {
      assert c !in s;
    }
  }

  /** `indexOf` of a prefix agrees with `indexOf` of the whole string up to the prefix length. */
  lemma IndexOfPrefix(p: string, rest: string, c: char)
    ensures var k := IndexOf(p + rest, c);
      IndexOf(p, c) == (if 0 <= k < |p| then k else -1)
  {
    IndexOfAppend(p, rest, c);
  }

  /** `String.substring(i, j)`; out-of-range indices raise StringIndexOutOfBoundsException. */
  function Substring(s: string, i: int, j: int): (r: Option<string>)
    ensures r.Some? <==> 0 <= i <= j <= |s|
    ensures r.Some? ==> r.value == s[i..j]
  {
    if 0 <= i <= j <= |s| then Some(s[i..j]) else None
  }

  // ---------------------------------------------------------------- decimal text

  predicate IsDigit(c: char) { '0' <= c <= '9' }

  predicate AllDigits(s: string) { forall i | 0 <= i < |s| :: IsDigit(s[i]) }

  function DigitChar(d: nat): (c: char)
    requires d < 10
    ensures IsDigit(c)
  {
    (48 + d) as char
  }

  function DigitValue(c: char): nat
    requires IsDigit(c)
  {
    c as int - 48
  }

  function Pow10(k: nat): (r: nat)
    ensures r >= 1
  {
    if k == 0 then 1 else 10 * Pow10(k - 1)
  }

  /** Decimal digits of a natural number, without leading zeros. */
  function NatToString(n: nat): (s: string)
    ensures 0 < |s| && AllDigits(s)
    decreases n
  {
    if n < 10 then [DigitChar(n)] else NatToString(n / 10) + [DigitChar(n % 10)]
  }

  /** Value of a string of decimal digits (the empty string has value 0). */
  function DigitsValue(s: string): nat
    requires AllDigits(s)
  {
    if |s| == 0 then 0 else 10 * DigitsValue(s[..|s| - 1]) + DigitValue(s[|s| - 1])
  }

  lemma {:induction false} DigitsValueOfNatToString(n: nat)
    ensures DigitsValue(NatToString(n)) == n
    decreases n
  {
    if n >= 10 {
      var s := NatToString(n);
      assert s[..|s| - 1] == NatToString(n / 10);
      DigitsValueOfNatToString(n / 10);
    }
  }

  lemma {:induction false} NatToStringLength(n: nat, k: nat)
    requires 1 <= k && n < Pow10(k)
    ensures |NatToString(n)| <= k
    decreases k
  {
    if n >= 10 {
      assert k >= 2;
      NatToStringLength(n / 10, k - 1);
    }
  }

  /** `String.valueOf(int)` / `Long.toString`: decimal text with a leading '-' for negatives. */
  function IntToString(x: int): (s: string)
    ensures 0 < |s|
  {
    if x < 0 then "-" + NatToString(-x) else NatToString(x)
  }

  /** Java integers print with at most 11 characters. */
  lemma IntToStringLength(x: int)
    requires IsInt32(x)
    ensures |IntToString(x)| <= 11
  {
    if x < 0 {
      NatToStringLength(-x, 10);
    } else {
      NatToStringLength(x, 10);
    }
  }

  /** No character of a printed integer is one of the separators used in the file formats. */
  predicate FreeOf(s: string, banned: set<char>) { forall i | 0 <= i < |s| :: s[i] !in banned }

  lemma IntToStringChars(x: int)
    ensures forall i | 0 <= i < |IntToString(x)| :: IsDigit(IntToString(x)[i]) || IntToString(x)[i] == '-'
  {
  }

  /**
   * `Integer.parseInt` (range [INT_MIN, INT_MAX]) and `Long.parseLong`
   * (range [LONG_MIN, LONG_MAX]) for ASCII digits: an optional '+' or '-', at
   * least one digit, and a value inside the range; anything else raises
   * NumberFormatException, modelled as `None`.
   */
  function ParseInteger(s: string, lo: int, hi: int): (r: Option<int>)
    ensures r.Some? ==> lo <= r.value <= hi
    ensures r.Some? ==> 0 < |s|
  {
    var signed := |s| > 0 && (s[0] == '-' || s[0] == '+');
    var digits := if signed then s[1..] else s;
    if |digits| == 0 || !AllDigits(digits) then None
    else
      var mag: int := DigitsValue(digits);
      var v := if |s| > 0 && s[0] == '-' then -mag else mag;
      if lo <= v <= hi then Some(v) else None
  }

  function ParseInt32(s: string): Option<int> { ParseInteger(s, INT_MIN, INT_MAX) }

  /** Parsing the printed form of an in-range integer gives it back. */
  lemma ParseIntegerOfIntToString(x: int, lo: int, hi: int)
    requires lo <= x <= hi
    ensures ParseInteger(IntToString(x), lo, hi) == Some(x)
  {
    var s := IntToString(x);
    if x < 0 {
      assert s[1..] == NatToString(-x);
      DigitsValueOfNatToString(-x);
    } else {
      DigitsValueOfNatToString(x);
    }
  }

  // ---------------------------------------------------------------- arithmetic

  function Abs(x: int): nat { if x < 0 then -x else x }

  /** Java's `/` on int and long: truncation toward zero (Dafny's `/` is Euclidean). */
  function JavaDiv(a: int, b: int): (q: int)
    requires b != 0
    ensures a >= 0 && b > 0 ==> q == a / b
    ensures (a < 0) != (b < 0) ==> q == -(Abs(a) / Abs(b))
  {
    var na: int := Abs(a);
    var nb: int := Abs(b);
    var m: int := na / nb;
    if (a < 0) != (b < 0) then -m else m
  }

  // ---------------------------------------------------------------- sequences of strings

  lemma ConcatAssoc(a: string, b: string, c: string)
    ensures (a + b) + c == a + (b + c)
  {
  }

  function Flatten(ss: seq<string>): string {
    if |ss| == 0 then "" else ss[0] + Flatten(ss[1..])
  }

  lemma {:induction false} FlattenAppend(a: seq<string>, b: seq<string>)
    ensures Flatten(a + b) == Flatten(a) + Flatten(b)
    decreases |a|
  {
    if |a| == 0 {
      assert a + b == b;
    } else {
      assert (a + b)[1..] == a[1..] + b;
      FlattenAppend(a[1..], b);
    }
  }

  lemma FlattenSnoc(a: seq<string>, s: string)
    ensures Flatten(a + [s]) == Flatten(a) + s
  {
    FlattenAppend(a, [s]);
    assert Flatten([s]) == s + Flatten([]);
  }

  /** Every piece of `s` between occurrences of `c` (Java `split` with a negative limit). */
  function SplitAll(s: string, c: char): (parts: seq<string>)
    ensures 0 < |parts|
    ensures forall i | 0 <= i < |parts| :: c !in parts[i]
    decreases |s|
  {
    var i := IndexOf(s, c);
    if i == -1 then [s] else [s[..i]] + SplitAll(s[i + 1..], c)
  }

  /** One line break after every line. */
  function Terminated(lines: seq<string>): string
    decreases |lines|
  {
    if |lines| == 0 then "" else lines[0] + "\n" + Terminated(lines[1..])
  }

  /** A separator-free piece followed by the separator splits off as the first part. */
  lemma SplitAllCons(a: string, c: char, b: string)
    requires c !in a
    ensures SplitAll(a + [c] + b, c) == [a] + SplitAll(b, c)
  {
    var s := a + [c] + b;
    assert s[..|a|] == a;
    IndexOfIs(s, c, |a|);
    assert s[|a| + 1..] == b;
  }

  /** A separator-free string is its own single part. */
  lemma SplitAllFree(a: string, c: char)
    requires c !in a
    ensures SplitAll(a, c) == [a]
  {
  }

  function DropTrailingEmpty(parts: seq<string>): (r: seq<string>)
    ensures |r| <= |parts| && r == parts[..|r|]
    ensures |r| == 0 || r[|r| - 1] != ""
    ensures forall i | |r| <= i < |parts| :: parts[i] == ""
  {
    if |parts| == 0 then parts
    else if parts[|parts| - 1] == "" then DropTrailingEmpty(parts[..|parts| - 1])
    else parts
  }

  /**
   * Java's `s.split(c)` for a one-character literal separator: trailing empty
   * pieces are removed, except that splitting the empty string gives one
   * empty piece.
   */
  function JavaSplit(s: string, c: char): seq<string> {
    if s == "" then [""] else DropTrailingEmpty(SplitAll(s, c))
  }
}
