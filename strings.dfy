/**
 * The handful of Python string operations the bot relies on, over `seq<char>`:
 * `str.strip()`, `str.split(sep)`, iterating the lines of a text file opened in
 * text mode (universal newlines), `str.isdigit()`, `int(...)` and `str(int)`.
 */
module Strings {
  import opened Options

  // ---------------------------------------------------------------------------
  // Whitespace and strip()
  // ---------------------------------------------------------------------------

  /** The whitespace this model strips: space, \t, \n, \v, \f, \r. */
  predicate IsSpace(c: char) {
    c == ' ' || '\t' <= c <= '\r'
  }

  /** `s.lstrip()`. */
  function TrimLeft(s: string): string {
    if s != [] && IsSpace(s[0]) then TrimLeft(s[1..]) else s
  }

  /** `s.rstrip()`. */
  function TrimRight(s: string): string {
    if s != [] && IsSpace(s[|s| - 1]) then TrimRight(s[..|s| - 1]) else s
  }

  /** `s.strip()`. */
  function Strip(s: string): string {
    TrimRight(TrimLeft(s))
  }

  /** `lstrip()` gives the longest suffix that does not start with whitespace. */
  lemma {:induction false} TrimLeftSpec(s: string)
    ensures |TrimLeft(s)| <= |s| && TrimLeft(s) == s[|s| - |TrimLeft(s)|..]
    ensures TrimLeft(s) == [] || !IsSpace(TrimLeft(s)[0])
    ensures forall i :: 0 <= i < |s| - |TrimLeft(s)| ==> IsSpace(s[i])
  {
    if s != [] && IsSpace(s[0]) {
      var t := s[1..];
      TrimLeftSpec(t);
      assert TrimLeft(s) == TrimLeft(t);
      assert t[|t| - |TrimLeft(t)|..] == s[|s| - |TrimLeft(t)|..];
      forall i | 0 <= i < |s| - |TrimLeft(s)|
        ensures IsSpace(s[i])
      {
        if i > 0 {
          assert s[i] == t[i - 1];
        }
      }
    }
  }

  /** `rstrip()` gives the longest prefix that does not end with whitespace. */
  lemma {:induction false} TrimRightSpec(s: string)
    ensures |TrimRight(s)| <= |s| && TrimRight(s) == s[..|TrimRight(s)|]
    ensures TrimRight(s) == [] || !IsSpace(TrimRight(s)[|TrimRight(s)| - 1])
    ensures forall i :: |TrimRight(s)| <= i < |s| ==> IsSpace(s[i])
  {
    if s != [] && IsSpace(s[|s| - 1]) {
      var t := s[..|s| - 1];
      TrimRightSpec(t);
      assert TrimRight(s) == TrimRight(t);
      assert t[..|TrimRight(t)|] == s[..|TrimRight(t)|];
      forall i | |TrimRight(s)| <= i < |s|
        ensures IsSpace(s[i])
      {
        if i < |s| - 1 {
          assert s[i] == t[i];
        }
      }
    }
  }

  /** Every character of `s` is whitespace. */
  predicate AllSpace(s: string) {
    forall k :: 0 <= k < |s| ==> IsSpace(s[k])
  }

  /** Whatever `strip()` returns is a contiguous piece of its argument, with
      only whitespace cut away on either side and none left at its ends. */
  lemma StripIsTrimmedInfix(s: string)
    ensures exists i, j :: 0 <= i <= j <= |s| && Strip(s) == s[i..j] && AllSpace(s[..i]) && AllSpace(s[j..])
    ensures Strip(s) == [] || (!IsSpace(Strip(s)[0]) && !IsSpace(Strip(s)[|Strip(s)| - 1]))
  {
    var l := TrimLeft(s);
    TrimLeftSpec(s);
    TrimRightSpec(l);
    var i := |s| - |l|;
    var j := i + |TrimRight(l)|;
    assert l == s[i..];
    assert TrimRight(l) == l[..j - i];
    assert Strip(s) == s[i..j];
    assert AllSpace(s[..i]);
    assert forall k :: j <= k < |s| ==> s[k] == l[k - i];
    assert AllSpace(s[j..]);
  }

  /** Every character `strip()` keeps was in its argument. */
  lemma StripChars(s: string, c: char)
    requires c in Strip(s)
    ensures c in s
  {
    var l := TrimLeft(s);
    TrimLeftSpec(s);
    TrimRightSpec(l);
    assert Strip(s) == l[..|Strip(s)|];
    assert l == s[|s| - |l|..];
  }

  /** A text with no whitespace at either end is left as it is. */
  lemma StripNoop(s: string)
    requires s == [] || (!IsSpace(s[0]) && !IsSpace(s[|s| - 1]))
    ensures Strip(s) == s
  {
  }

  // ---------------------------------------------------------------------------
  // split() and its inverse join()
  // ---------------------------------------------------------------------------

  /** The index of the first `c` in `s`, or `|s|` when there is none. */
  function IndexOf(s: string, c: char): (k: nat)
    ensures k <= |s|
    ensures k < |s| ==> s[k] == c
    ensures forall i :: 0 <= i < k ==> s[i] != c
  {
    if s == [] || s[0] == c then 0 else 1 + IndexOf(s[1..], c)
  }

  /** `s.split(sep)` for a one-character separator: always at least one
      field, and the empty text gives one empty field. */
  function Split(s: string, sep: char): (fields: seq<string>)
    ensures |fields| >= 1
    decreases |s|
  {
    var k := IndexOf(s, sep);
    if k == |s| then [s] else [s[..k]] + Split(s[k + 1..], sep)
  }

  /** `sep.join(fields)`. */
  function Join(fields: seq<string>, sep: char): string
    requires |fields| >= 1
  {
    if |fields| == 1 then fields[0] else fields[0] + [sep] + Join(fields[1..], sep)
  }

  /** How many times `c` occurs in `s`. */
  function Count(s: string, c: char): nat {
    if s == [] then 0 else (if s[0] == c then 1 else 0) + Count(s[1..], c)
  }

  /** Splitting and joining on the same separator gives the text back. */
  lemma {:induction false} SplitJoin(s: string, sep: char)
    ensures Join(Split(s, sep), sep) == s
    decreases |s|
  {
    var k := IndexOf(s, sep);
    if k < |s| {
      var rest := Split(s[k + 1..], sep);
      SplitJoin(s[k + 1..], sep);
      assert Split(s, sep) == [s[..k]] + rest;
      assert ([s[..k]] + rest)[1..] == rest;
      assert Join(Split(s, sep), sep) == s[..k] + [sep] + s[k + 1..];
      assert s == s[..k] + [sep] + s[k + 1..];
    }
  }

  /** A split has one field more than the text has separators. */
  lemma {:induction false} SplitCount(s: string, sep: char)
    ensures |Split(s, sep)| == Count(s, sep) + 1
    decreases |s|
  {
    var k := IndexOf(s, sep);
    CountSplitsAt(s, k, sep);
    if k < |s| {
      SplitCount(s[k + 1..], sep);
    }
  }

  /** Counting over a prefix free of `c` followed by the rest. */
  lemma {:induction false} CountSplitsAt(s: string, k: nat, c: char)
    requires k <= |s|
    requires forall i :: 0 <= i < k ==> s[i] != c
    ensures Count(s, c) == (if k < |s| && s[k] == c then 1 else 0) + (if k < |s| then Count(s[k + 1..], c) else 0)
    decreases k
  {
    if k == |s| {
      CountNone(s, c);
    } else if k > 0 {
      CountSplitsAt(s[1..], k - 1, c);
      assert s[1..][k - 1 + 1..] == s[k + 1..];
    }
  }

  lemma {:induction false} CountNone(s: string, c: char)
    requires forall i :: 0 <= i < |s| ==> s[i] != c
    ensures Count(s, c) == 0
  {
    if s != [] {
      CountNone(s[1..], c);
    }
  }

  /** No field of a split holds the separator, and every character of a field
      comes from the split text. */
  lemma {:induction false} SplitFields(s: string, sep: char, i: nat, c: char)
    requires i < |Split(s, sep)|
    requires c in Split(s, sep)[i]
    ensures c != sep && c in s
    decreases |s|
  {
    var k := IndexOf(s, sep);
    if k < |s| {
      if i == 0 {
        assert c in s[..k];
      } else {
        SplitFields(s[k + 1..], sep, i - 1, c);
        assert c in s[k + 1..];
      }
    }
  }

  /** Splitting a text whose first field is free of the separator. */
  lemma SplitCons(a: string, sep: char, b: string)
    requires sep !in a
    ensures Split(a + [sep] + b, sep) == [a] + Split(b, sep)
  {
    var s := a + [sep] + b;
    IndexOfFirst(a, sep, [sep] + b);
    assert IndexOf([sep] + b, sep) == 0;
    assert s == a + ([sep] + b);
    assert IndexOf(s, sep) == |a|;
    assert s[..|a|] == a;
    assert s[|a| + 1..] == b;
  }

  /** A text free of the separator is a single field. */
  lemma SplitNone(a: string, sep: char)
    requires sep !in a
    ensures Split(a, sep) == [a]
  {
    IndexOfFirst(a, sep, []);
    assert a + [] == a;
  }

  /** The first `c` of `a + b` is that of `b` when `a` has none. */
  lemma {:induction false} IndexOfFirst(a: string, c: char, b: string)
    requires c !in a
    ensures IndexOf(a + b, c) == |a| + IndexOf(b, c)
  {
    if a != [] {
      assert (a + b)[1..] == a[1..] + b;
      IndexOfFirst(a[1..], c, b);
    } else {
      assert a + b == b;
    }
  }

  // ---------------------------------------------------------------------------
  // Text files: universal newlines and line iteration
  // ---------------------------------------------------------------------------

  /** What reading a file in text mode yields: every "\r\n" and every lone
      "\r" becomes "\n"; all other characters pass through. */
  function Universal(s: string): (r: string)
    ensures '\r' !in r
    decreases |s|
  {
    if s == [] then []
    else if s[0] == '\r' then
      "\n" + (if |s| > 1 && s[1] == '\n' then Universal(s[2..]) else Universal(s[1..]))
    else [s[0]] + Universal(s[1..])
  }

  /** A text without carriage returns reads back unchanged. */
  lemma {:induction false} UniversalNoop(s: string)
    requires '\r' !in s
    ensures Universal(s) == s
  {
    if s != [] {
      assert s == [s[0]] + s[1..];
      UniversalNoop(s[1..]);
    }
  }

  /** `for line in f` once the text is read: the pieces between "\n"s, where
      a final "\n" does not start one more (empty) line. */
  function Lines(s: string): (ls: seq<string>)
    decreases |s|
  {
    if s == [] then []
    else
      var k := IndexOf(s, '\n');
      if k == |s| then [s] else [s[..k]] + Lines(s[k + 1..])
  }

  /** A line terminated by "\n" is the first line of the text. */
  lemma LinesCons(l: string, t: string)
    requires '\n' !in l
    ensures Lines(l + "\n" + t) == [l] + Lines(t)
  {
    var s := l + "\n" + t;
    IndexOfFirst(l, '\n', "\n" + t);
    assert IndexOf("\n" + t, '\n') == 0;
    assert s == l + ("\n" + t);
    assert IndexOf(s, '\n') == |l|;
    assert s[..|l|] == l;
    assert s[|l| + 1..] == t;
  }

  /** The text of a file written line by line, each line followed by "\n". */
  function Terminated(ls: seq<string>): string {
    if ls == [] then "" else ls[0] + "\n" + Terminated(ls[1..])
  }

  /** Writing one more line appends it. */
  lemma {:induction false} TerminatedAppend(ls: seq<string>, l: string)
    ensures Terminated(ls + [l]) == Terminated(ls) + l + "\n"
  {
    if ls == [] {
      assert [l][1..] == [];
    } else {
      assert (ls + [l])[1..] == ls[1..] + [l];
      TerminatedAppend(ls[1..], l);
    }
  }

  /** Writing the lines one at a time: after line `i` the text holds lines
      `0..i`. */
  lemma TerminatedStep(ls: seq<string>, i: nat)
    requires i < |ls|
    ensures Terminated(ls[..i + 1]) == Terminated(ls[..i]) + ls[i] + "\n"
  {
    assert ls[..i + 1] == ls[..i] + [ls[i]];
    TerminatedAppend(ls[..i], ls[i]);
  }

  /** Lines written with `Terminated` read back as those lines, and no "\r"
      appears that the lines did not hold. */
  lemma {:induction false} LinesOfTerminated(ls: seq<string>)
    requires forall i :: 0 <= i < |ls| ==> '\n' !in ls[i] && '\r' !in ls[i]
    ensures Lines(Terminated(ls)) == ls
    ensures '\r' !in Terminated(ls)
  {
    if ls != [] {
      LinesOfTerminated(ls[1..]);
      LinesCons(ls[0], Terminated(ls[1..]));
      assert [ls[0]] + ls[1..] == ls;
    }
  }

  /** No line holds "\n", and every character of a line comes from the text. */
  lemma {:induction false} LinesChars(s: string, i: nat, c: char)
    requires i < |Lines(s)|
    requires c in Lines(s)[i]
    ensures c != '\n' && c in s
    decreases |s|
  {
    var k := IndexOf(s, '\n');
    if k < |s| {
      if i == 0 {
        assert c in s[..k];
      } else {
        LinesChars(s[k + 1..], i - 1, c);
        assert c in s[k + 1..];
      }
    }
  }

  // ---------------------------------------------------------------------------
  // Digits, isdigit(), int() and str(int)
  // ---------------------------------------------------------------------------

  predicate IsDigit(c: char) {
    '0' <= c <= '9'
  }

  /** `s.isdigit()` over ASCII digits: true only for a non-empty all-digit text. */
  predicate IsDigits(s: string) {
    |s| > 0 && forall i :: 0 <= i < |s| ==> IsDigit(s[i])
  }

  function DigitChar(d: nat): (c: char)
    requires d < 10
    ensures IsDigit(c) && c as int - '0' as int == d
  {
    ('0' as int + d) as char
  }

  /** The number that a text of decimal digits denotes (leading zeros allowed). */
  function DigitsValue(s: string): nat
    requires forall i :: 0 <= i < |s| ==> IsDigit(s[i])
  {
    if s == [] then 0
    else
      assert IsDigit(s[|s| - 1]);
      10 * DigitsValue(s[..|s| - 1]) + (s[|s| - 1] as int - '0' as int)
  }

  /** The decimal digits of `n`, most significant first, without leading zeros. */
  function NatToString(n: nat): (s: string)
    ensures IsDigits(s)
  {
    if n < 10 then [DigitChar(n)] else NatToString(n / 10) + [DigitChar(n % 10)]
  }

  /** `str(n)` for an int: a minus sign for negatives, then the digits. */
  function IntToString(n: int): (s: string)
    ensures |s| > 0 && !IsSpace(s[0]) && !IsSpace(s[|s| - 1])
    ensures forall i :: 0 <= i < |s| ==> IsDigit(s[i]) || s[i] == '-'
  {
    if n < 0 then "-" + NatToString(-n) else NatToString(n)
  }

  /** `int(s)`: surrounding whitespace is ignored, then an optional sign and
      one or more decimal digits; anything else is a `ValueError` (None). */
  function ParseInt(s: string): Option<int> {
    var t := Strip(s);
    if |t| > 0 && (t[0] == '-' || t[0] == '+') then
      if IsDigits(t[1..]) then
        var v: int := DigitsValue(t[1..]);
        Some(if t[0] == '-' then -v else v)
      else None
    else if IsDigits(t) then Some(DigitsValue(t))
    else None
  }

  /** Reading the digits of `n` gives `n` back. */
  lemma {:induction false} NatToStringValue(n: nat)
    ensures DigitsValue(NatToString(n)) == n
  {
    if n >= 10 {
      var s := NatToString(n);
      NatToStringValue(n / 10);
      assert s[..|s| - 1] == NatToString(n / 10);
    }
  }

  /** `int(str(n)) == n`. */
  lemma IntRoundTrip(n: int)
    ensures ParseInt(IntToString(n)) == Some(n)
  {
    var s := IntToString(n);
    StripNoop(s);
    if n < 0 {
      NatToStringValue(-n);
      assert s[1..] == NatToString(-n);
    } else {
      NatToStringValue(n);
    }
  }
}
