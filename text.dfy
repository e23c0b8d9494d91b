/**
 * The string clean-up the assembler applies to each source line before it
 * parses anything: comments and whitespace are removed, empty lines are
 * dropped, and String.replace removes a character wherever it occurs.
 */
module Text {

  /** String.replace(c, ""): every occurrence of c is removed, the rest kept in order. */
  function RemoveAll(s: string, c: char): (r: string)
    ensures c !in r && |r| <= |s|
    ensures c !in s ==> r == s
  {
    if s == [] then []
    else
      var rest := RemoveAll(s[1..], c);
      assert s == [s[0]] + s[1..];
      if s[0] == c then rest else [s[0]] + rest
  }

  /** Removing from a concatenation removes from each part. */
  lemma {:induction false} RemoveAllAppend(a: string, b: string, c: char)
    ensures RemoveAll(a + b, c) == RemoveAll(a, c) + RemoveAll(b, c)
  {
    if a != [] {
      RemoveAllAppend(a[1..], b, c);
      assert (a + b)[1..] == a[1..] + b;
    } else {
      assert a + b == b;
    }
  }

  /** A single character is removed exactly when it is c. */
  lemma RemoveAllOne(x: char, c: char)
    ensures RemoveAll([x], c) == if x == c then [] else [x]
  {
    assert [x][1..] == [];
  }

  // ---------------------------------------------------------------------
  // replaceAll("//.*", "")

  /** The characters the regular expression '.' does not match. */
  predicate IsLineTerminator(ch: char) {
    ch == '\n' || ch == '\r' || ch == '\U{0085}' || ch == '\U{2028}' || ch == '\U{2029}'
  }

  predicate StartsComment(s: string) {
    2 <= |s| && s[0] == '/' && s[1] == '/'
  }

  /** What ".*" matches at the start of s, dropped: s from its first line terminator on. */
  function FromTerminator(s: string): (r: string)
    ensures |r| <= |s| && r == s[|s| - |r|..]
    ensures r == [] || IsLineTerminator(r[0])
    ensures forall i :: 0 <= i < |s| - |r| ==> !IsLineTerminator(s[i])
  {
    if s == [] || IsLineTerminator(s[0]) then s else FromTerminator(s[1..])
  }

  /**
   * replaceAll("//.*", ""): scanning left to right, each "//" is removed
   * together with everything up to the next line terminator.
   */
  function StripComments(s: string): (r: string)
    ensures |r| <= |s|
    decreases |s|
  {
    if s == [] then []
    else if StartsComment(s) then StripComments(FromTerminator(s[2..]))
    else [s[0]] + StripComments(s[1..])
  }

  /** A line that holds none of the characters '.' does not match. */
  predicate OneLine(s: string) {
    forall i :: 0 <= i < |s| ==> !IsLineTerminator(s[i])
  }

  /** On one line, ".*" runs to the end. */
  lemma CommentToEnd(s: string)
    requires OneLine(s) && StartsComment(s)
    ensures StripComments(s) == []
  {
    OneLineSuffix(s, 2);
    NoTerminator(s[2..]);
  }

  lemma OneLineSuffix(s: string, k: nat)
    requires OneLine(s) && k <= |s|
    ensures OneLine(s[k..])
  {
    assert forall i :: 0 <= i < |s| - k ==> s[k..][i] == s[k + i];
  }

  /** On one line there is no terminator to stop at. */
  lemma {:induction false} NoTerminator(s: string)
    requires OneLine(s)
    ensures FromTerminator(s) == []
  {
    if s != [] {
      OneLineSuffix(s, 1);
      NoTerminator(s[1..]);
    }
  }

  /**
   * On a line without line terminators (a line reader already splits at
   * '\n' and '\r'), the comment is cut at the first "//": the result is
   * the prefix of the line before which no "//" starts and, when shorter
   * than the line, is followed by "//".
   */
  lemma {:induction false} StripCommentsCuts(s: string)
    requires OneLine(s)
    ensures var r := StripComments(s);
      && r <= s
      && (forall i :: 0 <= i < |r| ==> !StartsComment(s[i..]))
      && (|r| < |s| ==> StartsComment(s[|r|..]))
  {
    if s == [] {
    } else if StartsComment(s) {
      CommentToEnd(s);
      assert s[0..] == s;
    } else {
      OneLineSuffix(s, 1);
      StripCommentsCuts(s[1..]);
      var rest := StripComments(s[1..]);
      var r := [s[0]] + rest;
      assert r == StripComments(s);
      forall i | 0 < i < |r|
        ensures !StartsComment(s[i..])
      {
        assert s[i..] == s[1..][i - 1..];
      }
      if |r| < |s| {
        assert s[|r|..] == s[1..][|rest|..];
      }
    }
  }

  // ---------------------------------------------------------------------
  // replaceAll("\\s", "")

  /** The characters \s matches: space, tab, newline, vertical tab, form feed, carriage return. */
  predicate IsWhitespace(ch: char) {
    ch == ' ' || ch == '\t' || ch == '\n' || ch == '\U{000B}' || ch == '\U{000C}' || ch == '\r'
  }

  function RemoveWhitespace(s: string): (r: string)
    ensures |r| <= |s|
    ensures forall i :: 0 <= i < |r| ==> !IsWhitespace(r[i])
    ensures (forall i :: 0 <= i < |s| ==> !IsWhitespace(s[i])) ==> r == s
  {
    if s == [] then []
    else
      var rest := RemoveWhitespace(s[1..]);
      assert s == [s[0]] + s[1..];
      if IsWhitespace(s[0]) then rest else [s[0]] + rest
  }

  /** A single character is removed exactly when it is whitespace. */
  lemma RemoveWhitespaceOne(x: char)
    ensures RemoveWhitespace([x]) == if IsWhitespace(x) then [] else [x]
  {
    assert [x][1..] == [];
  }

  /** Removing whitespace from a concatenation removes it from each part. */
  lemma {:induction false} RemoveWhitespaceAppend(a: string, b: string)
    ensures RemoveWhitespace(a + b) == RemoveWhitespace(a) + RemoveWhitespace(b)
  {
    if a != [] {
      RemoveWhitespaceAppend(a[1..], b);
      assert (a + b)[0] == a[0] && (a + b)[1..] == a[1..] + b;
    } else {
      assert a + b == b;
    }
  }

  // ---------------------------------------------------------------------
  // The pipeline of main: strip comments, strip whitespace, drop empty lines

  function Normalize(line: string): string {
    RemoveWhitespace(StripComments(line))
  }

  /** A line as the passes see it: not empty and free of whitespace. */
  predicate Clean(line: string) {
    line != [] && forall i :: 0 <= i < |line| ==> !IsWhitespace(line[i])
  }

  /** The lines the two passes see. */
  function Prepare(raw: seq<string>): (lines: seq<string>)
    ensures |lines| <= |raw|
  {
    if raw == [] then []
    else
      var line := Normalize(raw[0]);
      var rest := Prepare(raw[1..]);
      if line == [] then rest else [line] + rest
  }

  /** Every prepared line is clean. */
  lemma {:induction false} PrepareClean(raw: seq<string>)
    ensures forall k :: 0 <= k < |Prepare(raw)| ==> Clean(Prepare(raw)[k])
  {
    if raw != [] {
      PrepareClean(raw[1..]);
    }
  }

  /** Preparing is done line by line, so it distributes over concatenation and keeps order. */
  lemma {:induction false} PrepareAppend(a: seq<string>, b: seq<string>)
    ensures Prepare(a + b) == Prepare(a) + Prepare(b)
  {
    if a != [] {
      var ab := a + b;
      assert ab[0] == a[0] && ab[1..] == a[1..] + b;
      PrepareAppend(a[1..], b);
      var line := Normalize(a[0]);
      if line != [] {
        calc {
          Prepare(ab);
          [line] + Prepare(a[1..] + b);
          [line] + (Prepare(a[1..]) + Prepare(b));
          ([line] + Prepare(a[1..])) + Prepare(b);
        }
      }
    } else {
      assert a + b == b;
    }
  }

  /** A line that is only a comment, or blank, disappears; any other line survives as its normal form. */
  lemma PrepareLine(raw: string)
    ensures Prepare([raw]) == if Normalize(raw) == [] then [] else [Normalize(raw)]
  {
    assert [raw][1..] == [];
  }
}
