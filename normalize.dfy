/**
 * The regular-expression replace chains that lib/document-processor.ts applies to the text
 * a PDF, DOCX or OCR library returns.  Each `replace` of the chains is one function here;
 * each walks the string from the left, as a global replace does, and yields the same
 * string as the regular expression.
 */
module Normalize {
  import opened Text

  /** `.replace(/\r\n/g, '\n')` */
  function ReplaceCrLf(s: string): (r: string)
    ensures |r| <= |s|
    ensures forall c :: c in r ==> c in s
    ensures '\r' !in s ==> r == s
  {
    if s == [] then []
    else if |s| >= 2 && s[0] == '\r' && s[1] == '\n' then "\n" + ReplaceCrLf(s[2..])
    else [s[0]] + ReplaceCrLf(s[1..])
  }

  /** `.replace(/\r/g, '\n')` */
  function ReplaceCr(s: string): (r: string)
    ensures |r| == |s| && '\r' !in r
    ensures forall i :: 0 <= i < |s| ==> r[i] == if s[i] == '\r' then '\n' else s[i]
  {
    if s == [] then [] else [if s[0] == '\r' then '\n' else s[0]] + ReplaceCr(s[1..])
  }

  /** The two line-break rewrites every chain starts with: "\r\n" and a lone "\r" both become "\n". */
  function NormalizeLineBreaks(s: string): (r: string)
    ensures '\r' !in r
    ensures forall c :: c in r ==> c in s || c == '\n'
    ensures '\r' !in s ==> r == s
  {
    ReplaceCr(ReplaceCrLf(s))
  }

  /** No two adjacent spaces. */
  predicate NoDoubleSpace(s: string) {
    forall i :: 0 <= i < |s| - 1 ==> !(s[i] == ' ' && s[i + 1] == ' ')
  }

  /** No three adjacent line feeds. */
  predicate NoTripleNewline(s: string) {
    forall i :: 0 <= i < |s| - 2 ==> !(s[i] == '\n' && s[i + 1] == '\n' && s[i + 2] == '\n')
  }

  /**
   * `.replace(/ +/g, ' ')`: every run of spaces becomes one space.  Of each run this keeps
   * the last space and drops those followed by another space.
   */
  function CollapseSpaces(s: string): (r: string)
    ensures |r| <= |s|
    ensures s != [] ==> r != [] && r[0] == s[0]
    ensures forall c :: c in r ==> c in s
    ensures NoDoubleSpace(r)
  {
    if s == [] then []
    else if |s| >= 2 && s[0] == ' ' && s[1] == ' ' then CollapseSpaces(s[1..])
    else [s[0]] + CollapseSpaces(s[1..])
  }

  /**
   * `.replace(/\n{3,}/g, '\n\n')`: every run of three or more line feeds becomes two.  Of
   * each such run this drops the line feeds followed by two more.
   */
  function CollapseNewlines(s: string): (r: string)
    ensures |r| <= |s|
    ensures s != [] ==> r != [] && r[0] == s[0]
    ensures forall c :: c in r ==> c in s
    ensures NoTripleNewline(r)
  {
    if s == [] then []
    else if |s| >= 3 && s[0] == '\n' && s[1] == '\n' && s[2] == '\n' then CollapseNewlines(s[1..])
    else
      var t := CollapseNewlines(s[1..]);
      assert |s| >= 3 && s[0] == '\n' && s[1] == '\n' ==> t[0] == '\n' && t == [s[1]] + CollapseNewlines(s[2..]);
      [s[0]] + t
  }

  /**
   * `.replace(/\s+/g, ' ')`: every run of whitespace characters becomes one space, so the
   * only whitespace left is single spaces.
   */
  function CollapseWhitespace(s: string): (r: string)
    ensures |r| <= |s|
    ensures s != [] ==> r != [] && r[0] == (if IsSpace(s[0]) then ' ' else s[0])
    ensures forall c :: c in r ==> c in s || c == ' '
    ensures forall i :: 0 <= i < |r| && IsSpace(r[i]) ==> r[i] == ' '
    ensures NoDoubleSpace(r)
  {
    if s == [] then []
    else if IsSpace(s[0]) && |s| >= 2 && IsSpace(s[1]) then CollapseWhitespace(s[1..])
    else [if IsSpace(s[0]) then ' ' else s[0]] + CollapseWhitespace(s[1..])
  }

  /** `.replace(/[\|\[\]]/g, '')`: drops the common OCR artifacts '|', '[' and ']'. */
  function RemoveArtifacts(s: string): (r: string)
    ensures '|' !in r && '[' !in r && ']' !in r
    ensures forall c :: c in r ==> c in s
  {
    if s == [] then []
    else if s[0] == '|' || s[0] == '[' || s[0] == ']' then RemoveArtifacts(s[1..])
    else [s[0]] + RemoveArtifacts(s[1..])
  }

  /** Keeping only whitespace-bounded slices keeps the absence of adjacent spaces and line feeds. */
  lemma SliceKeepsRuns(s: string, a: nat, b: nat)
    requires a <= b <= |s|
    ensures NoDoubleSpace(s) ==> NoDoubleSpace(s[a..b])
    ensures NoTripleNewline(s) ==> NoTripleNewline(s[a..b])
  {
    var t := s[a..b];
    assert forall i :: 0 <= i < |t| ==> t[i] == s[a + i];
  }

  /** Collapsing spaces never joins line feeds: it keeps one space of every run. */
  lemma {:induction false} CollapseSpacesKeepsNewlines(s: string)
    requires NoTripleNewline(s)
    ensures NoTripleNewline(CollapseSpaces(s))
    decreases |s|
  {
    if s != [] {
      assert NoTripleNewline(s[1..]) by { SliceKeepsRuns(s, 1, |s|); }
      CollapseSpacesKeepsNewlines(s[1..]);
      if !(|s| >= 2 && s[0] == ' ' && s[1] == ' ') {
        var t := CollapseSpaces(s[1..]);
        if s[0] == '\n' && |t| >= 2 && t[0] == '\n' {
          assert s[1] == '\n';
          assert t == [s[1]] + CollapseSpaces(s[2..]);
          assert t[1] == s[2];
        }
      }
    }
  }

  /** When there is nothing to collapse, `CollapseSpaces` changes nothing. */
  lemma {:induction false} CollapseSpacesStable(s: string)
    requires NoDoubleSpace(s)
    ensures CollapseSpaces(s) == s
    decreases |s|
  {
    if s != [] {
      SliceKeepsRuns(s, 1, |s|);
      CollapseSpacesStable(s[1..]);
      assert !(|s| >= 2 && s[0] == ' ' && s[1] == ' ');
      assert CollapseSpaces(s) == [s[0]] + CollapseSpaces(s[1..]);
      assert s == [s[0]] + s[1..];
    }
  }

  /** When there is nothing to collapse, `CollapseNewlines` changes nothing. */
  lemma {:induction false} CollapseNewlinesStable(s: string)
    requires NoTripleNewline(s)
    ensures CollapseNewlines(s) == s
    decreases |s|
  {
    if s != [] {
      SliceKeepsRuns(s, 1, |s|);
      CollapseNewlinesStable(s[1..]);
    }
  }

  /** A string without line feeds has no run of them to collapse. */
  lemma NoNewlineNoTriple(s: string)
    requires '\n' !in s
    ensures NoTripleNewline(s)
  {
    assert forall i :: 0 <= i < |s| ==> s[i] != '\n';
  }

  /** The length of the run of `\w` characters `s` starts with. */
  function WordRun(s: string): (n: nat)
    ensures n <= |s|
    ensures s != [] && IsWordChar(s[0]) ==> n >= 1
  {
    if s != [] && IsWordChar(s[0]) then 1 + WordRun(s[1..]) else 0
  }

  /**
   * `.replace(/(\w+)-\n(\w+)/g, '$1$2')`: a word broken by a hyphen at a line end is joined
   * again.  A match can only start at the beginning of a run of word characters, must take
   * the whole run before the hyphen, and the second group takes the whole run after the
   * line feed; scanning resumes after it.
   */
  function JoinHyphenated(s: string): (r: string)
    ensures |r| <= |s|
    decreases |s|
  {
    if s == [] then []
    else if !IsWordChar(s[0]) then [s[0]] + JoinHyphenated(s[1..])
    else if HyphenBreakAt(s, WordRun(s)) then
      s[..WordRun(s)] + s[WordRun(s) + 2..SecondWordEnd(s, WordRun(s))] + JoinHyphenated(s[SecondWordEnd(s, WordRun(s))..])
    else s[..WordRun(s)] + JoinHyphenated(s[WordRun(s)..])
  }

  /** `-\n` at position `j`, followed by a word character. */
  predicate HyphenBreakAt(s: string, j: nat) {
    j + 2 < |s| && s[j] == '-' && s[j + 1] == '\n' && IsWordChar(s[j + 2])
  }

  /** Where the word after a hyphen break at `j` ends. */
  function SecondWordEnd(s: string, j: nat): (k: nat)
    requires HyphenBreakAt(s, j)
    ensures j + 2 < k <= |s|
  {
    j + 2 + WordRun(s[j + 2..])
  }

  /** Joining hyphenated words only removes characters. */
  lemma {:induction false} JoinHyphenatedChars(s: string)
    ensures forall c :: c in JoinHyphenated(s) ==> c in s
    decreases |s|
  {
    if s != [] {
      if !IsWordChar(s[0]) {
        JoinHyphenatedChars(s[1..]);
      } else {
        var j := WordRun(s);
        if HyphenBreakAt(s, j) {
          var k := SecondWordEnd(s, j);
          JoinHyphenatedChars(s[k..]);
          assert forall c :: c in s[..j] || c in s[j + 2..k] || c in s[k..] ==> c in s;
        } else {
          JoinHyphenatedChars(s[j..]);
          assert forall c :: c in s[..j] || c in s[j..] ==> c in s;
        }
      }
    }
  }

  /** Two words split by a hyphen and a line feed at position `n` come back as one word. */
  lemma JoinHyphenatedWord(s: string, n: nat)
    requires 0 < n && n + 2 < |s| && s[n] == '-' && s[n + 1] == '\n'
    requires forall i :: 0 <= i < n ==> IsWordChar(s[i])
    requires forall i :: n + 2 <= i < |s| ==> IsWordChar(s[i])
    ensures JoinHyphenated(s) == s[..n] + s[n + 2..]
  {
    WordRunOf(s, n);
    assert IsWordChar(s[0]) && HyphenBreakAt(s, n);
    var b := s[n + 2..];
    assert forall i :: 0 <= i < |b| ==> b[i] == s[n + 2 + i];
    WordRunOf(b, |b|);
    assert SecondWordEnd(s, n) == |s|;
    JoinHyphenatedLast(s, n);
  }

  /** A hyphen break whose second word runs to the end is the last thing joined. */
  lemma JoinHyphenatedLast(s: string, n: nat)
    requires s != [] && IsWordChar(s[0]) && WordRun(s) == n && HyphenBreakAt(s, n)
    requires SecondWordEnd(s, n) == |s|
    ensures JoinHyphenated(s) == s[..n] + s[n + 2..]
  {
    assert s[|s|..] == [];
  }

  lemma {:induction false} WordRunOf(s: string, n: nat)
    requires n <= |s|
    requires forall i :: 0 <= i < n ==> IsWordChar(s[i])
    requires n < |s| ==> !IsWordChar(s[n])
    ensures WordRun(s) == n
    decreases n
  {
    if n > 0 {
      WordRunOf(s[1..], n - 1);
    }
  }

  /** The characters `[a-z,.]` that may end a line joined to the next one. */
  predicate JoinsNextLine(c: char) {
    IsLowerAscii(c) || c == ',' || c == '.'
  }

  predicate EndsSentence(c: char) {
    c == '.' || c == '!' || c == '?'
  }

  /** `.replace(/([a-z,.])\n(?=[a-z])/g, '$1 ')`: a line break inside a lower-case sentence becomes a space. */
  function JoinLines(s: string): (r: string)
    ensures |r| == |s|
    ensures s != [] ==> r[0] == s[0]
    ensures forall i :: 0 <= i < |s| ==> r[i] == s[i] || (s[i] == '\n' && r[i] == ' ')
    decreases |s|
  {
    if |s| >= 3 && JoinsNextLine(s[0]) && s[1] == '\n' && IsLowerAscii(s[2]) then
      var t := JoinLines(s[2..]);
      assert forall i :: 2 <= i < |s| ==> ([s[0], ' '] + t)[i] == t[i - 2] && s[2..][i - 2] == s[i];
      [s[0], ' '] + t
    else if s == [] then []
    else
      var t := JoinLines(s[1..]);
      assert forall i :: 1 <= i < |s| ==> ([s[0]] + t)[i] == t[i - 1] && s[1..][i - 1] == s[i];
      [s[0]] + t
  }

  /** A line break the join pattern would still rewrite: `[a-z,.]`, a '\n', then `[a-z]`. */
  predicate JoinableBreakAt(s: string, i: nat) {
    i + 2 < |s| && JoinsNextLine(s[i]) && s[i + 1] == '\n' && IsLowerAscii(s[i + 2])
  }

  /** Joining lines only turns line feeds into spaces. */
  lemma JoinLinesChars(s: string)
    ensures forall c :: c in JoinLines(s) ==> c in s || c == ' '
  {
    var r := JoinLines(s);
    forall c | c in r
      ensures c in s || c == ' '
    {
      var i :| 0 <= i < |r| && r[i] == c;
      assert r[i] == s[i] || r[i] == ' ';
    }
  }

  /** After the join no line break inside a lower-case sentence is left. */
  lemma {:induction false} JoinLinesComplete(s: string)
    ensures forall i :: 0 <= i < |JoinLines(s)| ==> !JoinableBreakAt(JoinLines(s), i)
    decreases |s|
  {
    var r := JoinLines(s);
    if |s| >= 3 && JoinsNextLine(s[0]) && s[1] == '\n' && IsLowerAscii(s[2]) {
      var t := JoinLines(s[2..]);
      JoinLinesComplete(s[2..]);
      assert r == [s[0], ' '] + t;
      assert forall i :: 2 <= i < |r| ==> JoinableBreakAt(r, i) == JoinableBreakAt(t, i - 2);
    } else if s != [] {
      var t := JoinLines(s[1..]);
      JoinLinesComplete(s[1..]);
      assert r == [s[0]] + t;
      assert forall i :: 1 <= i < |r| ==> JoinableBreakAt(r, i) == JoinableBreakAt(t, i - 1);
      JoinLinesNoBreakAtStart(s);
    }
  }

  /** Where the join does not fire at the front, the front does not become joinable either. */
  lemma JoinLinesNoBreakAtStart(s: string)
    requires s != [] && !(|s| >= 3 && JoinsNextLine(s[0]) && s[1] == '\n' && IsLowerAscii(s[2]))
    ensures !JoinableBreakAt(JoinLines(s), 0)
  {
    var r := JoinLines(s);
    if |s| >= 3 && s[1] == '\n' {
      var t := s[1..];
      assert t[0] == '\n' && !JoinsNextLine(t[0]);
      assert JoinLines(t) == [t[0]] + JoinLines(t[1..]);
      assert r[2] == JoinLines(t[1..])[0] == s[2];
    }
  }

  /** `.replace(/([.!?])\n(?=[A-Z])/g, '$1\n\n')`: a sentence end followed by a capital on the next line starts a paragraph. */
  function SplitParagraphs(s: string): (r: string)
    ensures forall c :: c in r ==> c in s
    ensures |r| >= |s|
    ensures s != [] ==> r != [] && r[0] == s[0]
    decreases |s|
  {
    if |s| >= 3 && EndsSentence(s[0]) && s[1] == '\n' && IsUpperAscii(s[2]) then [s[0], '\n', '\n'] + SplitParagraphs(s[2..])
    else if s == [] then []
    else [s[0]] + SplitParagraphs(s[1..])
  }

  /** A sentence end the paragraph pattern would still rewrite: `[.!?]`, a single '\n', then `[A-Z]`. */
  predicate SentenceBreakAt(s: string, i: nat) {
    i + 2 < |s| && EndsSentence(s[i]) && s[i + 1] == '\n' && IsUpperAscii(s[i + 2])
  }

  /** After the split every sentence end before a capital on the next line has a blank line after it. */
  lemma {:induction false} SplitParagraphsComplete(s: string)
    ensures forall i :: 0 <= i < |SplitParagraphs(s)| ==> !SentenceBreakAt(SplitParagraphs(s), i)
    decreases |s|
  {
    var r := SplitParagraphs(s);
    if |s| >= 3 && EndsSentence(s[0]) && s[1] == '\n' && IsUpperAscii(s[2]) {
      var t := SplitParagraphs(s[2..]);
      SplitParagraphsComplete(s[2..]);
      assert r == [s[0], '\n', '\n'] + t;
      assert forall i :: 3 <= i < |r| ==> SentenceBreakAt(r, i) == SentenceBreakAt(t, i - 3);
      assert !SentenceBreakAt(r, 0) && !SentenceBreakAt(r, 1);
      assert t != [] && t[0] == s[2];
      assert !SentenceBreakAt(r, 2);
    } else if s != [] {
      var t := SplitParagraphs(s[1..]);
      SplitParagraphsComplete(s[1..]);
      assert r == [s[0]] + t;
      assert forall i :: 1 <= i < |r| ==> SentenceBreakAt(r, i) == SentenceBreakAt(t, i - 1);
      SplitParagraphsNoBreakAtStart(s);
    }
  }

  lemma SplitParagraphsNoBreakAtStart(s: string)
    requires s != [] && !(|s| >= 3 && EndsSentence(s[0]) && s[1] == '\n' && IsUpperAscii(s[2]))
    ensures !SentenceBreakAt(SplitParagraphs(s), 0)
  {
    SplitParagraphsKeepsFront(s);
    if |s| >= 3 && s[1] == '\n' {
      SplitParagraphsKeepsFront(s[1..]);
      assert s[1..][1..] == s[2..];
    }
  }

  lemma SplitParagraphsKeepsFront(s: string)
    requires s != [] && !(|s| >= 3 && EndsSentence(s[0]) && s[1] == '\n' && IsUpperAscii(s[2]))
    ensures SplitParagraphs(s) == [s[0]] + SplitParagraphs(s[1..])
  {
  }

  /** Collapsing blank lines never makes two spaces adjacent: it keeps two line feeds of every run. */
  lemma {:induction false} CollapseNewlinesKeepsSpaces(s: string)
    requires NoDoubleSpace(s)
    ensures NoDoubleSpace(CollapseNewlines(s))
    decreases |s|
  {
    if s != [] {
      SliceKeepsRuns(s, 1, |s|);
      CollapseNewlinesKeepsSpaces(s[1..]);
    }
  }

  /** Joining lines turns into a space only a line feed between two non-spaces. */
  lemma {:induction false} JoinLinesKeepsSpaces(s: string)
    requires NoDoubleSpace(s)
    ensures NoDoubleSpace(JoinLines(s))
    decreases |s|
  {
    if |s| >= 3 && JoinsNextLine(s[0]) && s[1] == '\n' && IsLowerAscii(s[2]) {
      SliceKeepsRuns(s, 2, |s|);
      JoinLinesKeepsSpaces(s[2..]);
      var t := JoinLines(s[2..]);
      var r := [s[0], ' '] + t;
      assert t[0] == s[2];
      assert forall i :: 2 <= i < |r| ==> r[i] == t[i - 2];
    } else if s != [] {
      SliceKeepsRuns(s, 1, |s|);
      JoinLinesKeepsSpaces(s[1..]);
      var t := JoinLines(s[1..]);
      var r := [s[0]] + t;
      assert |s| >= 2 ==> t[0] == s[1];
      assert forall i :: 1 <= i < |r| ==> r[i] == t[i - 1];
    }
  }

  /** Joining lines only removes line feeds, so it makes no run of three. */
  lemma JoinLinesKeepsNewlines(s: string)
    requires NoTripleNewline(s)
    ensures NoTripleNewline(JoinLines(s))
  {
    var r := JoinLines(s);
    assert forall i :: 0 <= i < |r| && r[i] == '\n' ==> s[i] == '\n';
  }

  /** Splitting paragraphs adds only line feeds, so it makes no two spaces adjacent. */
  lemma {:induction false} SplitParagraphsKeepsSpaces(s: string)
    requires NoDoubleSpace(s)
    ensures NoDoubleSpace(SplitParagraphs(s))
    decreases |s|
  {
    if |s| >= 3 && EndsSentence(s[0]) && s[1] == '\n' && IsUpperAscii(s[2]) {
      SliceKeepsRuns(s, 2, |s|);
      SplitParagraphsKeepsSpaces(s[2..]);
      var t := SplitParagraphs(s[2..]);
      var r := [s[0], '\n', '\n'] + t;
      assert forall i :: 3 <= i < |r| ==> r[i] == t[i - 3];
    } else if s != [] {
      SliceKeepsRuns(s, 1, |s|);
      SplitParagraphsKeepsSpaces(s[1..]);
      SplitParagraphsKeepsFront(s);
      var t := SplitParagraphs(s[1..]);
      var r := [s[0]] + t;
      assert |s| >= 2 ==> t[0] == s[1];
      assert forall i :: 1 <= i < |r| ==> r[i] == t[i - 1];
    }
  }

  /** A sentence break gets exactly one more line feed: the run it extends had only one. */
  lemma {:induction false} SplitParagraphsKeepsNewlines(s: string)
    requires NoTripleNewline(s)
    ensures NoTripleNewline(SplitParagraphs(s))
    decreases |s|
  {
    if |s| >= 3 && EndsSentence(s[0]) && s[1] == '\n' && IsUpperAscii(s[2]) {
      SliceKeepsRuns(s, 2, |s|);
      SplitParagraphsKeepsNewlines(s[2..]);
      SplitBreakNewlines(s[0], s[2..]);
    } else if s != [] {
      SliceKeepsRuns(s, 1, |s|);
      SplitParagraphsKeepsNewlines(s[1..]);
      assert |s| >= 3 ==> !(s[0] == '\n' && s[1] == '\n' && s[2] == '\n');
      SplitFrontNewlines(s);
    }
  }

  /** The rewritten break `c`, '\n', '\n' in front of a text that starts with a capital makes no triple. */
  lemma SplitBreakNewlines(c: char, rest: string)
    requires EndsSentence(c) && rest != [] && IsUpperAscii(rest[0])
    requires NoTripleNewline(SplitParagraphs(rest))
    ensures NoTripleNewline([c, '\n', '\n'] + SplitParagraphs(rest))
  {
    var t := SplitParagraphs(rest);
    var r := [c, '\n', '\n'] + t;
    forall i | 0 <= i < |r| - 2
      ensures !(r[i] == '\n' && r[i + 1] == '\n' && r[i + 2] == '\n')
    {
      if i >= 3 {
        assert r[i] == t[i - 3] && r[i + 1] == t[i - 2] && r[i + 2] == t[i - 1];
      } else {
        assert r[3] == t[0] == rest[0];
      }
    }
  }

  /** Where the pattern does not fire at the front, the front character adds no triple. */
  lemma SplitFrontNewlines(s: string)
    requires s != [] && !(|s| >= 3 && EndsSentence(s[0]) && s[1] == '\n' && IsUpperAscii(s[2]))
    requires !(|s| >= 3 && s[0] == '\n' && s[1] == '\n' && s[2] == '\n')
    requires NoTripleNewline(SplitParagraphs(s[1..]))
    ensures NoTripleNewline(SplitParagraphs(s))
  {
    SplitParagraphsKeepsFront(s);
    var t := SplitParagraphs(s[1..]);
    var r := SplitParagraphs(s);
    assert r == [s[0]] + t;
    forall i | 0 <= i < |r| - 2
      ensures !(r[i] == '\n' && r[i + 1] == '\n' && r[i + 2] == '\n')
    {
      if i >= 1 {
        assert r[i] == t[i - 1] && r[i + 1] == t[i] && r[i + 2] == t[i + 1];
      } else {
        SplitFrontNoTriple(s);
      }
    }
  }

  /** The first three characters of the split text are no triple line feed when those of `s` are not. */
  lemma SplitFrontNoTriple(s: string)
    requires s != [] && !(|s| >= 3 && EndsSentence(s[0]) && s[1] == '\n' && IsUpperAscii(s[2]))
    requires !(|s| >= 3 && s[0] == '\n' && s[1] == '\n' && s[2] == '\n')
    ensures var r := SplitParagraphs(s); |r| >= 3 ==> !(r[0] == '\n' && r[1] == '\n' && r[2] == '\n')
  {
    if |s| >= 2 && s[0] == '\n' {
      SplitParagraphsSecond(s);
    }
  }

  /**
   * Where the pattern does not fire at the front, a line feed at the front is followed in the
   * output by the input's next two characters.
   */
  lemma SplitParagraphsSecond(s: string)
    requires |s| >= 2 && s[0] == '\n'
    ensures var r := SplitParagraphs(s);
      r[1] == s[1] && (|s| >= 3 && s[1] == '\n' ==> |r| >= 3 && r[2] == s[2]) && (|s| == 2 ==> |r| == 2)
  {
    SplitParagraphsKeepsFront(s);
    if |s| == 2 {
      SplitParagraphsKeepsFront(s[1..]);
      assert s[1..][1..] == [];
    }
    if |s| >= 3 && s[1] == '\n' {
      SplitParagraphsKeepsFront(s[1..]);
      assert s[1..][1..] == s[2..];
    }
  }

  /** `trim` returns a slice, so it keeps no character that was not there. */
  lemma TrimChars(s: string)
    ensures forall c :: c in Trim(s) ==> c in s
  {
    var r := Trim(s);
    var off := TrimOffset(s);
    assert forall i :: 0 <= i < |r| ==> r[i] == s[off + i];
  }

  /** `trim` keeps the absence of adjacent spaces and of three adjacent line feeds. */
  lemma TrimKeepsRuns(s: string)
    ensures NoDoubleSpace(s) ==> NoDoubleSpace(Trim(s))
    ensures NoTripleNewline(s) ==> NoTripleNewline(Trim(s))
  {
    var r := Trim(s);
    var off := TrimOffset(s);
    assert r == s[off..off + |r|];
    SliceKeepsRuns(s, off, off + |r|);
  }

  /** `trim` keeps every whitespace character a plain space if it was one before. */
  lemma TrimKeepsSpaces(s: string)
    requires forall i :: 0 <= i < |s| && IsSpace(s[i]) ==> s[i] == ' '
    ensures forall i :: 0 <= i < |Trim(s)| && IsSpace(Trim(s)[i]) ==> Trim(s)[i] == ' '
  {
    var off := TrimOffset(s);
    var r := Trim(s);
    forall i | 0 <= i < |r| && IsSpace(r[i])
      ensures r[i] == ' '
    {
      assert r[i] == s[off + i];
    }
  }
}
