/** FileReplace: the line-by-line rewrite of one persistence.xml. */
module Rewriter {
  import opened JavaText
  import opened FileTree

  const JarOpen: string := "<jar-file>"
  const JarClose: string := "</jar-file>"

  // ---------------------------------------------------------------------------
  // The pattern ^\s*<jar-file>.*</jar-file>\s*$ under String.matches
  // ---------------------------------------------------------------------------

  /** `line` is `w1 + "<jar-file>" + m + "</jar-file>" + w2` with `w1 == line[..i]`
      and `w2 == line[j + |JarClose|..]` made of `\s` characters and `m` free of
      the characters `.` does not match. */
  ghost predicate JarLineSplit(line: string, i: int, j: int) {
    0 <= i && i + |JarOpen| <= j && j + |JarClose| <= |line| &&
    AllWhitespace(line[..i]) &&
    line[i..i + |JarOpen|] == JarOpen &&
    NoLineTerminator(line[i + |JarOpen|..j]) &&
    line[j..j + |JarClose|] == JarClose &&
    AllWhitespace(line[j + |JarClose|..])
  }

  /** The whole line matches the pattern: some split exists (the regex engine
      backtracks over `\s*` and `.*`). */
  ghost predicate IsJarLine(line: string) {
    exists i, j :: JarLineSplit(line, i, j)
  }

  /** Number of leading `\s` characters. */
  function LeadingWhitespace(s: string): (n: nat)
    ensures n <= |s|
  {
    if s != [] && IsWhitespace(s[0]) then 1 + LeadingWhitespace(s[1..]) else 0
  }

  /** Number of trailing `\s` characters. */
  function TrailingWhitespace(s: string): (n: nat)
    ensures n <= |s|
  {
    if s != [] && IsWhitespace(s[|s| - 1]) then 1 + TrailingWhitespace(s[..|s| - 1]) else 0
  }

  /** The leading whitespace is a run of `\s` characters that cannot be
      extended. */
  lemma {:induction false} LeadingWhitespaceSpec(s: string)
    ensures AllWhitespace(s[..LeadingWhitespace(s)])
    ensures LeadingWhitespace(s) < |s| ==> !IsWhitespace(s[LeadingWhitespace(s)])
  {
    if s != [] && IsWhitespace(s[0]) {
      var n := LeadingWhitespace(s);
      LeadingWhitespaceSpec(s[1..]);
      assert s[..n] == [s[0]] + s[1..][..n - 1];
    }
  }

  /** The trailing whitespace is a run of `\s` characters that cannot be
      extended. */
  lemma {:induction false} TrailingWhitespaceSpec(s: string)
    ensures AllWhitespace(s[|s| - TrailingWhitespace(s)..])
    ensures TrailingWhitespace(s) < |s| ==> !IsWhitespace(s[|s| - TrailingWhitespace(s) - 1])
  {
    if s != [] && IsWhitespace(s[|s| - 1]) {
      var t := s[..|s| - 1];
      var m := TrailingWhitespace(t);
      assert TrailingWhitespace(s) == m + 1;
      TrailingWhitespaceSpec(t);
      var w := s[|s| - (m + 1)..];
      forall i | 0 <= i < m + 1 ensures IsWhitespace(w[i]) {
        if i < m {
          assert w[i] == t[|t| - m..][i];
        }
      }
      if m + 1 < |s| {
        assert s[|s| - (m + 1) - 1] == t[|t| - m - 1];
      }
    }
  }

  /** The decision that `line.matches(...)` makes, computed directly: strip
      the leading and trailing whitespace and look at what remains. */
  function MatchesJarLine(line: string): bool {
    var i := LeadingWhitespace(line);
    var e := |line| - TrailingWhitespace(line);
    i + |JarOpen| + |JarClose| <= e &&
    line[i..i + |JarOpen|] == JarOpen &&
    line[e - |JarClose|..e] == JarClose &&
    NoLineTerminator(line[i + |JarOpen|..e - |JarClose|])
  }

  /** A whitespace prefix followed by a non-whitespace character is exactly
      the leading whitespace. */
  lemma {:induction false} LeadingWhitespaceIs(s: string, n: nat)
    requires n < |s| && AllWhitespace(s[..n]) && !IsWhitespace(s[n])
    ensures LeadingWhitespace(s) == n
    decreases n
  {
    if n > 0 {
      assert IsWhitespace(s[..n][0]);
      assert s[1..][..n - 1] == s[1..n];
      assert s[1..][n - 1] == s[n];
      LeadingWhitespaceIs(s[1..], n - 1);
    }
  }

  /** A whitespace suffix preceded by a non-whitespace character is exactly
      the trailing whitespace. */
  lemma {:induction false} TrailingWhitespaceIs(s: string, n: nat)
    requires n < |s| && AllWhitespace(s[|s| - n..]) && !IsWhitespace(s[|s| - n - 1])
    ensures TrailingWhitespace(s) == n
    decreases n
  {
    if n > 0 {
      var t := s[..|s| - 1];
      assert IsWhitespace(s[|s| - n..][n - 1]);
      assert t[|t| - (n - 1)..] == s[|s| - n..|s| - 1];
      assert t[|t| - (n - 1) - 1] == s[|s| - n - 1];
      TrailingWhitespaceIs(t, n - 1);
    }
  }

  /** The direct decision agrees with the pattern on every line. */
  lemma MatchesJarLineIff(line: string)
    ensures MatchesJarLine(line) <==> IsJarLine(line)
  {
    if MatchesJarLine(line) {
      MatchesJarLineSound(line);
    }
    if IsJarLine(line) {
      var i, j :| JarLineSplit(line, i, j);
      MatchesJarLineComplete(line, i, j);
    }
  }

  /** When the direct decision says yes, stripping the whitespace gives a split. */
  lemma MatchesJarLineSound(line: string)
    requires MatchesJarLine(line)
    ensures JarLineSplit(line, LeadingWhitespace(line), |line| - TrailingWhitespace(line) - |JarClose|)
  {
    LeadingWhitespaceSpec(line);
    TrailingWhitespaceSpec(line);
  }

  /** Any split has the leading and trailing whitespace as its outer parts,
      because `<` and `>` are not whitespace; so the direct decision says yes. */
  lemma MatchesJarLineComplete(line: string, i: int, j: int)
    requires JarLineSplit(line, i, j)
    ensures MatchesJarLine(line)
  {
    assert line[i] == '<' by { assert line[i..i + |JarOpen|][0] == line[i]; }
    LeadingWhitespaceIs(line, i);
    var n := |line| - (j + |JarClose|);
    assert line[j + |JarClose| - 1] == '>' by {
      assert line[j..j + |JarClose|][|JarClose| - 1] == line[j + |JarClose| - 1];
    }
    TrailingWhitespaceIs(line, n);
    assert JarLineSplit(line, i, |line| - n - |JarClose|);
  }

  // ---------------------------------------------------------------------------
  // One line, all lines, the written text
  // ---------------------------------------------------------------------------

  /** One iteration of the read loop: a jar-file line has every `fromVersion`
      replaced by `toVersion`; any other line is kept as read. */
  function RewriteLine(line: string, fromVersion: string, toVersion: string): string {
    if MatchesJarLine(line) then Replace(line, fromVersion, toVersion) else line
  }

  /** What one iteration does, in terms of the pattern: exactly the lines
      that match it have `fromVersion` replaced. */
  lemma RewriteLineMeaning(line: string, fromVersion: string, toVersion: string)
    ensures IsJarLine(line) ==> RewriteLine(line, fromVersion, toVersion) == Replace(line, fromVersion, toVersion)
    ensures !IsJarLine(line) ==> RewriteLine(line, fromVersion, toVersion) == line
  {
    MatchesJarLineIff(line);
  }

  /** The lines the read loop collects, one per line read, in order. */
  function RewriteLines(lines: seq<string>, fromVersion: string, toVersion: string): (r: seq<string>)
    ensures |r| == |lines|
    ensures forall k :: 0 <= k < |lines| ==> r[k] == RewriteLine(lines[k], fromVersion, toVersion)
  {
    if lines == [] then []
    else RewriteLines(lines[..|lines| - 1], fromVersion, toVersion)
         + [RewriteLine(lines[|lines| - 1], fromVersion, toVersion)]
  }

  /** One more line read adds one more processed line at the end. */
  lemma RewriteLinesSnoc(lines: seq<string>, n: nat, fromVersion: string, toVersion: string)
    requires n < |lines|
    ensures RewriteLines(lines[..n + 1], fromVersion, toVersion)
         == RewriteLines(lines[..n], fromVersion, toVersion) + [RewriteLine(lines[n], fromVersion, toVersion)]
  {
    assert lines[..n + 1][..n] == lines[..n];
  }

  /** Whatever `fromVersion` is, lines that do not contain it come out as they
      went in. */
  lemma RewriteLinesAbsent(lines: seq<string>, fromVersion: string, toVersion: string)
    requires fromVersion != []
    requires forall k :: 0 <= k < |lines| ==> !Contains(lines[k], fromVersion)
    ensures RewriteLines(lines, fromVersion, toVersion) == lines
  {
    var r := RewriteLines(lines, fromVersion, toVersion);
    forall k | 0 <= k < |lines| ensures r[k] == lines[k] {
      RewriteLineMeaning(lines[k], fromVersion, toVersion);
      ReplaceAbsent(lines[k], fromVersion, toVersion);
    }
  }

  /** A line built from the pattern's own pieces is a jar-file line. */
  lemma JarLineOfParts(w1: string, m: string, w2: string)
    requires AllWhitespace(w1) && NoLineTerminator(m) && AllWhitespace(w2)
    ensures IsJarLine(w1 + JarOpen + m + JarClose + w2)
  {
    var line := w1 + JarOpen + m + JarClose + w2;
    var i, j := |w1|, |w1| + |JarOpen| + |m|;
    assert line[..i] == w1;
    assert line[i..i + |JarOpen|] == JarOpen;
    assert line[i + |JarOpen|..j] == m;
    assert line[j..j + |JarClose|] == JarClose;
    assert line[j + |JarClose|..] == w2;
    assert JarLineSplit(line, i, j);
  }

  lemma NoLineTerminatorConcat(a: string, b: string)
    requires NoLineTerminator(a) && NoLineTerminator(b)
    ensures NoLineTerminator(a + b)
  {
    forall i | 0 <= i < |a + b| ensures !IsLineTerminator((a + b)[i]) {
      if i >= |a| {
        assert (a + b)[i] == b[i - |a|];
      }
    }
  }

  /** The round trip of the rewrite on one jar-file line: replacing the old
      version by the new one and then the new one by the old one gives the
      line back, when each version occurs on its line only where it was put
      (nowhere inside `a`, the text before it, and nowhere in `b`, the text
      after it). */
  lemma RewriteLineInverse(w1: string, m1: string, m2: string, w2: string,
                           fromVersion: string, toVersion: string)
    requires AllWhitespace(w1) && AllWhitespace(w2)
    requires NoLineTerminator(m1) && NoLineTerminator(m2)
    requires NoLineTerminator(fromVersion) && NoLineTerminator(toVersion)
    requires fromVersion != [] && toVersion != []
    requires forall i :: 0 <= i < |w1 + JarOpen + m1| ==>
               !OccursAt((w1 + JarOpen + m1) + fromVersion + (m2 + JarClose + w2), fromVersion, i)
    requires forall i :: 0 <= i < |w1 + JarOpen + m1| ==>
               !OccursAt((w1 + JarOpen + m1) + toVersion + (m2 + JarClose + w2), toVersion, i)
    requires !Contains(m2 + JarClose + w2, fromVersion) && !Contains(m2 + JarClose + w2, toVersion)
    ensures RewriteLine(w1 + JarOpen + m1 + fromVersion + m2 + JarClose + w2, fromVersion, toVersion)
         == w1 + JarOpen + m1 + toVersion + m2 + JarClose + w2
    ensures RewriteLine(w1 + JarOpen + m1 + toVersion + m2 + JarClose + w2, toVersion, fromVersion)
         == w1 + JarOpen + m1 + fromVersion + m2 + JarClose + w2
  {
    var a, b := w1 + JarOpen + m1, m2 + JarClose + w2;
    JarLineWith(w1, m1, fromVersion, m2, w2);
    JarLineWith(w1, m1, toVersion, m2, w2);
    RewriteLineMeaning(w1 + JarOpen + m1 + fromVersion + m2 + JarClose + w2, fromVersion, toVersion);
    RewriteLineMeaning(w1 + JarOpen + m1 + toVersion + m2 + JarClose + w2, toVersion, fromVersion);
    ReplaceFirstOccurrence(a, fromVersion, b, toVersion);
    ReplaceAbsent(b, fromVersion, toVersion);
    ReplaceFirstOccurrence(a, toVersion, b, fromVersion);
    ReplaceAbsent(b, toVersion, fromVersion);
  }

  /** The round trip when neither version's first character occurs anywhere
      else on the line, as in the fixture. */
  lemma RewriteLineRoundTrip(w1: string, m1: string, m2: string, w2: string,
                             fromVersion: string, toVersion: string)
    requires AllWhitespace(w1) && AllWhitespace(w2)
    requires NoLineTerminator(m1) && NoLineTerminator(m2)
    requires NoLineTerminator(fromVersion) && NoLineTerminator(toVersion)
    requires fromVersion != [] && toVersion != []
    requires fromVersion[0] !in w1 + JarOpen + m1 && toVersion[0] !in w1 + JarOpen + m1
    requires fromVersion[0] !in m2 + JarClose + w2 && toVersion[0] !in m2 + JarClose + w2
    ensures RewriteLine(w1 + JarOpen + m1 + fromVersion + m2 + JarClose + w2, fromVersion, toVersion)
         == w1 + JarOpen + m1 + toVersion + m2 + JarClose + w2
    ensures RewriteLine(w1 + JarOpen + m1 + toVersion + m2 + JarClose + w2, toVersion, fromVersion)
         == w1 + JarOpen + m1 + fromVersion + m2 + JarClose + w2
  {
    var a, b := w1 + JarOpen + m1, m2 + JarClose + w2;
    PrefixLacksOccurrence(a, fromVersion, b);
    PrefixLacksOccurrence(a, toVersion, b);
    FirstCharAbsent(b, fromVersion);
    FirstCharAbsent(b, toVersion);
    RewriteLineInverse(w1, m1, m2, w2, fromVersion, toVersion);
  }

  /** The jar-file line with `x` in the middle of its element, split at `x`. */
  lemma JarLineWith(w1: string, m1: string, x: string, m2: string, w2: string)
    requires AllWhitespace(w1) && AllWhitespace(w2)
    requires NoLineTerminator(m1) && NoLineTerminator(x) && NoLineTerminator(m2)
    ensures w1 + JarOpen + m1 + x + m2 + JarClose + w2 == (w1 + JarOpen + m1) + x + (m2 + JarClose + w2)
    ensures IsJarLine(w1 + JarOpen + m1 + x + m2 + JarClose + w2)
  {
    NoLineTerminatorConcat(m1, x);
    NoLineTerminatorConcat(m1 + x, m2);
    JarLineOfParts(w1, m1 + x + m2, w2);
    RegroupMiddle(w1 + JarOpen, m1, x, m2, JarClose, w2);
    RegroupTail(w1 + JarOpen + m1, x, m2, JarClose, w2);
  }

  lemma RegroupMiddle(p: string, m1: string, x: string, m2: string, c: string, w2: string)
    ensures p + (m1 + x + m2) + c + w2 == p + m1 + x + m2 + c + w2
  {
  }

  lemma RegroupTail(p: string, x: string, m2: string, c: string, w2: string)
    ensures p + x + m2 + c + w2 == p + x + (m2 + c + w2)
  {
  }

  /** The text that doIt writes for a file read as `text`, starting from an
      empty `lines` list: all processed lines, with no terminators between them. */
  function RewrittenContent(text: string, fromVersion: string, toVersion: string): string {
    Concat(RewriteLines(ReadLines(text), fromVersion, toVersion))
  }

  /** A rewrite with a replacement free of line breaks keeps every line free
      of line breaks. */
  lemma RewriteLinesNoLineBreak(lines: seq<string>, fromVersion: string, toVersion: string)
    requires fromVersion != [] && NoLineBreak(toVersion)
    requires forall k :: 0 <= k < |lines| ==> NoLineBreak(lines[k])
    ensures forall k :: 0 <= k < |lines| ==> NoLineBreak(RewriteLines(lines, fromVersion, toVersion)[k])
  {
    forall k | 0 <= k < |lines| ensures NoLineBreak(RewriteLine(lines[k], fromVersion, toVersion)) {
      ReplaceNoLineBreak(lines[k], fromVersion, toVersion);
    }
  }

  /** doIt as evidently intended: every processed line written back followed
      by a line terminator, as `out.newLine()` after `out.write(s)` would do. */
  function RewrittenContentWithNewlines(text: string, fromVersion: string, toVersion: string): string {
    Terminated(RewriteLines(ReadLines(text), fromVersion, toVersion))
  }

  /** With the terminators kept, the written file reads back as exactly the
      processed lines, so a later run sees the lines the first one wrote. */
  lemma RewrittenLinesReadBack(text: string, fromVersion: string, toVersion: string)
    requires fromVersion != [] && NoLineBreak(toVersion)
    ensures ReadLines(RewrittenContentWithNewlines(text, fromVersion, toVersion))
         == RewriteLines(ReadLines(text), fromVersion, toVersion)
  {
    ReadLinesNoLineBreak(text);
    RewriteLinesNoLineBreak(ReadLines(text), fromVersion, toVersion);
    ReadTerminated(RewriteLines(ReadLines(text), fromVersion, toVersion));
  }

  /** FileReplace, one instance per file. */
  class FileReplace {
    /** The processed lines so far. */
    var lines: seq<string>
    /** The line last returned by readLine; None for null. */
    var line: Option<string>

    constructor ()
      ensures lines == [] && line == None
    {
      lines := [];
      line := None;
    }

    /** Read every line of `persistenceXml`, rewrite the jar-file lines, and
        write all processed lines back. When the file cannot be opened the
        exception is swallowed and neither the file nor `lines` changes. */
    method DoIt(persistenceXml: Path, fs: FileSystem, fromVersion: string, toVersion: string)
      requires fs.Valid()
      modifies this, fs
      ensures fs.Valid()
      ensures old(ContentAt(fs.root, persistenceXml)).None? ==>
                fs.root == old(fs.root) && lines == old(lines) && line == old(line)
      ensures old(ContentAt(fs.root, persistenceXml)).Some? ==>
                lines == old(lines) + RewriteLines(ReadLines(old(ContentAt(fs.root, persistenceXml)).value), fromVersion, toVersion) &&
                line == None &&
                fs.root == Store(old(fs.root), persistenceXml, Concat(lines))
    {
      var text := fs.Read(persistenceXml);
      if text.None? {
        return;
      }
      ReadAll(ReadLines(text.value), fromVersion, toVersion);
      line := None;
      WriteAll(persistenceXml, fs);
    }

    /** The read half of doIt: the loop over what readLine returns, keeping
        every line, with the jar-file lines rewritten. */
    method ReadAll(input: seq<string>, fromVersion: string, toVersion: string)
      modifies this
      ensures lines == old(lines) + RewriteLines(input, fromVersion, toVersion)
    {
      var n := 0;
      while n < |input|
        invariant 0 <= n <= |input|
        invariant lines == old(lines) + RewriteLines(input[..n], fromVersion, toVersion)
      {
        line := Some(input[n]);
        if MatchesJarLine(line.value) {
          line := Some(Replace(line.value, fromVersion, toVersion));
        }
        assert line.value == RewriteLine(input[n], fromVersion, toVersion);
        lines := lines + [line.value];
        RewriteLinesSnoc(input, n, fromVersion, toVersion);
        n := n + 1;
      }
      assert input[..n] == input;
    }

    /** The write half of doIt: a FileWriter on the same file (which empties
        it) and `out.write(s)` for every collected line, in order. */
    method WriteAll(persistenceXml: Path, fs: FileSystem)
      requires fs.Valid() && ContentAt(fs.root, persistenceXml).Some?
      modifies fs
      ensures fs.Valid()
      ensures fs.root == Store(old(fs.root), persistenceXml, Concat(lines))
    {
      var written := "";
      for k := 0 to |lines|
        invariant written == Concat(lines[..k])
      {
        written := written + lines[k];
        assert lines[..k + 1][..k] == lines[..k];
      }
      assert lines[..|lines|] == lines;
      fs.Write(persistenceXml, written);
    }
  }
}
