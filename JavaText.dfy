/** The pieces of java.lang.String, java.util.regex and java.io.BufferedReader
    that the plugin relies on, written out over Dafny strings. */
module JavaText {

  /** Java's `\s` (without UNICODE_CHARACTER_CLASS): space, tab, line feed,
      vertical tab, form feed, carriage return. */
  predicate IsWhitespace(c: char) {
    c == ' ' || c == '\t' || c == '\n' || c == '\U{0B}' || c == '\U{0C}' || c == '\r'
  }

  /** The characters that the regex `.` does not match (no DOTALL flag). */
  predicate IsLineTerminator(c: char) {
    c == '\n' || c == '\r' || c == '\U{85}' || c == '\U{2028}' || c == '\U{2029}'
  }

  /** The characters at which BufferedReader.readLine ends a line. */
  predicate IsLineBreak(c: char) {
    c == '\n' || c == '\r'
  }

  predicate AllWhitespace(s: string) {
    forall i :: 0 <= i < |s| ==> IsWhitespace(s[i])
  }

  predicate NoLineTerminator(s: string) {
    forall i :: 0 <= i < |s| ==> !IsLineTerminator(s[i])
  }

  predicate NoLineBreak(s: string) {
    forall i :: 0 <= i < |s| ==> !IsLineBreak(s[i])
  }

  /** `t` occurs in `s` starting at index `i`. */
  ghost predicate OccursAt(s: string, t: string, i: int) {
    0 <= i && i + |t| <= |s| && s[i..i + |t|] == t
  }

  /** String.contains. */
  ghost predicate Contains(s: string, t: string) {
    exists i :: OccursAt(s, t, i)
  }

  // ---------------------------------------------------------------------------
  // String.replace(CharSequence, CharSequence)
  // ---------------------------------------------------------------------------

  /** Java's `s.replace(target, replacement)`: every occurrence of `target`
      found by a left-to-right scan, occurrences not overlapping, is replaced
      literally. An empty target matches before every character and at the
      end, so the replacement is put between all characters. */
  function Replace(s: string, target: string, replacement: string): string
    decreases |s|
  {
    if target == [] then InsertEverywhere(s, replacement)
    else if |s| < |target| then s
    else if s[..|target|] == target then replacement + Replace(s[|target|..], target, replacement)
    else [s[0]] + Replace(s[1..], target, replacement)
  }

  /** `s.replace("", r)`: `r` before every character of `s` and once at the end. */
  function InsertEverywhere(s: string, r: string): string {
    if s == [] then r else r + [s[0]] + InsertEverywhere(s[1..], r)
  }

  /** When the target does not occur, the replace leaves the string alone. */
  lemma {:induction false} ReplaceAbsent(s: string, target: string, replacement: string)
    requires target != []
    requires !Contains(s, target)
    ensures Replace(s, target, replacement) == s
    decreases |s|
  {
    if |s| >= |target| {
      assert !OccursAt(s, target, 0);
      assert s[..|target|] != target;
      assert !Contains(s[1..], target) by {
        forall i | OccursAt(s[1..], target, i) ensures OccursAt(s, target, i + 1) {
          assert s[1..][i..i + |target|] == s[i + 1..i + 1 + |target|];
        }
      }
      ReplaceAbsent(s[1..], target, replacement);
    }
  }

  /** Replacing a string by itself changes nothing. */
  lemma {:induction false} ReplaceBySelf(s: string, target: string)
    requires target != []
    ensures Replace(s, target, target) == s
    decreases |s|
  {
    if |s| >= |target| {
      if s[..|target|] == target {
        ReplaceBySelf(s[|target|..], target);
        assert s == s[..|target|] + s[|target|..];
      } else {
        ReplaceBySelf(s[1..], target);
      }
    }
  }

  /** A string whose first character is absent cannot occur. */
  lemma FirstCharAbsent(s: string, t: string)
    requires t != [] && t[0] !in s
    ensures !Contains(s, t)
  {
    forall i | 0 <= i && i + |t| <= |s| ensures !OccursAt(s, t, i) {
      assert s[i..i + |t|][0] == s[i];
      assert s[i] in s;
    }
  }

  /** The scan is left to right: when no occurrence of `target` starts
      inside `a`, `a` is kept, the first occurrence, right after it, is
      replaced, and the scan resumes after that occurrence. */
  lemma {:induction false} ReplaceFirstOccurrence(a: string, target: string, b: string, replacement: string)
    requires target != []
    requires forall i :: 0 <= i < |a| ==> !OccursAt(a + target + b, target, i)
    ensures Replace(a + target + b, target, replacement) == a + replacement + Replace(b, target, replacement)
    decreases |a|
  {
    var s := a + target + b;
    var rest := Replace(b, target, replacement);
    if a == [] {
      assert s == target + b;
      assert s[..|target|] == target && s[|target|..] == b;
    } else {
      assert !OccursAt(s, target, 0);
      assert s[..|target|] != target;
      assert s[1..] == a[1..] + target + b;
      forall i | 0 <= i < |a[1..]| ensures !OccursAt(a[1..] + target + b, target, i) {
        assert !OccursAt(s, target, i + 1);
        if i + |target| <= |s[1..]| {
          assert s[1..][i..i + |target|] == s[i + 1..i + 1 + |target|];
        }
      }
      ReplaceFirstOccurrence(a[1..], target, b, replacement);
      assert [a[0]] + (a[1..] + replacement + rest) == a + replacement + rest;
    }
  }

  /** A special case of ReplaceFirstOccurrence: when the first character of
      `target` does not occur in `a`, no occurrence can start inside `a`. */
  lemma ReplaceSingleSplit(a: string, target: string, b: string, replacement: string)
    requires target != [] && target[0] !in a
    ensures Replace(a + target + b, target, replacement) == a + replacement + Replace(b, target, replacement)
  {
    PrefixLacksOccurrence(a, target, b);
    ReplaceFirstOccurrence(a, target, b, replacement);
  }

  /** No occurrence of `t` starts inside a prefix that lacks `t`'s first
      character. */
  lemma PrefixLacksOccurrence(a: string, t: string, b: string)
    requires t != [] && t[0] !in a
    ensures forall i :: 0 <= i < |a| ==> !OccursAt(a + t + b, t, i)
  {
    forall i | 0 <= i < |a| ensures !OccursAt(a + t + b, t, i) {
      assert (a + t + b)[i] == a[i] && a[i] in a;
    }
  }

  /** Replacing inside a line by a text without line breaks gives a line
      without line breaks. */
  lemma {:induction false} ReplaceNoLineBreak(s: string, target: string, replacement: string)
    requires target != [] && NoLineBreak(s) && NoLineBreak(replacement)
    ensures NoLineBreak(Replace(s, target, replacement))
    decreases |s|
  {
    if |s| >= |target| {
      if s[..|target|] == target {
        ReplaceNoLineBreak(s[|target|..], target, replacement);
        NoLineBreakAppend(replacement, Replace(s[|target|..], target, replacement));
      } else {
        ReplaceNoLineBreak(s[1..], target, replacement);
        NoLineBreakAppend([s[0]], Replace(s[1..], target, replacement));
      }
    }
  }

  lemma NoLineBreakAppend(a: string, b: string)
    requires NoLineBreak(a) && NoLineBreak(b)
    ensures NoLineBreak(a + b)
  {
    forall i | |a| <= i < |a + b| ensures (a + b)[i] == b[i - |a|] {
    }
  }

  // ---------------------------------------------------------------------------
  // BufferedReader.readLine and BufferedWriter.write
  // ---------------------------------------------------------------------------

  /** Index of the first line break in `text`, or `|text|` when there is none. */
  function LineLength(text: string): (k: nat)
    ensures k <= |text|
    decreases |text|
  {
    if text == [] || IsLineBreak(text[0]) then 0 else 1 + LineLength(text[1..])
  }

  /** The line runs up to, and not including, the first line break. */
  lemma {:induction false} LineLengthSpec(text: string)
    ensures NoLineBreak(text[..LineLength(text)])
    ensures LineLength(text) < |text| ==> IsLineBreak(text[LineLength(text)])
    decreases |text|
  {
    if text != [] && !IsLineBreak(text[0]) {
      var k := LineLength(text);
      LineLengthSpec(text[1..]);
      assert text[..k] == [text[0]] + text[1..][..k - 1];
    }
  }

  /** What remains after the line that ends at `k`: the terminator is one of
      `\n`, `\r`, or `\r\n`. */
  function AfterLine(text: string, k: nat): (rest: string)
    requires k <= |text|
    ensures |rest| < |text| || (k == 0 && text == [])
  {
    if k == |text| then []
    else if text[k] == '\r' && k + 1 < |text| && text[k + 1] == '\n' then text[k + 2..]
    else text[k + 1..]
  }

  /** The successive results of BufferedReader.readLine until it returns null:
      every line without its terminator, and no empty line after a final
      terminator. */
  function ReadLines(text: string): seq<string>
    decreases |text|
  {
    if text == [] then []
    else
      var k := LineLength(text);
      [text[..k]] + ReadLines(AfterLine(text, k))
  }

  /** No line that readLine returns holds a line break. */
  lemma {:induction false} ReadLinesNoLineBreak(text: string)
    ensures forall i :: 0 <= i < |ReadLines(text)| ==> NoLineBreak(ReadLines(text)[i])
    decreases |text|
  {
    if text != [] {
      var k := LineLength(text);
      LineLengthSpec(text);
      ReadLinesNoLineBreak(AfterLine(text, k));
    }
  }

  /** Lines each followed by `\n`, the way the test writes its fixture. */
  function Terminated(lines: seq<string>): string {
    if lines == [] then [] else lines[0] + "\n" + Terminated(lines[1..])
  }

  /** readLine gives back exactly the lines of a `\n`-terminated text. */
  lemma {:induction false} ReadTerminated(lines: seq<string>)
    requires forall i :: 0 <= i < |lines| ==> NoLineBreak(lines[i])
    ensures ReadLines(Terminated(lines)) == lines
  {
    if lines != [] {
      var text := Terminated(lines);
      var l := lines[0];
      assert text == l + ("\n" + Terminated(lines[1..]));
      assert text[|l|] == '\n';
      assert forall i :: 0 <= i < |l| ==> text[i] == l[i];
      LineLengthIs(text, |l|);
      assert text[..|l|] == l;
      assert AfterLine(text, |l|) == Terminated(lines[1..]);
      ReadTerminated(lines[1..]);
    }
  }

  lemma {:induction false} LineLengthIs(text: string, n: nat)
    requires n < |text| && IsLineBreak(text[n])
    requires forall i :: 0 <= i < n ==> !IsLineBreak(text[i])
    ensures LineLength(text) == n
    decreases n
  {
    if n > 0 {
      LineLengthIs(text[1..], n - 1);
    }
  }

  /** A text with no line break reads back as that one line (none if empty). */
  lemma ReadSingleLine(text: string)
    requires NoLineBreak(text)
    ensures ReadLines(text) == if text == [] then [] else [text]
  {
    if text != [] {
      var k := LineLength(text);
      LineLengthSpec(text);
      assert k == |text|;
      assert text[..k] == text;
    }
  }

  /** The text written by `for (String s : lines) out.write(s)`: the lines
      one after another, with nothing between them. */
  function Concat(lines: seq<string>): string {
    if lines == [] then [] else Concat(lines[..|lines| - 1]) + lines[|lines| - 1]
  }

  /** Concatenation has no line break when none of the lines has one. */
  lemma {:induction false} ConcatNoLineBreak(lines: seq<string>)
    requires forall i :: 0 <= i < |lines| ==> NoLineBreak(lines[i])
    ensures NoLineBreak(Concat(lines))
  {
    if lines != [] {
      ConcatNoLineBreak(lines[..|lines| - 1]);
      var a, b := Concat(lines[..|lines| - 1]), lines[|lines| - 1];
      assert forall i :: 0 <= i < |a + b| ==> (a + b)[i] == if i < |a| then a[i] else b[i - |a|];
    }
  }
}
