/** The project tree that the plugin's tests build under /tmp/mojotest, and
    what the model says a run over it does. */
module Fixture {
  import opened FileTree
  import opened JavaText
  import opened Finder
  import opened Rewriter
  import opened Mojo

  const Start: Path := ["tmp", "mojotest"]

  const OldVersion: string := "1.0-SNAPSHOT"
  const NewVersion: string := "2.0-SNAPSHOT"

  /** The jar-file line of the fixture, cut around its version. */
  const JarIndent: string := "  "
  const JarPrefix: string := "../path/to/file/myjar-"
  const JarSuffix: string := ".jar"

  /** The persistence-unit line, given in pieces short enough for the
      verifier to check character by character. */
  const UnitOpen: string := " <persistence-unit" + " name=\"myPU\"" + " transaction-type=" + "\"RESOURCE_LOCAL\">"
  const UnitClose: string := " </persistence-unit>"

  /** The lines written into every persistence.xml of the fixture, each
      followed by a line feed. */
  const XmlLines: seq<string> := [
    "<xml>",
    UnitOpen,
    JarIndent + JarOpen + JarPrefix + OldVersion + JarSuffix + JarClose,
    UnitClose,
    "</xml>"
  ]

  const XmlText: string := Terminated(XmlLines)

  /** META-INF with persistence.xml and an empty persistence.txt. */
  function MetaInf(xmlText: string): Node {
    Dir("META-INF", [File("persistence.xml", xmlText), File("persistence.txt", "")])
  }

  function Resources(xmlText: string): Node {
    Dir("resources", [MetaInf(xmlText)])
  }

  function MainDir(xmlText: string): Node {
    Dir("main", [Resources(xmlText)])
  }

  /** src/main/resources/META-INF as the tests create it in every module. */
  function ProjectSrc(xmlText: string): Node {
    Dir("src", [MainDir(xmlText)])
  }

  /** "/" holding /tmp/mojotest, which holds its own src tree and the modules
      module1 and module2, each with a src tree. */
  function Disk(): Node {
    Dir("", [Dir("tmp", [Dir("mojotest", [
      ProjectSrc(XmlText),
      Dir("module1", [ProjectSrc(XmlText)]),
      Dir("module2", [ProjectSrc(XmlText)])
    ])])])
  }

  function XmlIn(project: Path): Path {
    project + ["src", "main", "resources", "META-INF", "persistence.xml"]
  }

  /** META-INF contributes its persistence.xml and not persistence.txt. */
  lemma {:induction false} MetaInfFound(p: Path, xmlText: string)
    requires |p| > 0 && FileName(p) == "META-INF"
    ensures Found(Start, MetaInf(xmlText), p) == [p + ["persistence.xml"]]
  {
    var m := MetaInf(xmlText);
    var xml := p + ["persistence.xml"];
    var txt := p + ["persistence.txt"];
    assert Found(Start, m.children[0], xml) == [xml];
    assert FileName(txt) != TargetFileName;
    assert Found(Start, m.children[1], txt) == [];
    assert FoundAmong(Start, m, p, 2) == FoundAmong(Start, m, p, 1) + Found(Start, m.children[1], txt);
    assert FoundAmong(Start, m, p, 1) == FoundAmong(Start, m, p, 0) + Found(Start, m.children[0], xml);
  }

  /** A listed directory with a single entry contributes what the entry does. */
  lemma {:induction false} SingleEntryFound(dir: Node, p: Path)
    requires dir.Dir? && |dir.children| == 1
    requires |p| > 0 && FileName(p) in DirectoriesToExplore
    ensures Found(Start, dir, p) == Found(Start, dir.children[0], p + [dir.children[0].name])
  {
    assert PreVisitDirectory(Start, p) == Continue;
    assert FoundAmong(Start, dir, p, 1) == FoundAmong(Start, dir, p, 0) + Found(Start, dir.children[0], p + [dir.children[0].name]);
  }

  lemma {:induction false} ResourcesFound(p: Path, xmlText: string)
    requires |p| > 0 && FileName(p) == "resources"
    ensures Found(Start, Resources(xmlText), p) == [p + ["META-INF", "persistence.xml"]]
  {
    assert FileName(p) == DirectoriesToExplore[3];
    SingleEntryFound(Resources(xmlText), p);
    MetaInfFound(p + ["META-INF"], xmlText);
    assert p + ["META-INF"] + ["persistence.xml"] == p + ["META-INF", "persistence.xml"];
  }

  lemma {:induction false} MainFound(p: Path, xmlText: string)
    requires |p| > 0 && FileName(p) == "main"
    ensures Found(Start, MainDir(xmlText), p) == [p + ["resources", "META-INF", "persistence.xml"]]
  {
    assert FileName(p) == DirectoriesToExplore[1];
    SingleEntryFound(MainDir(xmlText), p);
    ResourcesFound(p + ["resources"], xmlText);
    assert p + ["resources"] + ["META-INF", "persistence.xml"] == p + ["resources", "META-INF", "persistence.xml"];
  }

  /** A module's src tree contributes its one persistence.xml, whatever
      the module's path. */
  lemma {:induction false} ProjectFound(project: Path, xmlText: string)
    requires |project| > 0
    ensures Found(Start, ProjectSrc(xmlText), project + ["src"]) == [XmlIn(project)]
  {
    var p := project + ["src"];
    MainFound(p + ["main"], xmlText);
    assert p + ["main"] + ["resources", "META-INF", "persistence.xml"] == XmlIn(project);
    SrcFound(p, MainDir(xmlText), [XmlIn(project)]);
  }

  lemma {:induction false} SrcFound(p: Path, main: Node, r: seq<Path>)
    requires |p| > 0 && FileName(p) == "src" && main.name == "main"
    requires Found(Start, main, p + ["main"]) == r
    ensures Found(Start, Dir("src", [main]), p) == r
  {
    assert FileName(p) == DirectoriesToExplore[0];
    EntryFound(Dir("src", [main]), main, p, r);
  }

  /** A listed directory whose only entry is `c` contributes what `c` does;
      `c` is a parameter, so that its contents stay out of sight here. */
  lemma {:induction false} EntryFound(dir: Node, c: Node, p: Path, r: seq<Path>)
    requires |p| > 0 && FileName(p) in DirectoriesToExplore
    requires dir == Dir(FileName(p), [c])
    requires Found(Start, c, p + [c.name]) == r
    ensures Found(Start, dir, p) == r
  {
    SingleEntryFound(dir, p);
  }

  /** The walk collects the three persistence.xml files, and not the .txt
      files beside them. */
  lemma FixtureFindsThree()
    ensures FoundUnder(Disk(), Start) == [XmlIn(Start), XmlIn(Start + ["module1"]), XmlIn(Start + ["module2"])]
  {
    var mojotest := Disk().children[0].children[0];
    assert NodeAt(Disk(), Start) == Some(mojotest) by {
      assert Start[1..] == ["mojotest"] && Start[1..][1..] == [];
    }
    ProjectFound(Start, XmlText);
    ModuleFound("module1");
    ModuleFound("module2");
    var cs := mojotest.children;
    assert FoundAmong(Start, mojotest, Start, 1) == [XmlIn(Start)];
    assert FoundAmong(Start, mojotest, Start, 2) == [XmlIn(Start), XmlIn(Start + ["module1"])];
    assert FoundAmong(Start, mojotest, Start, 3) == [XmlIn(Start), XmlIn(Start + ["module1"]), XmlIn(Start + ["module2"])];
  }

  /** A module directory right below the starting directory is entered
      whatever its name, and contributes its src tree's file. */
  lemma {:induction false} ModuleFound(name: string)
    ensures Found(Start, Dir(name, [ProjectSrc(XmlText)]), Start + [name]) == [XmlIn(Start + [name])]
  {
    var p := Start + [name];
    assert Parent(p) == Start;
    ProjectFound(p, XmlText);
    var m := Dir(name, [ProjectSrc(XmlText)]);
    assert FoundAmong(Start, m, p, 1) == FoundAmong(Start, m, p, 0) + Found(Start, ProjectSrc(XmlText), p + ["src"]);
  }

  /** Printable ASCII: no line terminator of any kind. */
  ghost predicate Printable(s: string) {
    forall i :: 0 <= i < |s| ==> ' ' <= s[i] <= '~'
  }

  /** A fixture piece other than a version: printable, and without the
      first characters of "1.0-SNAPSHOT", "2.0-SNAPSHOT" and "bad.version". */
  ghost predicate Plain(s: string) {
    forall i :: 0 <= i < |s| ==> ' ' <= s[i] <= '~' && s[i] != '1' && s[i] != '2' && s[i] != 'b'
  }

  lemma PlainAppend(a: string, b: string)
    requires Plain(a) && Plain(b)
    ensures Plain(a + b)
  {
    forall i | |a| <= i < |a + b| ensures (a + b)[i] == b[i - |a|] {
    }
  }

  lemma PlainIs(s: string)
    requires Plain(s)
    ensures Printable(s) && '1' !in s && '2' !in s && 'b' !in s
    ensures NoLineTerminator(s) && NoLineBreak(s) && '\n' !in s
  {
    PrintableIs(s);
  }

  lemma PrintableIs(s: string)
    requires Printable(s)
    ensures NoLineTerminator(s) && NoLineBreak(s) && '\n' !in s
  {
  }

  /** The versions are printable; each lacks the other's first character. */
  lemma VersionsPrintable()
    ensures NoLineTerminator(OldVersion) && NoLineBreak(OldVersion) && '\n' !in OldVersion
    ensures NoLineTerminator(NewVersion) && NoLineBreak(NewVersion) && '\n' !in NewVersion
    ensures '1' !in NewVersion && 'b' !in OldVersion
  {
    assert Printable(OldVersion) && Printable(NewVersion);
    PrintableIs(OldVersion);
    PrintableIs(NewVersion);
  }

  lemma MarkupPlain()
    ensures Plain("<xml>") && Plain("</xml>") && Plain(JarIndent) && Plain(JarSuffix)
    ensures Plain(JarPrefix) && Plain(UnitClose)
  {
  }

  /** The persistence-unit line is plain, checked a piece at a time. */
  lemma UnitOpenPlain()
    ensures Plain(UnitOpen)
  {
    var a, b, c, d := " <persistence-unit", " name=\"myPU\"", " transaction-type=", "\"RESOURCE_LOCAL\">";
    assert Plain(a) && Plain(b);
    assert Plain(c) && Plain(d);
    PlainAppend(a, b);
    PlainAppend(a + b, c);
    PlainAppend(a + b + c, d);
  }

  lemma TagsPlain()
    ensures Plain(JarOpen) && Plain(JarClose)
  {
  }

  /** The pieces of the fixture's lines, other than the versions, are plain. */
  lemma LinesPlain()
    ensures Plain(XmlLines[0]) && Plain(XmlLines[1]) && Plain(XmlLines[3]) && Plain(XmlLines[4])
    ensures Plain(JarIndent + JarOpen + JarPrefix) && Plain(JarSuffix + JarClose)
    ensures Plain(JarIndent) && Plain(JarPrefix) && Plain(JarSuffix)
    ensures forall i :: 0 <= i < |XmlLines| && i != 2 ==> Plain(XmlLines[i])
  {
    MarkupPlain();
    TagsPlain();
    UnitOpenPlain();
    PlainAppend(JarIndent, JarOpen);
    PlainAppend(JarIndent + JarOpen, JarPrefix);
    PlainAppend(JarSuffix, JarClose);
  }

  /** `x` occurs in `a + x + b`, right after `a`. */
  lemma ContainsMiddle(a: string, x: string, b: string)
    ensures Contains(a + x + b, x)
  {
    var s := a + x + b;
    assert s[|a|..|a| + |x|] == x;
    assert OccursAt(s, x, |a|);
  }

  /** The fixture's file reads back as its five lines. */
  lemma FixtureLines()
    ensures ReadLines(Terminated(XmlLines)) == XmlLines
  {
    LinesPlain();
    VersionsPrintable();
    var pre, post := JarIndent + JarOpen + JarPrefix, JarSuffix + JarClose;
    PlainIs(pre);
    PlainIs(post);
    assert XmlLines[2] == pre + OldVersion + post;
    assert NoLineBreak(XmlLines[2]) by {
      forall i | 0 <= i < |XmlLines[2]| ensures !IsLineBreak(XmlLines[2][i]) {
        if i < |pre| {
          assert XmlLines[2][i] == pre[i];
        } else if i < |pre| + |OldVersion| {
          assert XmlLines[2][i] == OldVersion[i - |pre|];
        } else {
          assert XmlLines[2][i] == post[i - |pre| - |OldVersion|];
        }
      }
    }
    forall i | 0 <= i < |XmlLines| && i != 2 ensures NoLineBreak(XmlLines[i]) {
      PlainIs(XmlLines[i]);
    }
    ReadTerminated(XmlLines);
  }

  /** The four lines other than the jar-file line are kept as they are by a
      rewrite whose old version starts with a character they lack. */
  lemma OtherLinesKept(fromVersion: string, toVersion: string)
    requires fromVersion != [] && fromVersion[0] in "12b"
    ensures forall i :: 0 <= i < |XmlLines| && i != 2 ==>
              RewriteLine(XmlLines[i], fromVersion, toVersion) == XmlLines[i]
  {
    LinesPlain();
    forall i | 0 <= i < |XmlLines| && i != 2
      ensures RewriteLine(XmlLines[i], fromVersion, toVersion) == XmlLines[i]
    {
      PlainIs(XmlLines[i]);
      FirstCharAbsent(XmlLines[i], fromVersion);
      ReplaceAbsent(XmlLines[i], fromVersion, toVersion);
    }
  }

  /** Concat of five lines. */
  lemma ConcatFive(ls: seq<string>)
    requires |ls| == 5
    ensures Concat(ls) == ls[0] + ls[1] + ls[2] + ls[3] + ls[4]
  {
    assert ls[..4][..3] == ls[..3] && ls[..3][..2] == ls[..2] && ls[..2][..1] == ls[..1] && ls[..1][..0] == [];
    assert Concat(ls[..1]) == ls[0];
    assert Concat(ls[..2]) == ls[0] + ls[1];
    assert Concat(ls[..3]) == ls[0] + ls[1] + ls[2];
    assert Concat(ls[..4]) == ls[0] + ls[1] + ls[2] + ls[3];
  }

  /** The jar-file line as the rewrite with the fixture's versions leaves it. */
  const NewJarLine: string := JarIndent + JarOpen + JarPrefix + NewVersion + JarSuffix + JarClose

  /** The fixture's lines after the rewrite. */
  const NewXmlLines: seq<string> := [XmlLines[0], XmlLines[1], NewJarLine, XmlLines[3], XmlLines[4]]

  lemma JarLineRewritten()
    ensures RewriteLine(XmlLines[2], OldVersion, NewVersion) == NewJarLine
  {
    LinesPlain();
    VersionsPrintable();
    PlainIs(JarPrefix);
    PlainIs(JarSuffix);
    PlainIs(JarIndent + JarOpen + JarPrefix);
    PlainIs(JarSuffix + JarClose);
    assert JarSuffix + JarClose + "" == JarSuffix + JarClose;
    RewriteLineRoundTrip(JarIndent, JarPrefix, JarSuffix, "", OldVersion, NewVersion);
    assert XmlLines[2] == JarIndent + JarOpen + JarPrefix + OldVersion + JarSuffix + JarClose + "";
  }

  /** The fixture's lines rewritten: only the jar-file line changes, and it
      now names the new version. */
  lemma FixtureRewrittenLines()
    ensures RewriteLines(XmlLines, OldVersion, NewVersion) == NewXmlLines
  {
    JarLineRewritten();
    OtherLinesKept(OldVersion, NewVersion);
  }

  /** The text the rewrite writes back: the five lines, run together. */
  const NewText: string := XmlLines[0] + XmlLines[1] + NewJarLine + XmlLines[3] + XmlLines[4]

  lemma FixtureRewrittenText()
    ensures RewrittenContent(Terminated(XmlLines), OldVersion, NewVersion) == NewText
  {
    FixtureLines();
    FixtureRewrittenLines();
    ConcatFive(NewXmlLines);
  }

  /** `content` stands for NewText, so that the verifier does not unfold the
      constant when it looks for the occurrence. */
  lemma NewTextContainsNew(content: string)
    requires content == NewText
    ensures Contains(content, NewVersion)
  {
    var before := XmlLines[0] + XmlLines[1] + JarIndent + JarOpen + JarPrefix;
    var after := JarSuffix + JarClose + XmlLines[3] + XmlLines[4];
    assert content == before + NewVersion + after;
    ContainsMiddle(before, NewVersion, after);
  }

  lemma NewTextLacksOld()
    ensures !Contains(NewText, OldVersion)
  {
    var content := NewText;
    LinesPlain();
    VersionsPrintable();
    PlainIs(XmlLines[0]);
    PlainIs(XmlLines[1]);
    PlainIs(JarIndent + JarOpen + JarPrefix);
    PlainIs(JarSuffix + JarClose);
    PlainIs(XmlLines[3]);
    PlainIs(XmlLines[4]);
    assert content == XmlLines[0] + XmlLines[1] + (JarIndent + JarOpen + JarPrefix) + NewVersion
                      + (JarSuffix + JarClose) + XmlLines[3] + XmlLines[4];
    FirstCharAbsent(content, OldVersion);
  }

  /** With the old version "1.0-SNAPSHOT" and the new "2.0-SNAPSHOT", the
      file written back holds the new version and no longer the old one, and
      its lines follow each other with no line terminator between them. */
  lemma FixtureRewrite()
    ensures RewrittenContent(Terminated(XmlLines), OldVersion, NewVersion)
         == XmlLines[0] + XmlLines[1] + NewJarLine + XmlLines[3] + XmlLines[4]
    ensures Contains(RewrittenContent(Terminated(XmlLines), OldVersion, NewVersion), NewVersion)
    ensures !Contains(RewrittenContent(Terminated(XmlLines), OldVersion, NewVersion), OldVersion)
  {
    FixtureRewrittenText();
    NewTextContainsNew(NewText);
    NewTextLacksOld();
  }

  /** The fixture's text read and written back unchanged line by line. */
  const JoinedText: string := XmlLines[0] + XmlLines[1] + XmlLines[2] + XmlLines[3] + XmlLines[4]

  lemma FixtureUnchangedLines()
    ensures RewriteLines(XmlLines, "bad.version", NewVersion) == XmlLines
  {
    OtherLinesKept("bad.version", NewVersion);
    assert RewriteLine(XmlLines[2], "bad.version", NewVersion) == XmlLines[2] by {
      LinesPlain();
      VersionsPrintable();
      PlainIs(JarIndent + JarOpen + JarPrefix);
      PlainIs(JarSuffix + JarClose);
      assert XmlLines[2] == (JarIndent + JarOpen + JarPrefix) + OldVersion + (JarSuffix + JarClose);
      FirstCharAbsent(XmlLines[2], "bad.version");
      ReplaceAbsent(XmlLines[2], "bad.version", NewVersion);
    }
  }

  lemma JoinedTextDiffers()
    ensures JoinedText != Terminated(XmlLines)
  {
    var content := JoinedText;
    LinesPlain();
    VersionsPrintable();
    PlainIs(XmlLines[0]);
    PlainIs(XmlLines[1]);
    PlainIs(JarIndent + JarOpen + JarPrefix);
    PlainIs(JarSuffix + JarClose);
    PlainIs(XmlLines[3]);
    PlainIs(XmlLines[4]);
    assert content == XmlLines[0] + XmlLines[1] + (JarIndent + JarOpen + JarPrefix) + OldVersion
                      + (JarSuffix + JarClose) + XmlLines[3] + XmlLines[4];
    TerminatedHasLineFeed(XmlLines);
  }

  /** A non-empty run of terminated lines holds a line feed. */
  lemma TerminatedHasLineFeed(ls: seq<string>)
    requires ls != []
    ensures '\n' in Terminated(ls)
  {
    var t := Terminated(ls);
    assert t == ls[0] + "\n" + Terminated(ls[1..]);
    assert t[|ls[0]|] == '\n';
  }

  /** An old version that occurs nowhere ("bad.version") changes no line, yet
      the file is still rewritten, without its line terminators; no error is
      raised. */
  lemma FixtureNoMatch()
    ensures RewrittenContent(Terminated(XmlLines), "bad.version", NewVersion)
         == XmlLines[0] + XmlLines[1] + XmlLines[2] + XmlLines[3] + XmlLines[4]
    ensures RewrittenContent(Terminated(XmlLines), "bad.version", NewVersion) != Terminated(XmlLines)
  {
    FixtureLines();
    FixtureUnchangedLines();
    ConcatFive(XmlLines);
    JoinedTextDiffers();
  }

  /** As written, the first run leaves the file on one line, starting with
      `<xml>`, which the jar-file pattern does not match: running the inverse
      rewrite from the new version back to the old changes nothing, so the
      original text is not restored. */
  lemma SecondRunChangesNothing()
    ensures RewrittenContent(RewrittenContent(XmlText, OldVersion, NewVersion), NewVersion, OldVersion)
         == RewrittenContent(XmlText, OldVersion, NewVersion)
    ensures RewrittenContent(RewrittenContent(XmlText, OldVersion, NewVersion), NewVersion, OldVersion) != XmlText
  {
    FixtureRewrittenText();
    NewTextOneLine();
    ReadSingleLine(NewText);
    NewTextNoJarLine();
    assert RewriteLines([NewText], NewVersion, OldVersion) == [NewText];
    assert [NewText][..0] == [];
    assert Concat([NewText]) == NewText;
    TerminatedHasLineFeed(XmlLines);
  }

  /** The text written by the first run holds no line break. */
  lemma NewTextOneLine()
    ensures NoLineBreak(NewText) && NewText != []
  {
    FixtureLines();
    ReadLinesNoLineBreak(XmlText);
    VersionsPrintable();
    RewriteLinesNoLineBreak(XmlLines, OldVersion, NewVersion);
    FixtureRewrittenLines();
    ConcatNoLineBreak(NewXmlLines);
    ConcatFive(NewXmlLines);
  }

  /** The one line of the written text starts with `<xml>`, not `<jar-file>`. */
  lemma NewTextNoJarLine()
    ensures !MatchesJarLine(NewText)
  {
    assert NewText[..5] == "<xml>" by {
      assert NewText == XmlLines[0] + (XmlLines[1] + NewJarLine + XmlLines[3] + XmlLines[4]);
    }
    assert NewText[0] == '<' && NewText[1] == 'x';
    assert LeadingWhitespace(NewText) == 0;
    if |JarOpen| <= |NewText| {
      assert NewText[0..|JarOpen|][1] != JarOpen[1];
    }
  }

  /** With a line terminator after every line, the inverse rewrite restores
      the fixture's text. */
  lemma FixedRunsInvert()
    ensures RewrittenContentWithNewlines(RewrittenContentWithNewlines(XmlText, OldVersion, NewVersion), NewVersion, OldVersion)
         == XmlText
  {
    FixtureLines();
    FixtureRewrittenLines();
    VersionsPrintable();
    RewrittenLinesReadBack(XmlText, OldVersion, NewVersion);
    FixtureInverseLines();
  }

  /** The rewritten lines rewritten back: only the jar-file line changes, and
      it names the old version again. */
  lemma FixtureInverseLines()
    ensures RewriteLines(NewXmlLines, NewVersion, OldVersion) == XmlLines
  {
    OtherLinesKept(NewVersion, OldVersion);
    JarLineRewrittenBack();
  }

  lemma JarLineRewrittenBack()
    ensures RewriteLine(NewJarLine, NewVersion, OldVersion) == XmlLines[2]
  {
    LinesPlain();
    VersionsPrintable();
    PlainIs(JarPrefix);
    PlainIs(JarSuffix);
    PlainIs(JarIndent + JarOpen + JarPrefix);
    PlainIs(JarSuffix + JarClose);
    assert JarSuffix + JarClose + "" == JarSuffix + JarClose;
    RewriteLineRoundTrip(JarIndent, JarPrefix, JarSuffix, "", OldVersion, NewVersion);
    assert NewJarLine == JarIndent + JarOpen + JarPrefix + NewVersion + JarSuffix + JarClose + "";
  }

  /** The first test end to end: a mojo started at /tmp/mojotest with
      versions "1" and "2" collects three files. */
  method ShouldFindPersistenceXmls() returns (count: nat)
    ensures count == 3
  {
    var fs := new FileSystem(Disk());
    var mojo := new PersistenceXmlMojo([]);
    mojo := mojo.StartingDir(Start);
    mojo := mojo.FromVersion(Some("1"));
    mojo := mojo.ToVersion(Some("2"));
    var outcome := mojo.Execute(fs);
    var found := mojo.GetPersistenceXmls();
    FixtureFindsThree();
    count := |found|;
  }

  /** The second test end to end: with the old version "1.0-SNAPSHOT" and
      the new "2.0-SNAPSHOT", the first collected file afterwards holds the
      new version and not the old one. Which of the three files comes first
      does not matter: all of them do. */
  method ShouldReplaceVersionNumber() returns (content: Option<string>)
    ensures content.Some? && Contains(content.value, NewVersion) && !Contains(content.value, OldVersion)
  {
    var fs := new FileSystem(Disk());
    var mojo := new PersistenceXmlMojo([]);
    mojo := mojo.StartingDir(Start);
    mojo := mojo.FromVersion(Some(OldVersion));
    mojo := mojo.ToVersion(Some(NewVersion));
    assert !IsNullOrEmpty(mojo.toVersion) && !IsNullOrEmpty(mojo.fromVersion);
    var outcome := mojo.Execute(fs);
    var found := mojo.GetPersistenceXmls();
    assert found == FoundUnder(Disk(), Start);
    assert fs.root == TransformAll(Disk(), found, OldVersion, NewVersion);
    FixtureFindsThree();
    CollectedFileAfterRun(fs.root, found, found[0]);
    content := fs.Read(found[0]);
  }

  /** After the run, every collected file holds the new version and not the
      old one. */
  lemma CollectedFileAfterRun(root: Node, ps: seq<Path>, q: Path)
    requires ps == FoundUnder(Disk(), Start)
    requires root == TransformAll(Disk(), ps, OldVersion, NewVersion)
    requires q in ps
    ensures ContentAt(root, q).Some?
    ensures Contains(ContentAt(root, q).value, NewVersion)
    ensures !Contains(ContentAt(root, q).value, OldVersion)
  {
    FixtureFindsThree();
    DiskFacts();
    ExecuteEffect(Disk(), Start, OldVersion, NewVersion, q);
    FixtureRewrite();
  }

  /** The fixture disk is well formed, and each of the three projects holds
      the fixture text in its persistence.xml. */
  lemma DiskFacts()
    ensures WellFormed(Disk())
    ensures ContentAt(Disk(), XmlIn(Start)) == Some(XmlText)
    ensures ContentAt(Disk(), XmlIn(Start + ["module1"])) == Some(XmlText)
    ensures ContentAt(Disk(), XmlIn(Start + ["module2"])) == Some(XmlText)
  {
    var mojotest := Disk().children[0].children[0];
    ProjectSrcWellFormed(XmlText);
    assert WellFormed(Dir("module1", [ProjectSrc(XmlText)]));
    assert WellFormed(Dir("module2", [ProjectSrc(XmlText)]));
    assert WellFormed(mojotest) by {
      assert mojotest.children[0].name == "src";
      assert mojotest.children[1].name == "module1";
      assert mojotest.children[2].name == "module2";
    }
    assert NodeAt(Disk(), Start) == Some(mojotest) by {
      assert Start[1..] == ["mojotest"] && Start[1..][1..] == [];
    }
    NodeAtAppend(Disk(), Start, ["src", "main", "resources", "META-INF", "persistence.xml"]);
    ProjectSrcHolds(mojotest, XmlText);
    ModuleHolds(mojotest, 1);
    ModuleHolds(mojotest, 2);
  }

  /** Module `i` of /tmp/mojotest holds the fixture text in its
      persistence.xml. */
  lemma ModuleHolds(mojotest: Node, i: int)
    requires mojotest == Disk().children[0].children[0]
    requires i == 1 || i == 2
    ensures ContentAt(Disk(), XmlIn(Start + [mojotest.children[i].name])) == Some(XmlText)
  {
    var cs := mojotest.children;
    var m := Start + [cs[i].name];
    ChildIndexUniqueModules(cs, i);
    assert NodeAt(Disk(), Start) == Some(mojotest) by {
      assert Start[1..] == ["mojotest"] && Start[1..][1..] == [];
    }
    assert NodeAt(mojotest, [cs[i].name]) == Some(cs[i]) by {
      assert [cs[i].name][1..] == [];
    }
    NodeAtAppend(Disk(), Start, [cs[i].name]);
    NodeAtAppend(Disk(), m, ["src", "main", "resources", "META-INF", "persistence.xml"]);
    ProjectSrcHolds(cs[i], XmlText);
  }

  /** Looking up a module's name in /tmp/mojotest finds that module. */
  lemma ChildIndexUniqueModules(cs: seq<Node>, i: int)
    requires cs == Disk().children[0].children[0].children
    requires i == 1 || i == 2
    ensures ChildIndex(cs, cs[i].name) == i
  {
    assert cs[0].name == "src" && cs[1].name == "module1" && cs[2].name == "module2";
    assert "src"[0] != "module1"[0] && "module1"[6] != "module2"[6];
    ChildIndexUnique(cs, i);
  }

  lemma ProjectSrcWellFormed(xmlText: string)
    ensures WellFormed(ProjectSrc(xmlText))
  {
    assert WellFormed(MetaInf(xmlText)) by {
      assert "persistence.xml" != "persistence.txt" by {
        assert "persistence.xml"[13] != "persistence.txt"[13];
      }
    }
    assert WellFormed(Resources(xmlText));
    assert WellFormed(MainDir(xmlText));
  }

  /** A project whose first entry is the src tree holds the text in its
      persistence.xml. */
  lemma ProjectSrcHolds(project: Node, xmlText: string)
    requires project.Dir? && |project.children| > 0 && project.children[0] == ProjectSrc(xmlText)
    ensures NodeAt(project, ["src", "main", "resources", "META-INF", "persistence.xml"])
         == Some(File("persistence.xml", xmlText))
  {
    var rel: Path := ["src", "main", "resources", "META-INF", "persistence.xml"];
    assert rel[1..] == ["main", "resources", "META-INF", "persistence.xml"];
    assert rel[1..][1..] == ["resources", "META-INF", "persistence.xml"];
    assert rel[1..][1..][1..] == ["META-INF", "persistence.xml"];
    assert rel[1..][1..][1..][1..] == ["persistence.xml"];
    assert rel[1..][1..][1..][1..][1..] == [];
  }

  /** execute without versions fails before touching the disk. */
  method ShouldRequireVersions() returns (outcome: Outcome, count: nat)
    ensures outcome.ExecutionError? && count == 0
  {
    var fs := new FileSystem(Disk());
    var mojo := new PersistenceXmlMojo(Start);
    mojo := mojo.FromVersion(Some("1.0-SNAPSHOT"));
    mojo := mojo.ToVersion(Some(""));
    outcome := mojo.Execute(fs);
    var found := mojo.GetPersistenceXmls();
    count := |found|;
  }
}
