# transformer-maven-plugin: the `persistencexml` goal

This project models `PersistenceXmlMojo`, the Maven goal that bumps jar
versions in JPA deployment descriptors. It also proves what the goal does.

When it runs (`execute`), the goal does three things:

1. It refuses to start unless both `fromVersion` and `toVersion` are non-empty.
2. It walks the file tree from the starting directory with its inner visitor
   `PersistenceXmlFinder`, and collects every regular file called exactly
   `persistence.xml`. The policy for entering directories is:
   - the starting directory and its immediate subdirectories are always
     entered;
   - deeper directories are entered only when their name is one of `src`,
     `main`, `test`, `resources` or `META-INF`.
3. For each collected file, in order, a fresh `FileReplace` reads the file
   line by line. In every line that matches
   `^\s*<jar-file>.*</jar-file>\s*$` it replaces every occurrence of
   `fromVersion` with `toVersion`. It then writes the processed lines back.

The model is split into modules along those lines:

- `FileTree`: the disk.
  - A tree of directories, with their entries in listing order, and text
    files.
  - `class FileSystem`, whose `root` is replaced by `Write`.
  - `ContentAt` for reading, and `Store` for overwriting.
- `JavaText`: the library behaviour the goal depends on, written out.
  - `String.replace`, as `Replace`.
  - The successive results of `BufferedReader.readLine`, as `ReadLines`.
  - The text produced by writing each line with `BufferedWriter.write`, as
    `Concat`.
  - The characters of Java's `\s`, and those that `.` does not match.
- `Finder`: the visitor.
  - `preVisitDirectory` as a function, and the allow-list as a constant.
  - `Found` and `FoundAmong`: what `Files.walkFileTree` with the visitor
    collects.
  - `Collected`: an independent description of the same set.
- `Rewriter`: `class FileReplace`.
  - It has the fields `lines` and `line`.
  - Its `doIt` opens the file, runs the read loop (`ReadAll`), and writes the
    lines back (`WriteAll`).
  - `MatchesJarLine` is the regex decision, computed by stripping the
    whitespace. It is proved equal to the pattern's meaning `IsJarLine`.
- `Mojo`: `class PersistenceXmlMojo`.
  - It has the four fields of the goal and its fluent setters.
  - Its `Execute` calls `FindPersistenceXmls` and `TransformPersistenceXmls`,
    as the source does.
  - The inner visitor `PersistenceXmlFinder` has no fields of its own. It
    reads the mojo's `startingDir` and appends to the mojo's
    `persistenceXmls`, so `VisitFile` and the walk are methods of the mojo.
- `Fixture`: the tree that the unit tests build under `/tmp/mojotest`, and
  what the model says about each test.

## Model

| member | source | states |
|---|---|---|
| `FileTree.Store` | src/main/java/com/grommitz/maven/transformer/plugin/PersistenceXmlMojo.java:140-145 | Overwriting one file in the tree. `StoreFrame`, `StoreKeepsShape` and `StoreWellFormed` characterise it. |
| `FileTree.StoreFrame` | src/main/java/com/grommitz/maven/transformer/plugin/PersistenceXmlMojo.java:140-145 | Overwriting a file changes that file's text, if the file exists. No other path's text changes. |
| `FileTree.StoreKeepsShape` | src/main/java/com/grommitz/maven/transformer/plugin/PersistenceXmlMojo.java:140-145 | Writing a file creates, removes or renames nothing: at every depth, a path leads to a node after the write exactly when it did before, and to a directory exactly when it did before. |
| `FileTree.StoreWellFormed` | src/main/java/com/grommitz/maven/transformer/plugin/PersistenceXmlMojo.java:140-145 | A tree with unique entry names keeps unique entry names after a write. |
| `FileTree.ContentAt` | src/main/java/com/grommitz/maven/transformer/plugin/PersistenceXmlMojo.java:126-128 | The text of the regular file at a path, or None where `new FileReader` would throw. `StoreFrame` relates it to writes. |
| `FileTree.FileSystem.Read` | src/main/java/com/grommitz/maven/transformer/plugin/PersistenceXmlMojo.java:126-128 | Opening a path gives the text of the regular file there. It gives None, standing for the exception, when there is no such file. |
| `FileTree.FileSystem.Write` | src/main/java/com/grommitz/maven/transformer/plugin/PersistenceXmlMojo.java:140-145 | Overwriting an existing file: the new disk is the old one with that file's text replaced, and every other path reads as before. |
| `Finder.PreVisitDirectory` | src/main/java/com/grommitz/maven/transformer/plugin/PersistenceXmlMojo.java:92-107 | The visitor's directory decision. `PolicyByDepth` characterises it. |
| `Finder.Found` | src/main/java/com/grommitz/maven/transformer/plugin/PersistenceXmlMojo.java:83-116 | What the walk with the visitor collects below one node. `FoundIff` characterises it against `Collected`. |
| `Finder.FoundAmong` | src/main/java/com/grommitz/maven/transformer/plugin/PersistenceXmlMojo.java:83 | What the walk collects from the first entries of one directory. `FoundAmongMember` characterises it. |
| `Finder.PolicyByDepth` | src/main/java/com/grommitz/maven/transformer/plugin/PersistenceXmlMojo.java:92-107 | A directory `rel` below the start is entered if and only if it is at depth 0 or 1, or its last name is on the allow-list. |
| `Finder.FoundIff` | src/main/java/com/grommitz/maven/transformer/plugin/PersistenceXmlMojo.java:83-116 | A path is collected if and only if three things hold. It lies in the subtree. It is a regular file named `persistence.xml`. Every directory on the way to it is entered by `preVisitDirectory`. |
| `Finder.FoundAmongMember` | src/main/java/com/grommitz/maven/transformer/plugin/PersistenceXmlMojo.java:83 | What a directory's walk collects is exactly what the walks of its entries collect. |
| `Finder.FoundIsFile` | src/main/java/com/grommitz/maven/transformer/plugin/PersistenceXmlMojo.java:110-114 | Every collected path is below the walked path. It names a regular file whose name is `persistence.xml`. |
| `Finder.FoundOnlyThroughEntered` | src/main/java/com/grommitz/maven/transformer/plugin/PersistenceXmlMojo.java:93-106 | Every directory above a collected file is one of three things: the start, a child of the start, or a directory named on the allow-list. Nothing below a skipped directory is collected. |
| `Finder.FoundUnderPath` | src/main/java/com/grommitz/maven/transformer/plugin/PersistenceXmlMojo.java:83 | Everything the walk from a path collects begins with that path. |
| `Finder.FoundNoDuplicates` | src/main/java/com/grommitz/maven/transformer/plugin/PersistenceXmlMojo.java:110-114 | On a tree with unique entry names, one walk collects each file at most once. |
| `JavaText.Replace` | src/main/java/com/grommitz/maven/transformer/plugin/PersistenceXmlMojo.java:133 | `String.replace`. `ReplaceAbsent`, `ReplaceBySelf`, `ReplaceFirstOccurrence` and `ReplaceNoLineBreak` characterise it. |
| `JavaText.ReplaceNoLineBreak` | src/main/java/com/grommitz/maven/transformer/plugin/PersistenceXmlMojo.java:133 | Replacing by a text without line breaks, inside a line without line breaks, gives a line without line breaks. |
| `JavaText.Contains` | src/test/java/com/grommitz/maven/transformer/plugin/PersistenceXmlMojoTest.java:56-57 | `String.contains`: the target occurs at some index. `FirstCharAbsent` and `ReplaceAbsent` use it. |
| `JavaText.ReplaceAbsent` | src/main/java/com/grommitz/maven/transformer/plugin/PersistenceXmlMojo.java:133 | If the target does not occur, `replace` gives the line back unchanged. |
| `JavaText.ReplaceBySelf` | src/main/java/com/grommitz/maven/transformer/plugin/PersistenceXmlMojo.java:133 | Replacing a non-empty target by itself gives the line back unchanged. |
| `JavaText.ReplaceFirstOccurrence` | src/main/java/com/grommitz/maven/transformer/plugin/PersistenceXmlMojo.java:133 | The scan runs left to right. When no occurrence starts before a given one, the text before it is kept, that occurrence is replaced, and the scan resumes after it. |
| `JavaText.ReplaceSingleSplit` | src/main/java/com/grommitz/maven/transformer/plugin/PersistenceXmlMojo.java:133 | The special case of the scan above when the target's first character does not occur before the occurrence. |
| `JavaText.Terminated` | src/test/java/com/grommitz/maven/transformer/plugin/PersistenceXmlMojoTest.java:99-103 | The text the test writes: each line followed by a line feed. `ReadTerminated` reads it back as those lines. |
| `JavaText.ReadLines` | src/main/java/com/grommitz/maven/transformer/plugin/PersistenceXmlMojo.java:129 | The successive results of `readLine`. `LineLengthSpec`, `ReadLinesNoLineBreak`, `ReadTerminated` and `ReadSingleLine` characterise it. |
| `JavaText.LineLengthSpec` | src/main/java/com/grommitz/maven/transformer/plugin/PersistenceXmlMojo.java:129 | A line read runs up to the first `\n` or `\r`, and does not include it. |
| `JavaText.ReadLinesNoLineBreak` | src/main/java/com/grommitz/maven/transformer/plugin/PersistenceXmlMojo.java:129 | No line that `readLine` returns contains a line break. |
| `JavaText.ReadTerminated` | src/main/java/com/grommitz/maven/transformer/plugin/PersistenceXmlMojo.java:129 | Reading a text made of lines each ended by `\n` gives back exactly those lines. |
| `JavaText.ReadSingleLine` | src/main/java/com/grommitz/maven/transformer/plugin/PersistenceXmlMojo.java:129 | A non-empty text without a line break reads as one line. An empty text reads as none. |
| `JavaText.Concat` | src/main/java/com/grommitz/maven/transformer/plugin/PersistenceXmlMojo.java:142-143 | The text the write loop produces. `ConcatNoLineBreak` characterises it. |
| `JavaText.ConcatNoLineBreak` | src/main/java/com/grommitz/maven/transformer/plugin/PersistenceXmlMojo.java:142-143 | Writing lines without a line break produces a text without a line break. The file collapses to one line. |
| `Rewriter.LeadingWhitespaceSpec` | src/main/java/com/grommitz/maven/transformer/plugin/PersistenceXmlMojo.java:131 | The leading `\s*` of the pattern is the longest run of `\s` characters at the start of the line. |
| `Rewriter.TrailingWhitespaceSpec` | src/main/java/com/grommitz/maven/transformer/plugin/PersistenceXmlMojo.java:131 | The trailing `\s*` of the pattern is the longest run of `\s` characters at the end of the line. |
| `Rewriter.MatchesJarLine` | src/main/java/com/grommitz/maven/transformer/plugin/PersistenceXmlMojo.java:131 | The decision of `line.matches(...)`. `MatchesJarLineIff` characterises it. |
| `Rewriter.MatchesJarLineIff` | src/main/java/com/grommitz/maven/transformer/plugin/PersistenceXmlMojo.java:131 | The stripping decision holds if and only if the line splits as the pattern requires. The split is: whitespace, `<jar-file>`, characters other than line terminators, `</jar-file>`, whitespace. |
| `Rewriter.MatchesJarLineSound` | src/main/java/com/grommitz/maven/transformer/plugin/PersistenceXmlMojo.java:131 | When the decision says yes, the stripped whitespace and the two tags form a split the pattern accepts. |
| `Rewriter.MatchesJarLineComplete` | src/main/java/com/grommitz/maven/transformer/plugin/PersistenceXmlMojo.java:131 | Any split the pattern accepts makes the decision say yes. |
| `Rewriter.JarLineOfParts` | src/main/java/com/grommitz/maven/transformer/plugin/PersistenceXmlMojo.java:131 | Whitespace, then `<jar-file>`, text without line terminators, `</jar-file>` and whitespace, always matches the pattern. |
| `Rewriter.RewriteLine` | src/main/java/com/grommitz/maven/transformer/plugin/PersistenceXmlMojo.java:131-135 | One iteration of the read loop. `RewriteLineMeaning` characterises it. |
| `Rewriter.RewriteLineMeaning` | src/main/java/com/grommitz/maven/transformer/plugin/PersistenceXmlMojo.java:131-135 | A line that matches the pattern has every `fromVersion` replaced by `toVersion`. Any other line is kept as read. |
| `Rewriter.RewriteLines` | src/main/java/com/grommitz/maven/transformer/plugin/PersistenceXmlMojo.java:129-136 | There is one processed line per line read, in order. Each is the rewrite of its own input line. |
| `Rewriter.RewriteLinesAbsent` | src/main/java/com/grommitz/maven/transformer/plugin/PersistenceXmlMojo.java:129-136 | If no line contains `fromVersion`, every line comes out as it went in. |
| `Rewriter.JarLineWith` | src/main/java/com/grommitz/maven/transformer/plugin/PersistenceXmlMojo.java:131 | A jar-file line with a version inside the element still matches the pattern. |
| `Rewriter.RewriteLineInverse` | src/main/java/com/grommitz/maven/transformer/plugin/PersistenceXmlMojo.java:131-133 | Rewriting a jar-file line from the old version to the new, and from the new back to the old, gives the line back. This holds when neither version occurs on its line anywhere but in the place it was put. |
| `Rewriter.RewriteLineRoundTrip` | src/main/java/com/grommitz/maven/transformer/plugin/PersistenceXmlMojo.java:131-133 | The same round trip, in the special case where neither version's first character occurs elsewhere on the line, as in the test's jar-file line. |
| `Rewriter.RewrittenContent` | src/main/java/com/grommitz/maven/transformer/plugin/PersistenceXmlMojo.java:124-145 | The text `doIt` writes for a file first read as `text`: the processed lines, run together. `TransformPersistenceXmls` proves that `DoIt` writes it, and `TransformAllEffect` is stated in terms of it. |
| `Rewriter.RewriteLinesNoLineBreak` | src/main/java/com/grommitz/maven/transformer/plugin/PersistenceXmlMojo.java:129-136 | When the new version has no line break, no processed line has one. |
| `Rewriter.RewrittenLinesReadBack` | src/main/java/com/grommitz/maven/transformer/plugin/PersistenceXmlMojo.java:142-143 | The corrected write: with a line terminator after each line, the file reads back as exactly the processed lines. See "## Findings". |
| `Rewriter.FileReplace.constructor` | src/main/java/com/grommitz/maven/transformer/plugin/PersistenceXmlMojo.java:121-122 | A new `FileReplace` has no lines and a null `line`. |
| `Rewriter.FileReplace.DoIt` | src/main/java/com/grommitz/maven/transformer/plugin/PersistenceXmlMojo.java:124-149 | If the file cannot be opened, nothing changes. Otherwise `lines` gains the rewrite of every line read, `line` ends null, and the file holds the concatenation of `lines`. |
| `Rewriter.FileReplace.ReadAll` | src/main/java/com/grommitz/maven/transformer/plugin/PersistenceXmlMojo.java:129-136 | The read loop adds, in order, one processed line per line read: the line rewritten when it matches the pattern, and otherwise the line as read. |
| `Rewriter.FileReplace.WriteAll` | src/main/java/com/grommitz/maven/transformer/plugin/PersistenceXmlMojo.java:140-145 | The file holds every collected line, in order, with nothing between them. |
| `Mojo.IsNullOrEmpty` | src/main/java/com/grommitz/maven/transformer/plugin/PersistenceXmlMojo.java:47 | Guava's `Strings.isNullOrEmpty`: null or the empty string. `Execute` fails exactly when it holds for either version. |
| `Mojo.RewriteFile` | src/main/java/com/grommitz/maven/transformer/plugin/PersistenceXmlMojo.java:68 | The disk after `new FileReplace().doIt(f)`: the file holds `RewrittenContent` of its text, and a path that is not a file is left alone. `TransformAllEffect` characterises it. |
| `Mojo.FoundUnder` | src/main/java/com/grommitz/maven/transformer/plugin/PersistenceXmlMojo.java:81-87 | What `findPersistenceXmls` adds. `ExecuteEffect` and `Finder.FoundIff` characterise it. |
| `Mojo.TransformAll` | src/main/java/com/grommitz/maven/transformer/plugin/PersistenceXmlMojo.java:66-70 | The disk after `transformPersistenceXmls`. `TransformAllEffect` and `TransformAllShape` characterise it. |
| `Mojo.TransformAllEffect` | src/main/java/com/grommitz/maven/transformer/plugin/PersistenceXmlMojo.java:66-70 | When the paths are distinct, each listed file ends up holding its own text rewritten once. Every other path is untouched. |
| `Mojo.TransformAllShape` | src/main/java/com/grommitz/maven/transformer/plugin/PersistenceXmlMojo.java:66-70 | The transformation keeps the root a directory, and keeps the tree's entry names unique. |
| `Mojo.PersistenceXmlMojo.constructor` | src/main/java/com/grommitz/maven/transformer/plugin/PersistenceXmlMojo.java:39-44 | A new mojo has no paths, no versions (both null), and starts in the working directory. |
| `Mojo.PersistenceXmlMojo.FromVersion` | src/main/java/com/grommitz/maven/transformer/plugin/PersistenceXmlMojo.java:56-59 | Sets `fromVersion` and returns the same object. Nothing else changes. |
| `Mojo.PersistenceXmlMojo.ToVersion` | src/main/java/com/grommitz/maven/transformer/plugin/PersistenceXmlMojo.java:61-64 | Sets `toVersion` and returns the same object. Nothing else changes. |
| `Mojo.PersistenceXmlMojo.StartingDir` | src/main/java/com/grommitz/maven/transformer/plugin/PersistenceXmlMojo.java:72-75 | Sets the starting directory and returns the same object. Nothing else changes. |
| `Mojo.PersistenceXmlMojo.GetPersistenceXmls` | src/main/java/com/grommitz/maven/transformer/plugin/PersistenceXmlMojo.java:77-79 | Returns the collected list. |
| `Mojo.PersistenceXmlMojo.Execute` | src/main/java/com/grommitz/maven/transformer/plugin/PersistenceXmlMojo.java:46-54 | Fails with "toVersion and fromVersion must be set" exactly when either version is null or empty, and then changes nothing. Otherwise it appends the walk's result and rewrites every collected file in order. |
| `Mojo.PersistenceXmlMojo.FindPersistenceXmls` | src/main/java/com/grommitz/maven/transformer/plugin/PersistenceXmlMojo.java:81-87 | Appends what the walk from the starting directory collects. It appends nothing when that directory does not exist. |
| `Mojo.PersistenceXmlMojo.WalkFileTree` | src/main/java/com/grommitz/maven/transformer/plugin/PersistenceXmlMojo.java:83-116 | The walk appends exactly `Found`, which `Finder.FoundIff` characterises. |
| `Mojo.PersistenceXmlMojo.VisitFile` | src/main/java/com/grommitz/maven/transformer/plugin/PersistenceXmlMojo.java:110-116 | Appends the file exactly when its name is `persistence.xml`. |
| `Mojo.PersistenceXmlMojo.TransformPersistenceXmls` | src/main/java/com/grommitz/maven/transformer/plugin/PersistenceXmlMojo.java:66-70 | Runs one fresh `FileReplace` per collected path, in list order. |
| `Mojo.ExecuteEffect` | src/main/java/com/grommitz/maven/transformer/plugin/PersistenceXmlMojo.java:46-54 | On a well-formed disk, the first run collects only existing files, each once. Afterwards each of them holds its original text rewritten once, and every other file is unchanged. |
| `Fixture.DiskFacts` | src/test/java/com/grommitz/maven/transformer/plugin/PersistenceXmlMojoTest.java:78-108 | The test tree has unique names. The `src/main/resources/META-INF/persistence.xml` of `/tmp/mojotest`, of its `module1` and of its `module2` each hold the test's text. |
| `Fixture.FixtureLines` | src/test/java/com/grommitz/maven/transformer/plugin/PersistenceXmlMojoTest.java:99-103 | The five lines the test writes read back as those five lines. |
| `Fixture.FixtureFindsThree` | src/test/java/com/grommitz/maven/transformer/plugin/PersistenceXmlMojoTest.java:42-48 | The walk from `/tmp/mojotest` collects three files: the project's and the two modules' `persistence.xml`. It does not collect `persistence.txt`. The order is the one in which the model's tree lists the entries. |
| `Fixture.ShouldFindPersistenceXmls` | src/test/java/com/grommitz/maven/transformer/plugin/PersistenceXmlMojoTest.java:42-48 | A run with versions "1" and "2" collects 3 paths. |
| `Fixture.FixtureRewrite` | src/test/java/com/grommitz/maven/transformer/plugin/PersistenceXmlMojoTest.java:50-58 | The rewritten text contains "2.0-SNAPSHOT" and not "1.0-SNAPSHOT". Its lines are joined with no terminator. |
| `Fixture.CollectedFileAfterRun` | src/test/java/com/grommitz/maven/transformer/plugin/PersistenceXmlMojoTest.java:55-57 | After a run, every collected file contains the new version and not the old one, so the file the test reads first does too, whatever the listing order. |
| `Fixture.ShouldReplaceVersionNumber` | src/test/java/com/grommitz/maven/transformer/plugin/PersistenceXmlMojoTest.java:50-58 | The second test end to end: the first collected file holds "2.0-SNAPSHOT" and no "1.0-SNAPSHOT". |
| `Fixture.FixtureNoMatch` | src/test/java/com/grommitz/maven/transformer/plugin/PersistenceXmlMojoTest.java:60-67 | With "bad.version", every line is kept. The file is still rewritten, without its line feeds, and no error is raised. |
| `Fixture.SecondRunChangesNothing` | src/main/java/com/grommitz/maven/transformer/plugin/PersistenceXmlMojo.java:142-143 | As written, the inverse rewrite after a first run changes nothing and does not restore the original text. See "## Findings". |
| `Fixture.FixedRunsInvert` | src/main/java/com/grommitz/maven/transformer/plugin/PersistenceXmlMojo.java:142-143 | With the corrected write, the inverse rewrite restores the fixture's original text. See "## Findings". |
| `Fixture.ShouldRequireVersions` | src/main/java/com/grommitz/maven/transformer/plugin/PersistenceXmlMojo.java:47-49 | With an empty `toVersion`, `execute` fails and collects nothing. |

## Left out

- Logging is left out. This covers `getLog().info` at lines 51, 53 and 132, and `printStackTrace` at lines 85 and 147. They have no effect on the disk or on the fields.
- Byte-level file I/O is left out:
  - the platform charset of `FileReader` and `FileWriter`;
  - buffering, `flush` and `close`.

  A file is opened either as its whole text or not at all (None).
- An `IOException` in the middle of reading or writing, and a partial write, are not modelled. The only failure modelled is a file that cannot be opened.
- The `Files.isDirectory(dir)` test at lines 99-101 is left out. `preVisitDirectory` is only ever called for directories, so the branch never changes the result.
- The order in which a directory's entries are listed is platform-dependent. It is given by the order of `children`, so the order of the collected paths follows that order.
- The starting directory is an absolute path with no `.` or `..` parts, and names are compared exactly as written. A relative or unnormalised start is not modelled. For example, the OS would resolve `/tmp/./mojotest`, and a relative start such as `Paths.get("")` makes `getParent()` at line 96 return null, so a NullPointerException escapes `execute`.
- Symbolic links, unreadable directories and `visitFileFailed` are not modelled. A missing starting directory collects nothing, which is what the swallowed exception at lines 84-86 amounts to.
- `Paths.get("").toAbsolutePath()` at line 40 reads the process's working directory. It is a parameter of the constructor.
- The fields are set only through the fluent setters. Maven's parameter injection is outside the class.
- Mojo.PersistenceXmlMojo.TransformPersistenceXmls: requires both versions to be set. In the source, a null version would make `replace` throw, and `catch (Exception)` would swallow it. The only caller, `execute`, has already rejected that case.
- `InsertEverywhere` has no lemma of its own. It is what `String.replace` does with an empty target, and `execute` rejects the empty version before any replace runs.
- The tests call `oldVersion`, `newVersion` and `excludeModule`, which the class does not define. The fixture methods use `fromVersion` and `toVersion`.
- No module is ever excluded, since there is no such feature; `shouldExcludeNamedModules` is not modelled.
- The code never throws `MojoFailureException`, although `shouldThrowIfVersionNumberNotMatched` expects it to. `Fixture.FixtureNoMatch` states what the code does instead.
- Behaviour that the code does not have is not modelled:
  - no module exclusion list;
  - no failure when no line matches;
  - no failure when nothing is found;
  - the written file has no line terminators between the lines, because `write(s)` adds none.

## Findings

| source | as written | input that shows it | evidently intended | confidence | as-written member | corrected member |
|---|---|---|---|---|---|---|
| src/main/java/com/grommitz/maven/transformer/plugin/PersistenceXmlMojo.java:142-143 | Each processed line is written with `out.write(s)` and no line terminator, so the file becomes one line that starts with `<xml>` and no longer matches the jar-file pattern. | The test's persistence.xml rewritten from `1.0-SNAPSHOT` to `2.0-SNAPSHOT`, then from `2.0-SNAPSHOT` back to `1.0-SNAPSHOT`: the second run changes nothing. | Every line is written followed by a line terminator, so the file keeps its lines and a later run rewrites it again. | not executed | `Fixture.SecondRunChangesNothing` | `Rewriter.RewrittenLinesReadBack`, `Fixture.FixedRunsInvert` |

`Rewriter.RewrittenContentWithNewlines` is the corrected write. The model of `doIt` (`Rewriter.FileReplace.WriteAll`) keeps the code as written, because it models what the plugin does today. The corrected definition and its properties are stated beside it.
