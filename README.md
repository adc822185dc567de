# md-maven-plugin: title extraction and the `generate` goal, in Dafny

This project models the core of the `md-maven-plugin` (package `org.javabits.maven.md`). That is a
Maven plugin whose goal `generate` turns the Markdown sources of a project into HTML pages.

- `Markdowns.getTitle` picks a document's title. It takes the first line with text, removing a
  leading level-1 ATX marker `"# "`. When no line supplies a title it returns `"No Title"`.
- `MarkdownMojo` (the `generate` goal) does three things:
  - it resolves its configuration: the include patterns (`getIncludes`) and the PegDown
    extension bit-set (`getOptions`);
  - it maps each included source to its destination (`getDestinationFile`);
  - in `execute`, it converts each included file and writes it into the HTML template. When it
    creates the destination directory, it also copies `base.css` there.

Modules:

- `Wrappers`: `Option` and `Result`.
- `JavaStrings`: the JDK string operations the code calls, as pure functions:
  - `String.trim`, which strips every char up to U+0020;
  - `String.split("\n")`, where trailing empty strings are dropped;
  - `String.replace`, which replaces every occurrence, left to right, without overlap.

  It also holds helpers for library internals. `LastIndexOf` is the scan inside Guava's
  `getNameWithoutExtension` and `File.getName`. `StartsWith` is what `find()` of the anchored
  pattern `^# ` amounts to.
- `Markdowns`: `getTitle` as a recursive first-match search over the lines. Lemmas give a
  declarative reading of that search, and the test cases are proved as lemmas.
- `MarkdownMojo`:
  - `getIncludes` and `getDestinationFile` are pure functions.
  - `getOptions` is a loop method, proved against a fold.
  - `execute` is a class `Site` holding the existing directories and the file contents, which
    `execute` updates in place. Its methods are proved against the spec functions `Step`, `Run`
    and `ExecuteOutcome`. Lemmas then state what a run does.

Two points where the code behaves differently from what a reader might expect. The model follows
the code in both.

- **A `"# "` line with a blank remainder does not end the scan.** One might expect such a line
  to end the scan with the fallback title. After `replaceFirst`, though, the code tests the
  remainder for text (Markdowns.java:28). If it has none, control falls through to the next line.
  - In the model, the next line with text still supplies the title. See
    `Markdowns.BlankHeaderIsSkipped` and `Markdowns.BlankHeaderThenText`.
  - The document `"# "` alone still gives `"No Title"`.
- **`getDestinationFile` drops the parent directories of the source.**
  - The unit test `MarkdownMojoTest` calls a static `getDestinationFilePath`, which is absent
    from `MarkdownMojo`. That test expects the directories to be kept.
  - The model follows the code that exists, in `MarkdownMojo.GetDestinationFile`.
  - The mapping the test expects is a separate function,
    `MarkdownMojo.TestExpectedDestinationPath`, with its own lemmas.
  - A consequence proved here: `base.css` is copied at most once per run, because every
    destination lies directly in the output directory.

Modelling decisions:

- **Flag table.** The reflective `Extensions.class.getField(option)` lookup is a flag table
  parameter, `map<string, bv32>`. The `int` bit-set becomes `bv32`, so `|` is bitwise or.
- **File system.**
  - It is a set of directories plus a map from paths to contents. A path is the sequence of its
    names.
  - A source that cannot be read is absent from `Env.sources`.
  - Writing fails exactly on the paths in `unwritable`.
  - `File.exists()` on the parent is "is a known directory".
- **Foreign functions.**
  - PegDown's `markdownToHtml` is an opaque parameter, `Env.toHtml`, applied to the extension
    bit-set and the source text.
  - The bundled template is an `Option<string>`, which is `None` when reading it throws an
    `IOException`.
  - The included file list is a parameter, standing in for the scanner's result.

## Model

| member | source | states |
|---|---|---|
| JavaStrings.Trim | src/main/java/org/javabits/maven/md/Markdowns.java:29-32 | `trim()` removes exactly the leading and trailing chars up to U+0020, so the result starts and ends with a visible char or is empty, and is the infix of the input between them |
| JavaStrings.TrimEmptyIff | src/main/java/org/javabits/maven/md/Markdowns.java:40 | `trim()` gives the empty string exactly when the line has no char above U+0020 |
| JavaStrings.TrimKeepsCharacters | src/main/java/org/javabits/maven/md/Markdowns.java:29-32 | trimming introduces no character, in particular no newline |
| JavaStrings.LastIndexOf | src/main/java/org/javabits/maven/md/MarkdownMojo.java:121 | `lastIndexOf(c)` is -1 or a position holding `c`, with no `c` after it |
| JavaStrings.LastIndexOfConcat | src/main/java/org/javabits/maven/md/MarkdownMojo.java:121 | the last `c` in `a + b` is the last one in `b` shifted by `\|a\|`, or else the last one in `a` |
| JavaStrings.Pieces | src/main/java/org/javabits/maven/md/Markdowns.java:23 | cutting at every separator gives at least one piece, no piece holds the separator, and a string without it is one piece |
| JavaStrings.JoinPieces | src/main/java/org/javabits/maven/md/Markdowns.java:23 | joining the pieces with the separator gives back the document: cutting into lines loses nothing but the separators |
| JavaStrings.PiecesOfConcat | src/main/java/org/javabits/maven/md/Markdowns.java:23 | a separator-free head followed by the separator is the first line |
| JavaStrings.Split | src/main/java/org/javabits/maven/md/Markdowns.java:23 | `split("\n")`: a string without newline (the empty one included) is one line; otherwise the lines are a prefix of all pieces ending in a non-empty one, and every dropped piece is empty |
| JavaStrings.Replace | src/main/java/org/javabits/maven/md/MarkdownMojo.java:108 | `String.replace`, left to right without overlap; its partner lemmas `ReplaceAbsent`, `ReplacePieceThenTarget` and `ReplaceInterleave` state that it substitutes every occurrence and keeps everything else |
| JavaStrings.ReplaceAbsent | src/main/java/org/javabits/maven/md/MarkdownMojo.java:108 | `replace` leaves a string without an occurrence of the target unchanged |
| JavaStrings.ReplacePieceThenTarget | src/main/java/org/javabits/maven/md/MarkdownMojo.java:108 | with a target that cannot overlap itself, a target-free piece followed by the target becomes the piece followed by the replacement |
| JavaStrings.ReplaceInterleave | src/main/java/org/javabits/maven/md/MarkdownMojo.java:108 | `replace` substitutes every occurrence: target-free pieces joined by the target become the same pieces joined by the replacement |
| Markdowns.HasText | src/main/java/org/javabits/maven/md/Markdowns.java:39-41 | `hasText`: the line is non-empty and `trim()` leaves something; `HasTextIff` states that this holds exactly when the line contains a char above U+0020 |
| Markdowns.HasTextIff | src/main/java/org/javabits/maven/md/Markdowns.java:39-41 | `hasText` holds exactly when the line contains a char above U+0020 |
| Markdowns.IsAtxH1 | src/main/java/org/javabits/maven/md/Markdowns.java:25-26 | the pattern `^# ` finds a match: the line starts with `"# "`; `DoubleHashIsPlainText`, `HashWithoutSpaceIsPlainText` and `IndentedMarkerIsPlainText` show the lines it does not match |
| Markdowns.StripMarker | src/main/java/org/javabits/maven/md/Markdowns.java:25-27 | removing the matched `^# ` leaves the rest of the line: marker + result is the line |
| Markdowns.TrimmedLineIsClean | src/main/java/org/javabits/maven/md/Markdowns.java:32 | a trimmed line with text and no newline is a clean title |
| Markdowns.TrimmedRemainderIsClean | src/main/java/org/javabits/maven/md/Markdowns.java:29 | the trimmed remainder of such a header line is a clean title |
| Markdowns.TitleOf | src/main/java/org/javabits/maven/md/Markdowns.java:23-36 | over newline-free lines, the loop yields "No Title" or a clean title: non-empty, no char up to U+0020 at either end, no newline |
| Markdowns.GetTitle | src/main/java/org/javabits/maven/md/Markdowns.java:22-37 | every result is "No Title" or a clean title |
| Markdowns.LineTitle | src/main/java/org/javabits/maven/md/Markdowns.java:28-32 | the title a supplying line gives is clean when the line holds no newline |
| Markdowns.FirstSupplyingLineGivesTitle | src/main/java/org/javabits/maven/md/Markdowns.java:23-35 | the first line that has text (and, for a header, whose remainder has text) decides the title |
| Markdowns.NoSupplyingLineGivesNoTitle | src/main/java/org/javabits/maven/md/Markdowns.java:23-36 | when no line supplies a title the result is "No Title" |
| Markdowns.LeadingBlankLinesSkipped | src/main/java/org/javabits/maven/md/Markdowns.java:24 | lines without text in front do not change the title |
| Markdowns.TrailingBlankLinesIgnored | src/main/java/org/javabits/maven/md/Markdowns.java:23-24 | lines without text at the end do not change the title, so dropping trailing empty strings in split is harmless |
| Markdowns.BlankHeaderIsSkipped | src/main/java/org/javabits/maven/md/Markdowns.java:27-30 | a "# " line with a blank remainder does not stop the scan: the title is that of the following lines |
| Markdowns.PlainLineIsTitle | src/main/java/org/javabits/maven/md/Markdowns.java:31-33 | a first line with text that is not a header is the title, trimmed |
| Markdowns.HeaderLineIsTitle | src/main/java/org/javabits/maven/md/Markdowns.java:25-30 | a first header line whose remainder has text gives the trimmed remainder |
| Markdowns.SingleLineDocument | src/main/java/org/javabits/maven/md/Markdowns.java:23 | a document without newline is a single line |
| Markdowns.SingleLineHeaderTitle | src/main/java/org/javabits/maven/md/Markdowns.java:25-29 | a one-line header document gives its trimmed remainder |
| Markdowns.SingleLinePlainTitle | src/main/java/org/javabits/maven/md/Markdowns.java:31-32 | a one-line plain document gives itself, trimmed |
| Markdowns.GetTitleOfPieces | src/main/java/org/javabits/maven/md/Markdowns.java:23 | the title of the split lines equals the title of all pieces between newlines |
| Markdowns.LeadingNewlineSkipped | src/main/java/org/javabits/maven/md/Markdowns.java:23-24 | an empty first line does not change the title of any document |
| Markdowns.LeadingBlankHeaderSkipped | src/main/java/org/javabits/maven/md/Markdowns.java:26-30 | a first line that is "# " plus blanks does not change the title of any document |
| Markdowns.DocumentTitleIsFirstSupplyingLine | src/main/java/org/javabits/maven/md/Markdowns.java:22-37 | the title of a document is that of its first line that supplies one |
| Markdowns.EmptyDocumentHasNoTitle | src/test/java/org/javabits/maven/md/MarkdownsTest.java:33-35 | the empty document has "No Title" |
| Markdowns.AtxTitle | src/test/java/org/javabits/maven/md/MarkdownsTest.java:38-40 | "# The Title" has title "The Title" |
| Markdowns.AtxMarkerAloneHasNoTitle | src/test/java/org/javabits/maven/md/MarkdownsTest.java:43-45 | "# " has "No Title" |
| Markdowns.LeadingEmptyLinesSkipped | src/main/java/org/javabits/maven/md/Markdowns.java:23-24 | the leading-empty-lines case: a document of two empty lines and then "The Title" has title "The Title" |
| Markdowns.BlankHeaderThenText | src/main/java/org/javabits/maven/md/Markdowns.java:27-30 | "# " then "The Title" on the next line gives "The Title" |
| Markdowns.DoubleHashIsPlainText | src/main/java/org/javabits/maven/md/Markdowns.java:16 | "## x" is not a level-1 header and is returned as it is |
| Markdowns.HashWithoutSpaceIsPlainText | src/main/java/org/javabits/maven/md/Markdowns.java:16 | "#x" is returned as it is |
| Markdowns.IndentedMarkerIsPlainText | src/main/java/org/javabits/maven/md/Markdowns.java:16 | an indented "# x" is only trimmed; its hash stays |
| MarkdownMojo.GetIncludes | src/main/java/org/javabits/maven/md/MarkdownMojo.java:125-130 | the configured patterns when present and non-empty, otherwise ["**/*.md"]; never empty |
| MarkdownMojo.Mask | src/main/java/org/javabits/maven/md/MarkdownMojo.java:137-141 | the or of the named flags, from the left; `MaskAppend`, `MaskCoversEachFlag`, `MaskIsLeast` and `MaskDependsOnlyOnNames` state that it is the least bit-set containing every named flag |
| MarkdownMojo.FirstUnknown | src/main/java/org/javabits/maven/md/MarkdownMojo.java:137-143 | none exactly when all names are known; otherwise the position of the first unknown name |
| MarkdownMojo.Options | src/main/java/org/javabits/maven/md/MarkdownMojo.java:132-150 | what `getOptions` returns or throws: it fails exactly when some configured name is unknown; `NoOptionsGiveNone`, `OptionsFailOnUnknownName` and `OptionsIgnoreOrderAndRepetition` give the result in each case |
| MarkdownMojo.GetOptions | src/main/java/org/javabits/maven/md/MarkdownMojo.java:132-150 | the loop returns the specified result: NONE for no names, the failure naming the first unknown option, else the or of the named flags |
| MarkdownMojo.MaskAppend | src/main/java/org/javabits/maven/md/MarkdownMojo.java:137-141 | the bit-set of a + b is the or of both bit-sets |
| MarkdownMojo.MaskCoversEachFlag | src/main/java/org/javabits/maven/md/MarkdownMojo.java:141 | every named flag is contained in the result |
| MarkdownMojo.MaskIsLeast | src/main/java/org/javabits/maven/md/MarkdownMojo.java:137-141 | the result is contained in any bit-set that contains every named flag |
| MarkdownMojo.MaskCoveredBy | src/main/java/org/javabits/maven/md/MarkdownMojo.java:137-141 | a list whose names all occur in another gives a contained bit-set |
| MarkdownMojo.MaskDependsOnlyOnNames | src/main/java/org/javabits/maven/md/MarkdownMojo.java:137-141 | lists with the same names give the same bit-set, whatever their order or repetitions |
| MarkdownMojo.NoOptionsGiveNone | src/main/java/org/javabits/maven/md/MarkdownMojo.java:133-136 | null or empty options give NONE (0) |
| MarkdownMojo.OptionsFailOnUnknownName | src/main/java/org/javabits/maven/md/MarkdownMojo.java:142-143 | the first unknown name makes getOptions fail with a message naming it |
| MarkdownMojo.OptionsIgnoreOrderAndRepetition | src/main/java/org/javabits/maven/md/MarkdownMojo.java:136-149 | two lists with the same names both fail or both succeed, and succeed with the same bit-set |
| MarkdownMojo.FileName | src/main/java/org/javabits/maven/md/MarkdownMojo.java:121 | the name after the last separator has no separator; a path without one is its own name |
| MarkdownMojo.NameWithoutExtension | src/main/java/org/javabits/maven/md/MarkdownMojo.java:121 | the file name, or its part before a last '.' after which no '.' follows |
| MarkdownMojo.NameWithoutExtensionIsWholeName | src/main/java/org/javabits/maven/md/MarkdownMojo.java:121 | the name without extension is the whole file name exactly when the file name holds no '.' |
| MarkdownMojo.GetDestinationFile | src/main/java/org/javabits/maven/md/MarkdownMojo.java:120-123 | the destination is one name directly inside the output directory |
| MarkdownMojo.FileNameAfterDirectory | src/main/java/org/javabits/maven/md/MarkdownMojo.java:121 | the file name of dir/file is the file name of file |
| MarkdownMojo.DestinationDropsParentDirectories | src/main/java/org/javabits/maven/md/MarkdownMojo.java:120-123 | dir/file and file have the same destination: parent directories are dropped |
| MarkdownMojo.DestinationIsInOutputDirectory | src/main/java/org/javabits/maven/md/MarkdownMojo.java:122 | the parent of every destination is the output directory |
| MarkdownMojo.NameWithoutExtensionOf | src/main/java/org/javabits/maven/md/MarkdownMojo.java:121 | the name without extension of name.ext is name |
| MarkdownMojo.DestinationReplacesExtension | src/main/java/org/javabits/maven/md/MarkdownMojo.java:120-123 | name.ext goes to outputDir/name.html |
| MarkdownMojo.SameFileNamesCollide | src/main/java/org/javabits/maven/md/MarkdownMojo.java:120-123 | sources with the same file name in different directories share one destination |
| MarkdownMojo.TestExpectedDestinationPath | src/test/java/org/javabits/maven/md/MarkdownMojoTest.java:22-27 | the mapping the unit test expects of the missing `getDestinationFilePath`; `TestExpectedSimple`, `TestExpectedNested` and the two literal lemmas state that it keeps the directory and swaps the extension |
| MarkdownMojo.TestExpectedSimple | src/test/java/org/javabits/maven/md/MarkdownMojoTest.java:21-23 | the mapping the test expects sends name.ext to name.ext' |
| MarkdownMojo.TestExpectedNested | src/test/java/org/javabits/maven/md/MarkdownMojoTest.java:26-28 | the mapping the test expects sends dir/name.ext to dir/name.ext', keeping the directory |
| MarkdownMojo.TestExpectationTopLevel | src/test/java/org/javabits/maven/md/MarkdownMojoTest.java:22 | "user-guide.md" with "html" gives "user-guide.html" |
| MarkdownMojo.TestExpectationKeepsDirectories | src/test/java/org/javabits/maven/md/MarkdownMojoTest.java:27 | "user-guide/user-guide.md" with "mkd" gives "user-guide/user-guide.mkd" |
| MarkdownMojo.RenderPage | src/main/java/org/javabits/maven/md/MarkdownMojo.java:108 | `templateFile.replace("${content}", html)`; the three `Render…` lemmas below state what it fills in and what it keeps |
| MarkdownMojo.ContentPlaceholderUnbordered | src/main/java/org/javabits/maven/md/MarkdownMojo.java:108 | two occurrences of "${content}" can never overlap |
| MarkdownMojo.RenderFillsEveryContentPlaceholder | src/main/java/org/javabits/maven/md/MarkdownMojo.java:108 | every "${content}" of the template is replaced by the body and all text between them is kept |
| MarkdownMojo.RenderWithoutPlaceholderIsTemplate | src/main/java/org/javabits/maven/md/MarkdownMojo.java:108 | a template without "${content}" is written unchanged |
| MarkdownMojo.RenderKeepsTitlePlaceholder | src/main/java/org/javabits/maven/md/MarkdownMojo.java:108 | other placeholders such as "${title}" are not touched |
| MarkdownMojo.Ancestors | src/main/java/org/javabits/maven/md/MarkdownMojo.java:100 | mkdirs creates the directory itself and only directories on the way to it |
| MarkdownMojo.DestinationIsNotBaseCss | src/main/java/org/javabits/maven/md/MarkdownMojo.java:106-109 | a page never overwrites the copied base.css |
| MarkdownMojo.StepCopiesCssIffParentIsNew | src/main/java/org/javabits/maven/md/MarkdownMojo.java:98-107 | base.css is copied into the destination's directory iff that directory did not exist (and the copy can be written); afterwards the directory exists and holds base.css |
| MarkdownMojo.StepWritesPage | src/main/java/org/javabits/maven/md/MarkdownMojo.java:108-109 | a successful step leaves the template filled with the converted source at the destination |
| MarkdownMojo.Step | src/main/java/org/javabits/maven/md/MarkdownMojo.java:91-112 | one iteration of the loop; its partner lemmas `StepCopiesCssIffParentIsNew`, `StepWritesPage`, `StepOnlyAddsInOutputDirectory` and `StepErrorNamesFile` state its effects |
| MarkdownMojo.StepWritesOnlyPageAndCss | src/main/java/org/javabits/maven/md/MarkdownMojo.java:98-109 | a step removes no file, and every file other than the destination and the output directory's base.css keeps its contents |
| MarkdownMojo.StepCreatesOnlyAncestors | src/main/java/org/javabits/maven/md/MarkdownMojo.java:99-100 | a step removes no directory and creates only the output directory and its ancestors |
| MarkdownMojo.StepOnlyAddsInOutputDirectory | src/main/java/org/javabits/maven/md/MarkdownMojo.java:96-109 | a step removes nothing, creates directories only on the way to the output directory, leaves every file other than the destination and base.css as it was, and every file it adds or rewrites lies directly inside the output directory |
| MarkdownMojo.StepErrorNamesFile | src/main/java/org/javabits/maven/md/MarkdownMojo.java:110-111 | a failing step reports the included file it was processing |
| MarkdownMojo.StepOfProperties | src/main/java/org/javabits/maven/md/MarkdownMojo.java:91-112 | the loop body names the failing file, adds or rewrites files only directly in the output directory, keeps every file other than the destination and base.css, copies base.css only into a new output directory, and writes the destination on success |
| MarkdownMojo.Run | src/main/java/org/javabits/maven/md/MarkdownMojo.java:90-113 | the loop: each file in order, stopping at the first failure; `RunAppend`, `RunStopsAtFailure` and the `Run…` lemmas below state what a run does |
| MarkdownMojo.RunAppend | src/main/java/org/javabits/maven/md/MarkdownMojo.java:90-113 | processing a + b is processing a, then, unless a failed, b from the disk a left |
| MarkdownMojo.RunStopsAtFailure | src/main/java/org/javabits/maven/md/MarkdownMojo.java:90-113 | the first failing file ends the run with its error; later files are not processed and the disk is as the failing step left it |
| MarkdownMojo.RunErrorNamesFile | src/main/java/org/javabits/maven/md/MarkdownMojo.java:110-111 | every error of the loop names one of the included files |
| MarkdownMojo.RunOnlyAddsIn | src/main/java/org/javabits/maven/md/MarkdownMojo.java:90-113 | the loop removes nothing, and every file it adds or rewrites lies directly inside the output directory |
| MarkdownMojo.RunKeepsOtherFiles | src/main/java/org/javabits/maven/md/MarkdownMojo.java:90-113 | a file that is neither base.css nor the destination of an included file keeps its contents over the whole loop |
| MarkdownMojo.RunPrefixSucceeds | src/main/java/org/javabits/maven/md/MarkdownMojo.java:90-113 | a successful loop succeeded on every prefix of the files, and the rest of the files continue from the disk the prefix left |
| MarkdownMojo.RunCopiesCssAtMostOnce | src/main/java/org/javabits/maven/md/MarkdownMojo.java:98-107 | base.css is copied at most once per run, into the output directory, and only if it did not exist before |
| MarkdownMojo.RunWritesEveryDestination | src/main/java/org/javabits/maven/md/MarkdownMojo.java:90-113 | a successful run has written the destination of every included file |
| MarkdownMojo.FileWritesPage | src/main/java/org/javabits/maven/md/MarkdownMojo.java:96-109 | once the files up to a position are processed without failure, the destination of the file at that position holds its page |
| MarkdownMojo.RunKeepsLaterFile | src/main/java/org/javabits/maven/md/MarkdownMojo.java:90-113 | after a successful loop, a destination that no later file shares holds what it held right after its own file was processed |
| MarkdownMojo.LastPageWins | src/main/java/org/javabits/maven/md/MarkdownMojo.java:90-113 | after a successful loop, the destination of every file that no later file shares holds that file's page: of files sharing a destination, the last one's page remains |
| MarkdownMojo.ExecuteOutcome | src/main/java/org/javabits/maven/md/MarkdownMojo.java:73-114 | the whole goal: options first, then the template, then the loop; `ExecuteErrors` and `ExecuteEffects` state its failures and effects |
| MarkdownMojo.ExecuteErrors | src/main/java/org/javabits/maven/md/MarkdownMojo.java:73-113 | with the sources directory and the bundled resources present, the goal fails only on an unknown option, an unreadable template (touching nothing) or an included file, each named in the message |
| MarkdownMojo.ExecuteEffects | src/main/java/org/javabits/maven/md/MarkdownMojo.java:90-113 | over the whole goal base.css is copied at most once, only into a new output directory; nothing is removed; every file added or rewritten lies directly in the output directory; success writes every destination |
| MarkdownMojo.Site.Mkdirs | src/main/java/org/javabits/maven/md/MarkdownMojo.java:100 | the directory and its ancestors now exist; files are unchanged |
| MarkdownMojo.Site.Write | src/main/java/org/javabits/maven/md/MarkdownMojo.java:109 | the content is stored at the path unless it is unwritable, in which case nothing changes |
| MarkdownMojo.Site.ProcessFile | src/main/java/org/javabits/maven/md/MarkdownMojo.java:91-112 | the loop body changes the file system and reports exactly as Step says |
| MarkdownMojo.Site.ProcessAll | src/main/java/org/javabits/maven/md/MarkdownMojo.java:90-113 | the loop leaves the file system and the error exactly as Run says |
| MarkdownMojo.Site.Execute | src/main/java/org/javabits/maven/md/MarkdownMojo.java:73-114 | the goal leaves the file system and the error exactly as ExecuteOutcome says |

## Left out

- `Resources.java`: it only loads classpath resources and copies them, with no logic of its own.
- PegDown's `markdownToHtml` is an opaque function parameter. The Markdown-to-HTML conversion is
  not modelled.
- `DirectoryScanner` (glob matching and directory traversal) is left out. The included files are
  an input sequence, and `getIncludes` only supplies its patterns.
- `MarkdownMojo.ExecuteErrors` does not cover the scanner's failure. `scan()`
  (MarkdownMojo.java:80) throws an unchecked `IllegalStateException` when `sources` (by default
  `src/main/md`) is missing or is not a directory. The goal then stops after the options are
  resolved and before the template is read, with an error naming no included file. The model
  takes the scanner's result as a parameter and has no such branch in `ExecuteOutcome`.
- Charset lookup, decoding and encoding are left out. So are the unchecked exceptions of
  `Charset.forName`, and file contents are strings.
- Logging (`getLog()`) and Maven parameter injection are left out.
- The `IllegalAccessException` branch of `getOptions` is left out. The flag table stands in for
  reflection, so a known name always has a value.
- `Files.getNameWithoutExtension` and `File.getName` are modelled for '/' separators only, on
  paths taken without a trailing separator: `new File("a/b/").getName()` is `"b"`, while
  `FileName("a/b/")` is empty. The included files the scanner returns never end in a separator.
  Windows separators are not modelled.
- `MarkdownMojo.Site.Mkdirs`: the result of `mkdirs()` is ignored by the code. Its failure is
  therefore not modelled, and a write into the missing directory is not made to fail either.
- `File.exists()` on a regular file standing where the parent directory should be is not
  modelled. Only directories count as existing.
- `JavaStrings.Replace` requires a non-empty target. `String.replace` with an empty target is
  never used by the code.
- `MarkdownMojo.Site.Execute`: the template read is a parameter, and `None` stands only for an
  `IOException` while reading it (MarkdownMojo.java:84-88). `Resources.toString` itself is not
  modelled.
- A missing `/file-template.html` resource is left out: `getResource` then returns null and the
  read fails with a `NullPointerException`, not with "Cannot read the template-file".
- A missing `/base.css` resource is left out as well: `getResourceAsStream` then returns null,
  the copy throws a `NullPointerException` that the per-file `catch (IOException e)` does not
  catch, and the goal aborts with an error naming no included file. `Env.baseCss` is always
  present, so `MarkdownMojo.ExecuteErrors` does not cover this failure.
- Included sources are read from a fixed map, `Env.sources`, taken before the loop. The code
  reads each source from the live file system at the start of its iteration, so a source that
  coincides with a page written earlier in the same run (includes matching `.html`, with the
  output directory inside the source tree) would be read as that page. The model assumes no
  included source coincides with a destination or with base.css; `MarkdownMojo.FileWritesPage`
  and `MarkdownMojo.LastPageWins` hold under that assumption.
- Behaviours with no code in these files are not modelled: ZIP packaging, relative CSS paths,
  and `${title}`/`${css}` substitution.
