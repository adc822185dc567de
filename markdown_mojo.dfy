/**
 * The goal "generate" of the plugin (class MarkdownMojo): configuration defaults, the
 * parser option bit-set, where each converted file goes, the template substitution, and
 * the per-file loop of execute over an abstract output file system.
 */
module MarkdownMojo {
  import opened Wrappers
  import opened JavaStrings

  const DefaultFileExtension: string := "md"
  const FileFilter: string := "**/*." + DefaultFileExtension
  const DefaultIncludes: seq<string> := [FileFilter]

  /** Extensions.NONE: no parser extension enabled. */
  const NoExtensions: bv32 := 0

  const ContentPlaceholder: string := "${content}"
  const BaseCssName: string := "base.css"
  const HtmlSuffix: string := ".html"

  const TemplateErrorMessage: string := "Cannot read the template-file"

  function UnknownExtensionMessage(option: string): string {
    "Cannot find the corresponding extension: " + option
  }

  function IoErrorMessage(includedFile: string): string {
    "IO exception when generated from: " + includedFile
  }

  // ---------------------------------------------------------------------------------
  // getIncludes

  // The configured include patterns when there are any (null is None), else DefaultIncludes.
  function GetIncludes(includes: Option<seq<string>>): (r: seq<string>)
    ensures r != []
    ensures includes.Some? && includes.value != [] ==> r == includes.value
    ensures includes.None? || includes.value == [] ==> r == ["**/*.md"]
  {
    assert FileFilter == "**/*.md";
    if includes.Some? && |includes.value| > 0 then includes.value else DefaultIncludes
  }

  // ---------------------------------------------------------------------------------
  // getOptions: the reflective lookup of a field of Extensions becomes a flag table.

  /** The bit-set of the named extensions, or-ed together from the left as the loop does. */
  function Mask(names: seq<string>, flags: map<string, bv32>): bv32
    requires forall n :: n in names ==> n in flags
  {
    if names == [] then NoExtensions
    else Mask(names[..|names| - 1], flags) | flags[names[|names| - 1]]
  }

  /** The position of the first name the flag table does not know, if any. */
  function FirstUnknown(names: seq<string>, flags: map<string, bv32>): (r: Option<nat>)
    ensures r.None? <==> forall n :: n in names ==> n in flags
    ensures r.Some? ==> r.value < |names| && names[r.value] !in flags
    ensures r.Some? ==> forall j :: 0 <= j < r.value ==> names[j] in flags
  {
    if names == [] then None
    else if names[0] !in flags then Some(0)
    else
      var rest := FirstUnknown(names[1..], flags);
      assert forall n :: n in names ==> n == names[0] || n in names[1..];
      if rest.None? then None else Some(rest.value + 1)
  }

  /** What getOptions returns or throws for the configured option names. */
  function Options(options: Option<seq<string>>, flags: map<string, bv32>): (r: Result<bv32>)
    ensures r.Failure? <==> options.Some? && exists n :: n in options.value && n !in flags
  {
    if options.None? || options.value == [] then Success(NoExtensions)
    else
      match FirstUnknown(options.value, flags)
      case Some(i) => Failure(UnknownExtensionMessage(options.value[i]))
      case None => Success(Mask(options.value, flags))
  }

  /** getOptions: or the flag of every named option into the result; stop at an unknown name. */
  method GetOptions(options: Option<seq<string>>, flags: map<string, bv32>) returns (r: Result<bv32>)
    ensures r == Options(options, flags)
  {
    var result := NoExtensions;
    if options.Some? && |options.value| > 0 {
      var names := options.value;
      var i := 0;
      while i < |names|
        invariant 0 <= i <= |names|
        invariant forall j :: 0 <= j < i ==> names[j] in flags
        invariant result == Mask(names[..i], flags)
      {
        var option := names[i];
        if option !in flags {
          return Failure(UnknownExtensionMessage(option));
        }
        assert names[..i + 1][..i] == names[..i];
        result := result | flags[option];
        i := i + 1;
      }
      assert names[..i] == names;
    }
    return Success(result);
  }

  /** Or-ing the flags of two lists of names is or-ing their two bit-sets. */
  lemma {:induction false} MaskAppend(a: seq<string>, b: seq<string>, flags: map<string, bv32>)
    requires forall n :: n in a + b ==> n in flags
    ensures Mask(a + b, flags) == Mask(a, flags) | Mask(b, flags)
  {
    if b == [] {
      assert a + b == a;
    } else {
      var b' := b[..|b| - 1];
      assert (a + b)[..|a + b| - 1] == a + b';
      MaskAppend(a, b', flags);
    }
  }

  /** Every named flag is part of the bit-set. */
  lemma {:induction false} MaskCoversEachFlag(names: seq<string>, flags: map<string, bv32>, n: string)
    requires forall m :: m in names ==> m in flags
    requires n in names
    ensures Mask(names, flags) | flags[n] == Mask(names, flags)
  {
    var last := names[|names| - 1];
    if n != last {
      MaskCoversEachFlag(names[..|names| - 1], flags, n);
    }
  }

  /** The bit-set is the least one that covers every named flag. */
  lemma {:induction false} MaskIsLeast(names: seq<string>, flags: map<string, bv32>, m: bv32)
    requires forall n :: n in names ==> n in flags && flags[n] | m == m
    ensures Mask(names, flags) | m == m
  {
    if names != [] {
      assert names[|names| - 1] in names;
      MaskIsLeast(names[..|names| - 1], flags, m);
    }
  }

  /** When every name of a occurs in b, b's bit-set covers a's. */
  lemma MaskCoveredBy(a: seq<string>, b: seq<string>, flags: map<string, bv32>)
    requires forall n :: n in b ==> n in flags
    requires forall n :: n in a ==> n in b
    ensures Mask(a, flags) | Mask(b, flags) == Mask(b, flags)
  {
    forall n | n in a ensures flags[n] | Mask(b, flags) == Mask(b, flags) {
      MaskCoversEachFlag(b, flags, n);
    }
    MaskIsLeast(a, flags, Mask(b, flags));
  }

  /**
   * The bit-set depends only on which names occur: not on their order, nor on how often
   * each is repeated.
   */
  lemma MaskDependsOnlyOnNames(a: seq<string>, b: seq<string>, flags: map<string, bv32>)
    requires forall n :: n in a ==> n in flags
    requires forall n :: n in a <==> n in b
    ensures Mask(a, flags) == Mask(b, flags)
  {
    MaskCoveredBy(a, b, flags);
    MaskCoveredBy(b, a, flags);
    OrAbsorbsBothWays(Mask(a, flags), Mask(b, flags));
  }

  /** Two bit-sets each covering the other are equal. */
  lemma OrAbsorbsBothWays(x: bv32, y: bv32)
    requires x | y == y && y | x == x
    ensures x == y
  {
  }

  /** No option names (null or empty) give Extensions.NONE. */
  lemma NoOptionsGiveNone(flags: map<string, bv32>)
    ensures Options(None, flags) == Success(NoExtensions)
    ensures Options(Some([]), flags) == Success(NoExtensions)
  {
  }

  /**
   * getOptions fails exactly when some name is unknown, and the message names the first
   * unknown one; otherwise it returns a bit-set that reordering or repeating names leaves alone.
   */
  lemma OptionsFailOnUnknownName(names: seq<string>, flags: map<string, bv32>, i: nat)
    requires i < |names| && names[i] !in flags
    requires forall j :: 0 <= j < i ==> names[j] in flags
    ensures Options(Some(names), flags) == Failure(UnknownExtensionMessage(names[i]))
  {
    var r := FirstUnknown(names, flags);
    assert r.Some?;
    assert r.value == i;
  }

  lemma OptionsIgnoreOrderAndRepetition(a: seq<string>, b: seq<string>, flags: map<string, bv32>)
    requires forall n :: n in a <==> n in b
    ensures Options(Some(a), flags).Success? <==> Options(Some(b), flags).Success?
    ensures Options(Some(a), flags).Success? ==> Options(Some(a), flags) == Options(Some(b), flags)
  {
    assert (a == []) == (b == []) by {
      if a != [] { assert a[0] in b; }
      if b != [] { assert b[0] in a; }
    }
    if a != [] && forall n :: n in a ==> n in flags {
      MaskDependsOnlyOnNames(a, b, flags);
    }
  }

  // ---------------------------------------------------------------------------------
  // getDestinationFile

  /** A file or directory, as the names on the way to it from the file system root. */
  type Path = seq<string>

  /** File.getName on a path with '/' separators: what follows the last separator. */
  function FileName(path: string): (r: string)
    ensures '/' !in r
    ensures '/' !in path ==> r == path
  {
    path[LastIndexOf(path, '/') + 1..]
  }

  /** Files.getNameWithoutExtension: the file name up to its last '.', or all of it without one. */
  function NameWithoutExtension(file: string): (r: string)
    ensures '/' !in r
    ensures r == FileName(file) || (|r| < |FileName(file)| && FileName(file)[|r|] == '.'
                                    && r == FileName(file)[..|r|] && '.' !in FileName(file)[|r| + 1..])
  {
    var name := FileName(file);
    var dot := LastIndexOf(name, '.');
    if dot == -1 then name else name[..dot]
  }

  /** The name without extension is the whole file name exactly when the file name holds no '.'. */
  lemma NameWithoutExtensionIsWholeName(file: string)
    ensures NameWithoutExtension(file) == FileName(file) <==> '.' !in FileName(file)
  {
  }

  /** getDestinationFile: <basename without extension>.html directly in the output directory. */
  function GetDestinationFile(outputDir: Path, includedFile: string): (r: Path)
    ensures |r| == |outputDir| + 1 && r[..|outputDir|] == outputDir
  {
    outputDir + [NameWithoutExtension(includedFile) + HtmlSuffix]
  }

  /** The directory a destination file is written into (File.getParentFile). */
  function ParentOf(p: Path): Path
    requires p != []
  {
    p[..|p| - 1]
  }

  /** The file name is whatever follows the last separator, whatever directories lead to it. */
  lemma FileNameAfterDirectory(dir: string, file: string, path: string)
    requires path == dir + "/" + file
    ensures FileName(path) == FileName(file)
  {
    var q := LastIndexOf(file, '/');
    var head := dir + "/";
    LastIndexOfConcat(head, file, '/');
    assert LastIndexOf(head, '/') == |dir|;
    var r := LastIndexOf(path, '/');
    assert r + 1 == |head| + q + 1;
    assert path[r + 1..] == file[q + 1..] by {
      assert path == head + file;
    }
  }

  /** Parent directories of the included file are dropped from its destination. */
  lemma DestinationDropsParentDirectories(outputDir: Path, dir: string, file: string, path: string)
    requires path == dir + "/" + file
    ensures GetDestinationFile(outputDir, path) == GetDestinationFile(outputDir, file)
  {
    FileNameAfterDirectory(dir, file, path);
  }

  /** Every destination lies directly in the output directory. */
  lemma DestinationIsInOutputDirectory(outputDir: Path, file: string)
    ensures ParentOf(GetDestinationFile(outputDir, file)) == outputDir
  {
  }

  /** Files.getNameWithoutExtension of name.ext, with no separator in either and no dot in ext, is name. */
  lemma NameWithoutExtensionOf(name: string, ext: string, file: string)
    requires file == name + "." + ext
    requires '/' !in name && '/' !in ext && '.' !in ext
    ensures NameWithoutExtension(file) == name
  {
    assert '/' !in file;
    assert FileName(file) == file;
    var dot := LastIndexOf(file, '.');
    assert file[|name|] == '.';
    assert forall k :: 0 <= k < |ext| ==> file[|name| + 1 + k] == ext[k];
    assert dot == |name|;
    assert file[..dot] == name;
  }

  /** name.ext, with no separator or dot in ext, becomes name.html. */
  lemma DestinationReplacesExtension(outputDir: Path, name: string, ext: string, file: string)
    requires file == name + "." + ext
    requires '/' !in name && '/' !in ext && '.' !in ext
    ensures GetDestinationFile(outputDir, file) == outputDir + [name + HtmlSuffix]
  {
    NameWithoutExtensionOf(name, ext, file);
  }

  /** Two sources with the same file name in different directories share one destination. */
  lemma SameFileNamesCollide(outputDir: Path, dir1: string, dir2: string, file: string, path1: string, path2: string)
    requires path1 == dir1 + "/" + file && path2 == dir2 + "/" + file
    ensures GetDestinationFile(outputDir, path1) == GetDestinationFile(outputDir, path2)
  {
    DestinationDropsParentDirectories(outputDir, dir1, file, path1);
    DestinationDropsParentDirectories(outputDir, dir2, file, path2);
  }

  /**
   * The mapping the unit tests expect of a static getDestinationFilePath(path, ext), which
   * the goal does not use: the extension is replaced and the directories are kept.
   */
  function TestExpectedDestinationPath(path: string, ext: string): string {
    path[..LastIndexOf(path, '/') + 1] + NameWithoutExtension(path) + "." + ext
  }

  /** A bare name.ext maps to name.<ext'>. */
  lemma TestExpectedSimple(name: string, ext: string, ext': string, file: string)
    requires file == name + "." + ext
    requires '/' !in name && '/' !in ext && '.' !in ext
    ensures TestExpectedDestinationPath(file, ext') == name + "." + ext'
  {
    NameWithoutExtensionOf(name, ext, file);
    assert '/' !in file;
    assert file[..LastIndexOf(file, '/') + 1] == [];
  }

  /** In dir/file with no separator in file, everything up to the last separator is dir/. */
  lemma DirectoryPrefix(dir: string, file: string, path: string)
    requires path == dir + "/" + file
    requires '/' !in file
    ensures path[..LastIndexOf(path, '/') + 1] == dir + "/"
  {
    LastIndexOfConcat(dir + "/", file, '/');
    assert LastIndexOf(dir + "/", '/') == |dir|;
  }

  /** dir/name.ext maps to dir/name.<ext'>: unlike getDestinationFile, the directory is kept. */
  lemma TestExpectedNested(dir: string, name: string, ext: string, ext': string, path: string)
    requires path == dir + "/" + (name + "." + ext)
    requires '/' !in name && '/' !in ext && '.' !in ext
    ensures TestExpectedDestinationPath(path, ext') == dir + "/" + name + "." + ext'
  {
    var file := name + "." + ext;
    NameWithoutExtensionOf(name, ext, file);
    FileNameAfterDirectory(dir, file, path);
    assert NameWithoutExtension(path) == name;
    DirectoryPrefix(dir, file, path);
  }

  /** The first case of the unit test: user-guide.md becomes user-guide.html. */
  lemma TestExpectationTopLevel(name: string, path: string)
    requires name == "user-guide" && path == name + ".md"
    ensures TestExpectedDestinationPath(path, "html") == name + ".html"
  {
    assert path == name + "." + "md";
    TestExpectedSimple(name, "md", "html", path);
  }

  /** The second case of the unit test: user-guide/user-guide.md becomes user-guide/user-guide.mkd. */
  lemma TestExpectationKeepsDirectories(name: string, path: string)
    requires name == "user-guide" && path == name + "/" + name + ".md"
    ensures TestExpectedDestinationPath(path, "mkd") == name + "/" + name + ".mkd"
  {
    assert path == name + "/" + (name + "." + "md");
    TestExpectedNested(name, name, "md", "mkd", path);
  }

  // ---------------------------------------------------------------------------------
  // The template: templateFile.replace("${content}", html)

  /** The page written for a converted file: every "${content}" of the template replaced by the body. */
  function RenderPage(template: string, body: string): string {
    Replace(template, ContentPlaceholder, body)
  }

  /** "${content}" starts with the only '$' it holds, so two occurrences never overlap. */
  lemma ContentPlaceholderUnbordered()
    ensures Unbordered(ContentPlaceholder)
  {
    var p := ContentPlaceholder;
    forall k | 0 < k < |p| ensures p[k..] != p[..|p| - k] {
      assert p[k..][0] == p[k] != '$' == p[..|p| - k][0];
    }
  }

  /**
   * A template made of placeholder-free pieces with "${content}" between them renders as
   * those same pieces with the body between them: every placeholder is filled, and
   * nothing else, "${title}" or "${css}" included, is touched.
   */
  lemma RenderFillsEveryContentPlaceholder(pieces: seq<string>, body: string)
    requires |pieces| >= 1
    requires forall p :: p in pieces ==> !Occurs(ContentPlaceholder, p)
    ensures RenderPage(Interleave(pieces, ContentPlaceholder), body) == Interleave(pieces, body)
  {
    ContentPlaceholderUnbordered();
    ReplaceInterleave(pieces, ContentPlaceholder, body);
  }

  /** A template without "${content}" is written as it is. */
  lemma RenderWithoutPlaceholderIsTemplate(template: string, body: string)
    requires !Occurs(ContentPlaceholder, template)
    ensures RenderPage(template, body) == template
  {
    ReplaceAbsent(template, ContentPlaceholder, body);
  }

  /** Other placeholders survive: "${title}" before the content stays as it is. */
  lemma RenderKeepsTitlePlaceholder(body: string)
    ensures RenderPage("${title}" + "${content}", body) == "${title}" + body
  {
    ContentPlaceholderUnbordered();
    assert !Occurs(ContentPlaceholder, "${title}");
    assert !Occurs(ContentPlaceholder, "");
    ReplacePieceThenTarget("${title}", ContentPlaceholder, "", body);
    assert "${title}" + ContentPlaceholder + "" == "${title}" + "${content}";
  }

  // ---------------------------------------------------------------------------------------
  // execute: the per-file loop over the included files
  // ---------------------------------------------------------------------------------------

  /**
   * What the goal reads and never changes: the output directory, the source files by
   * included path (a path that cannot be read is absent), the bundled base.css, and the
   * Markdown-to-HTML conversion for an extension bit-set. The sources are taken to be
   * distinct from every file the goal writes, so a page is never read back as a source.
   */
  datatype Env = Env(outputDir: Path, sources: map<string, string>, baseCss: string,
                     toHtml: (bv32, string) -> string)

  /** The part of the file system the goal touches: existing directories and file contents. */
  datatype Disk = Disk(dirs: set<Path>, files: map<Path, string>)

  /**
   * Where a run ends: the disk as left behind, the directories base.css was copied into,
   * in order, and the error that aborted the run, if any.
   */
  datatype Outcome = Outcome(disk: Disk, copies: seq<Path>, error: Option<string>)

  /** File.mkdirs: the directory and every ancestor of it. */
  function Ancestors(p: Path): (r: set<Path>)
    ensures p in r
    ensures forall q :: q in r ==> q <= p
  {
    assert p[..|p|] == p;
    set k | 0 <= k <= |p| :: p[..k]
  }

  /** The page written for an included source: the template around its converted body. */
  function Page(env: Env, mask: bv32, template: string, includedFile: string): string
    requires includedFile in env.sources
  {
    RenderPage(template, env.toHtml(mask, env.sources[includedFile]))
  }

  /** Files.write of the page: fails on an unwritable destination. */
  function WritePage(d: Disk, copies: seq<Path>, unwritable: set<Path>, dest: Path, page: string,
                     includedFile: string): Outcome
  {
    if dest in unwritable then Outcome(d, copies, Some(IoErrorMessage(includedFile)))
    else Outcome(Disk(d.dirs, d.files[dest := page]), copies, None)
  }

  /**
   * One iteration of the loop: read the source, create the destination's parent with
   * base.css in it when the parent does not exist, then write the page. Writing to a path in
   * unwritable fails; any failure ends the step with an error naming the included file,
   * with the disk as far as the step got.
   */
  function Step(env: Env, unwritable: set<Path>, mask: bv32, template: string, d: Disk,
                includedFile: string): Outcome
  {
    if includedFile !in env.sources then Outcome(d, [], Some(IoErrorMessage(includedFile)))
    else
      var dest := GetDestinationFile(env.outputDir, includedFile);
      var page := Page(env, mask, template, includedFile);
      var parent := ParentOf(dest);
      if parent in d.dirs then WritePage(d, [], unwritable, dest, page, includedFile)
      else
        var made := Disk(d.dirs + Ancestors(parent), d.files);
        var css := parent + [BaseCssName];
        if css in unwritable then Outcome(made, [], Some(IoErrorMessage(includedFile)))
        else WritePage(Disk(made.dirs, made.files[css := env.baseCss]), [parent], unwritable, dest, page, includedFile)
  }

  /** Step with the goal's fixed inputs filled in: what one iteration does to a disk and a file. */
  function StepOf(env: Env, unwritable: set<Path>, mask: bv32, template: string): (Disk, string) -> Outcome {
    (d, includedFile) => Step(env, unwritable, mask, template, d, includedFile)
  }

  /** The loop: step applied to the included files in order, stopping at the first failure. */
  function Run(step: (Disk, string) -> Outcome, d: Disk, included: seq<string>): Outcome
    decreases |included|
  {
    if included == [] then Outcome(d, [], None)
    else
      var o := step(d, included[0]);
      if o.error.Some? then o
      else
        var r := Run(step, o.disk, included[1..]);
        Outcome(r.disk, o.copies + r.copies, r.error)
  }

  /**
   * The whole goal: the options are resolved first, then the template is read (None when
   * reading it throws an IOException), then every included file is processed.
   */
  function ExecuteOutcome(env: Env, unwritable: set<Path>, options: Option<seq<string>>,
                          flags: map<string, bv32>, template: Option<string>, d: Disk,
                          included: seq<string>): Outcome
  {
    match Options(options, flags)
    case Failure(e) => Outcome(d, [], Some(e))
    case Success(mask) =>
      if template.None? then Outcome(d, [], Some(TemplateErrorMessage))
      else Run(StepOf(env, unwritable, mask, template.value), d, included)
  }

  /** A page never lands on base.css: the two names end differently. */
  lemma DestinationIsNotBaseCss(outputDir: Path, includedFile: string)
    ensures GetDestinationFile(outputDir, includedFile) != outputDir + [BaseCssName]
  {
    var name := NameWithoutExtension(includedFile) + HtmlSuffix;
    assert GetDestinationFile(outputDir, includedFile)[|outputDir|] == name;
    assert name[|name| - 1] == 'l' != BaseCssName[|BaseCssName| - 1];
  }

  /**
   * base.css is copied into the destination's parent, which is the output directory, exactly
   * when that directory did not exist and the copy can be written; once the source is read,
   * the directory exists afterwards whatever else happens.
   */
  lemma StepCopiesCssIffParentIsNew(env: Env, unwritable: set<Path>, mask: bv32, template: string,
                                    d: Disk, includedFile: string)
    ensures var o := Step(env, unwritable, mask, template, d, includedFile);
            var css := env.outputDir + [BaseCssName];
            && (includedFile in env.sources ==> env.outputDir in o.disk.dirs)
            && (o.copies != [] <==> includedFile in env.sources && env.outputDir !in d.dirs && css !in unwritable)
            && (o.copies != [] ==> o.copies == [env.outputDir] && css in o.disk.files && o.disk.files[css] == env.baseCss)
  {
    if includedFile in env.sources {
      DestinationIsInOutputDirectory(env.outputDir, includedFile);
      DestinationIsNotBaseCss(env.outputDir, includedFile);
    }
  }

  /** A step that succeeds leaves the page at the destination. */
  lemma StepWritesPage(env: Env, unwritable: set<Path>, mask: bv32, template: string,
                       d: Disk, includedFile: string)
    requires Step(env, unwritable, mask, template, d, includedFile).error.None?
    ensures includedFile in env.sources
    ensures var dest := GetDestinationFile(env.outputDir, includedFile);
            var files := Step(env, unwritable, mask, template, d, includedFile).disk.files;
            dest in files && files[dest] == Page(env, mask, template, includedFile)
  {
  }

  /**
   * A step only adds: every directory and file stays, directories are created only on the way
   * to the output directory, every file other than the destination and base.css keeps its
   * contents, and every file added or rewritten lies directly in the output directory.
   */
  lemma StepOnlyAddsInOutputDirectory(env: Env, unwritable: set<Path>, mask: bv32, template: string,
                                      d: Disk, includedFile: string)
    ensures var o := Step(env, unwritable, mask, template, d, includedFile);
            && d.dirs <= o.disk.dirs
            && (forall q :: q in o.disk.dirs && q !in d.dirs ==> q <= env.outputDir)
            && d.files.Keys <= o.disk.files.Keys
            && (forall q :: (q in d.files && q != GetDestinationFile(env.outputDir, includedFile)
                               && q != env.outputDir + [BaseCssName]) ==> o.disk.files[q] == d.files[q])
            && (forall q :: q in o.disk.files && (q !in d.files || o.disk.files[q] != d.files[q]) ==>
                  |q| == |env.outputDir| + 1 && q[..|env.outputDir|] == env.outputDir)
  {
    StepCreatesOnlyAncestors(env, unwritable, mask, template, d, includedFile);
    StepWritesOnlyPageAndCss(env, unwritable, mask, template, d, includedFile);
    var dest := GetDestinationFile(env.outputDir, includedFile);
    DestinationIsInOutputDirectory(env.outputDir, includedFile);
    assert |dest| == |env.outputDir| + 1 && dest[..|env.outputDir|] == env.outputDir;
    var css := env.outputDir + [BaseCssName];
    assert css[..|env.outputDir|] == env.outputDir;
  }

  /** The only directories a step creates are the output directory and its ancestors. */
  lemma StepCreatesOnlyAncestors(env: Env, unwritable: set<Path>, mask: bv32, template: string,
                                 d: Disk, includedFile: string)
    ensures var o := Step(env, unwritable, mask, template, d, includedFile);
            && d.dirs <= o.disk.dirs
            && forall q :: q in o.disk.dirs && q !in d.dirs ==> q <= env.outputDir
  {
    if includedFile in env.sources {
      DestinationIsInOutputDirectory(env.outputDir, includedFile);
    }
  }

  /** The only files a step can add or rewrite are the page's destination and base.css. */
  lemma StepWritesOnlyPageAndCss(env: Env, unwritable: set<Path>, mask: bv32, template: string,
                                 d: Disk, includedFile: string)
    ensures var o := Step(env, unwritable, mask, template, d, includedFile);
            && d.files.Keys <= o.disk.files.Keys
            && forall q :: (q in o.disk.files && q != GetDestinationFile(env.outputDir, includedFile)
                            && q != env.outputDir + [BaseCssName]) ==> q in d.files && o.disk.files[q] == d.files[q]
  {
    if includedFile in env.sources {
      var dest := GetDestinationFile(env.outputDir, includedFile);
      DestinationIsInOutputDirectory(env.outputDir, includedFile);
      var page := Page(env, mask, template, includedFile);
      var files := Step(env, unwritable, mask, template, d, includedFile).disk.files;
      var css := env.outputDir + [BaseCssName];
      if env.outputDir in d.dirs {
        assert files == d.files || files == d.files[dest := page];
      } else if css !in unwritable {
        assert files == d.files[css := env.baseCss] || files == d.files[css := env.baseCss][dest := page];
      }
    }
  }

  /** A failing step reports the included file it was processing. */
  lemma StepErrorNamesFile(env: Env, unwritable: set<Path>, mask: bv32, template: string,
                           d: Disk, includedFile: string)
    ensures var o := Step(env, unwritable, mask, template, d, includedFile);
            o.error.Some? ==> o.error == Some(IoErrorMessage(includedFile))
  {
  }

  // Properties of a step function that carry over to the whole loop.

  /** Every error names the file being processed. */
  ghost predicate NamesFailingFile(step: (Disk, string) -> Outcome) {
    forall d: Disk, f: string :: step(d, f).error.Some? ==> step(d, f).error == Some(IoErrorMessage(f))
  }

  /** Nothing disappears, and every file added or rewritten lies directly in dir. */
  ghost predicate OnlyAddsIn(step: (Disk, string) -> Outcome, dir: Path) {
    forall d: Disk, f: string ::
      && d.dirs <= step(d, f).disk.dirs
      && d.files.Keys <= step(d, f).disk.files.Keys
      && (forall q :: q in step(d, f).disk.files && (q !in d.files || step(d, f).disk.files[q] != d.files[q]) ==>
            |q| == |dir| + 1 && q[..|dir|] == dir)
  }

  /** Every file other than the destination of the processed file and base.css keeps its contents. */
  ghost predicate KeepsOtherFiles(step: (Disk, string) -> Outcome, outputDir: Path) {
    forall d: Disk, f: string, q: Path ::
      q in d.files && q != GetDestinationFile(outputDir, f) && q != outputDir + [BaseCssName] ==>
        q in step(d, f).disk.files && step(d, f).disk.files[q] == d.files[q]
  }

  /** base.css is copied at most once per step, only into dir and only when dir is new, which it no longer is after. */
  ghost predicate CopiesOnlyIntoNew(step: (Disk, string) -> Outcome, dir: Path) {
    forall d: Disk, f: string ::
      && d.dirs <= step(d, f).disk.dirs
      && (step(d, f).copies == [] || (step(d, f).copies == [dir] && dir !in d.dirs && dir in step(d, f).disk.dirs))
  }

  /** A step that succeeds has written the file's destination. */
  ghost predicate WritesDestination(step: (Disk, string) -> Outcome, outputDir: Path) {
    forall d: Disk, f: string :: step(d, f).error.None? ==> GetDestinationFile(outputDir, f) in step(d, f).disk.files
  }

  lemma StepOfProperties(env: Env, unwritable: set<Path>, mask: bv32, template: string)
    ensures var step := StepOf(env, unwritable, mask, template);
            && NamesFailingFile(step)
            && OnlyAddsIn(step, env.outputDir)
            && KeepsOtherFiles(step, env.outputDir)
            && CopiesOnlyIntoNew(step, env.outputDir)
            && WritesDestination(step, env.outputDir)
  {
    var step := StepOf(env, unwritable, mask, template);
    forall d: Disk, f: string ensures step(d, f) == Step(env, unwritable, mask, template, d, f) {
    }
    forall d: Disk, f: string ensures step(d, f).error.Some? ==> step(d, f).error == Some(IoErrorMessage(f)) {
      StepErrorNamesFile(env, unwritable, mask, template, d, f);
    }
    forall d: Disk, f: string
      ensures && d.dirs <= step(d, f).disk.dirs
              && d.files.Keys <= step(d, f).disk.files.Keys
              && (forall q :: q in step(d, f).disk.files && (q !in d.files || step(d, f).disk.files[q] != d.files[q]) ==>
                    |q| == |env.outputDir| + 1 && q[..|env.outputDir|] == env.outputDir)
              && (forall q :: q in d.files && q != GetDestinationFile(env.outputDir, f)
                                && q != env.outputDir + [BaseCssName] ==>
                    q in step(d, f).disk.files && step(d, f).disk.files[q] == d.files[q])
    {
      StepOnlyAddsInOutputDirectory(env, unwritable, mask, template, d, f);
    }
    forall d: Disk, f: string
      ensures step(d, f).copies == [] || (step(d, f).copies == [env.outputDir] && env.outputDir !in d.dirs
                                          && env.outputDir in step(d, f).disk.dirs)
    {
      StepCopiesCssIffParentIsNew(env, unwritable, mask, template, d, f);
    }
    forall d: Disk, f: string ensures step(d, f).error.None? ==> GetDestinationFile(env.outputDir, f) in step(d, f).disk.files {
      if step(d, f).error.None? {
        StepWritesPage(env, unwritable, mask, template, d, f);
      }
    }
  }

  /** The loop from position i on is the step on the file at i, then, unless it failed, the rest. */
  lemma RunFirst(step: (Disk, string) -> Outcome, d: Disk, included: seq<string>, i: nat)
    requires i < |included|
    ensures var o := step(d, included[i]);
            var r := Run(step, o.disk, included[i + 1..]);
            Run(step, d, included[i..]) == if o.error.Some? then o else Outcome(r.disk, o.copies + r.copies, r.error)
  {
    assert included[i..][0] == included[i] && included[i..][1..] == included[i + 1..];
  }

  /** Running a + b is running a, then, unless a failed, running b from where a left off. */
  lemma {:induction false} RunAppend(step: (Disk, string) -> Outcome, d: Disk, a: seq<string>, b: seq<string>)
    ensures var ra := Run(step, d, a);
            var rb := Run(step, ra.disk, b);
            Run(step, d, a + b) == if ra.error.Some? then ra else Outcome(rb.disk, ra.copies + rb.copies, rb.error)
    decreases |a|
  {
    if a == [] {
      assert a + b == b;
      assert [] + Run(step, d, b).copies == Run(step, d, b).copies;
    } else {
      assert (a + b)[0] == a[0] && (a + b)[1..] == a[1..] + b;
      var o := step(d, a[0]);
      if o.error.None? {
        RunAppend(step, o.disk, a[1..], b);
        var tail := Run(step, o.disk, a[1..]);
        var rb := Run(step, tail.disk, b);
        if tail.error.None? {
          assert o.copies + (tail.copies + rb.copies) == (o.copies + tail.copies) + rb.copies;
        }
      }
    }
  }

  /**
   * A failure while processing an included file aborts the run with the error of that file;
   * the files after it are not processed, and the disk stays as the failing step left it.
   */
  lemma RunStopsAtFailure(step: (Disk, string) -> Outcome, d: Disk, done: seq<string>, failing: string,
                          rest: seq<string>)
    requires Run(step, d, done).error.None?
    requires step(Run(step, d, done).disk, failing).error.Some?
    ensures var o := Run(step, d, done + [failing] + rest);
            var s := step(Run(step, d, done).disk, failing);
            o.error == s.error && o.disk == s.disk
  {
    var before := Run(step, d, done).disk;
    RunAppend(step, d, done, [failing]);
    RunAppend(step, d, done + [failing], rest);
    assert [failing][1..] == [];
  }

  /** Any error of a run names one of the included files. */
  lemma {:induction false} RunErrorNamesFile(step: (Disk, string) -> Outcome, d: Disk, included: seq<string>)
    requires NamesFailingFile(step)
    ensures var o := Run(step, d, included);
            o.error.Some? ==> exists i :: 0 <= i < |included| && o.error == Some(IoErrorMessage(included[i]))
    decreases |included|
  {
    if included != [] {
      var o := step(d, included[0]);
      if o.error.None? {
        RunErrorNamesFile(step, o.disk, included[1..]);
        var r := Run(step, o.disk, included[1..]);
        if r.error.Some? {
          var i :| 0 <= i < |included[1..]| && r.error == Some(IoErrorMessage(included[1..][i]));
          assert included[1..][i] == included[i + 1];
        }
      } else {
        assert o.error == Some(IoErrorMessage(included[0]));
      }
    }
  }

  /** A run only adds: no directory or file disappears, and every file added or rewritten lies directly in dir. */
  lemma {:induction false} RunOnlyAddsIn(step: (Disk, string) -> Outcome, dir: Path, d: Disk, included: seq<string>)
    requires OnlyAddsIn(step, dir)
    ensures var o := Run(step, d, included);
            && d.dirs <= o.disk.dirs
            && d.files.Keys <= o.disk.files.Keys
            && (forall q :: q in o.disk.files && (q !in d.files || o.disk.files[q] != d.files[q]) ==>
                  |q| == |dir| + 1 && q[..|dir|] == dir)
    decreases |included|
  {
    if included != [] {
      var s := step(d, included[0]);
      if s.error.None? {
        RunOnlyAddsIn(step, dir, s.disk, included[1..]);
        var o := Run(step, d, included);
        assert o.disk == Run(step, s.disk, included[1..]).disk;
        forall q | q in o.disk.files && (q !in d.files || o.disk.files[q] != d.files[q])
          ensures |q| == |dir| + 1 && q[..|dir|] == dir
        {
          if q !in s.disk.files || o.disk.files[q] != s.disk.files[q] {
          } else {
            assert q in s.disk.files && (q !in d.files || s.disk.files[q] != d.files[q]);
          }
        }
      }
    }
  }

  /**
   * A file that is neither base.css nor the destination of any included file keeps its
   * contents over the whole run.
   */
  lemma {:induction false} RunKeepsOtherFiles(step: (Disk, string) -> Outcome, outputDir: Path, d: Disk,
                                              included: seq<string>, q: Path)
    requires KeepsOtherFiles(step, outputDir)
    requires q in d.files && q != outputDir + [BaseCssName]
    requires forall f :: f in included ==> GetDestinationFile(outputDir, f) != q
    ensures var o := Run(step, d, included);
            q in o.disk.files && o.disk.files[q] == d.files[q]
    decreases |included|
  {
    if included != [] {
      var s := step(d, included[0]);
      assert q in s.disk.files && s.disk.files[q] == d.files[q];
      if s.error.None? {
        assert forall f :: f in included[1..] ==> f in included;
        RunKeepsOtherFiles(step, outputDir, s.disk, included[1..], q);
      }
    }
  }

  /**
   * base.css is copied at most once per run, into dir, and only when dir did not exist before
   * the run: the first copy creates it, so later files find it there.
   */
  lemma {:induction false} RunCopiesCssAtMostOnce(step: (Disk, string) -> Outcome, dir: Path, d: Disk,
                                                  included: seq<string>)
    requires CopiesOnlyIntoNew(step, dir)
    ensures var o := Run(step, d, included);
            && d.dirs <= o.disk.dirs
            && (o.copies == [] || (o.copies == [dir] && dir !in d.dirs && dir in o.disk.dirs))
    decreases |included|
  {
    if included != [] {
      var s := step(d, included[0]);
      if s.error.None? {
        RunCopiesCssAtMostOnce(step, dir, s.disk, included[1..]);
        var r := Run(step, s.disk, included[1..]);
        if s.copies != [] {
          assert dir in s.disk.dirs;
          assert r.copies == [];
        }
        assert s.copies + r.copies == if s.copies == [] then r.copies else s.copies;
      }
    }
  }

  /** A run that succeeds has written a page for every included file. */
  lemma {:induction false} RunWritesEveryDestination(step: (Disk, string) -> Outcome, outputDir: Path,
                                                     d: Disk, included: seq<string>)
    requires WritesDestination(step, outputDir)
    requires OnlyAddsIn(step, outputDir)
    ensures var o := Run(step, d, included);
            o.error.None? ==> forall f :: f in included ==> GetDestinationFile(outputDir, f) in o.disk.files
    decreases |included|
  {
    if included != [] {
      var s := step(d, included[0]);
      if s.error.None? {
        RunWritesEveryDestination(step, outputDir, s.disk, included[1..]);
        RunOnlyAddsIn(step, outputDir, s.disk, included[1..]);
        var o := Run(step, d, included);
        forall f | f in included && o.error.None?
          ensures GetDestinationFile(outputDir, f) in o.disk.files
        {
          if f != included[0] {
            assert f in included[1..];
          }
        }
      }
    }
  }

  /** Once the files up to position i have been processed without failure, the destination of the file at i holds its page. */
  lemma FileWritesPage(env: Env, unwritable: set<Path>, mask: bv32, template: string,
                       d: Disk, included: seq<string>, i: nat)
    requires i < |included|
    requires Run(StepOf(env, unwritable, mask, template), d, included[..i + 1]).error.None?
    ensures included[i] in env.sources
    ensures var files := Run(StepOf(env, unwritable, mask, template), d, included[..i + 1]).disk.files;
            var dest := GetDestinationFile(env.outputDir, included[i]);
            dest in files && files[dest] == Page(env, mask, template, included[i])
  {
    var step := StepOf(env, unwritable, mask, template);
    var last := included[i];
    assert included[..i + 1] == included[..i] + [last];
    RunAppend(step, d, included[..i], [last]);
    var before := Run(step, d, included[..i]).disk;
    assert [last][1..] == [];
    assert step(before, last) == Step(env, unwritable, mask, template, before, last);
    StepWritesPage(env, unwritable, mask, template, before, last);
  }

  /**
   * Of included files sharing a destination, the last one wins: after a successful run the
   * destination of the file at i holds that file's page whenever no later file has the same
   * destination.
   */
  lemma LastPageWins(env: Env, unwritable: set<Path>, mask: bv32, template: string,
                     d: Disk, included: seq<string>, i: nat)
    requires Run(StepOf(env, unwritable, mask, template), d, included).error.None?
    requires i < |included|
    requires forall j :: i < j < |included| ==>
               GetDestinationFile(env.outputDir, included[j]) != GetDestinationFile(env.outputDir, included[i])
    ensures included[i] in env.sources
    ensures var files := Run(StepOf(env, unwritable, mask, template), d, included).disk.files;
            var dest := GetDestinationFile(env.outputDir, included[i]);
            dest in files && files[dest] == Page(env, mask, template, included[i])
  {
    var step := StepOf(env, unwritable, mask, template);
    RunPrefixSucceeds(step, d, included, i + 1);
    FileWritesPage(env, unwritable, mask, template, d, included, i);
    assert KeepsOtherFiles(step, env.outputDir) by {
      StepOfProperties(env, unwritable, mask, template);
    }
    DestinationIsNotBaseCss(env.outputDir, included[i]);
    RunKeepsLaterFile(step, env.outputDir, d, included, i);
  }

  /**
   * A run that succeeds succeeded on every prefix of the included files, and ends on the disk
   * that the rest of the files make of the prefix's disk.
   */
  lemma RunPrefixSucceeds(step: (Disk, string) -> Outcome, d: Disk, included: seq<string>, n: nat)
    requires Run(step, d, included).error.None?
    requires n <= |included|
    ensures Run(step, d, included[..n]).error.None?
    ensures Run(step, d, included).disk == Run(step, Run(step, d, included[..n]).disk, included[n..]).disk
  {
    assert included == included[..n] + included[n..];
    RunAppend(step, d, included[..n], included[n..]);
  }

  /**
   * After a successful run, a destination that no later file shares holds what it held once
   * the file at i was processed.
   */
  lemma RunKeepsLaterFile(step: (Disk, string) -> Outcome, outputDir: Path, d: Disk, included: seq<string>, i: nat)
    requires KeepsOtherFiles(step, outputDir)
    requires Run(step, d, included).error.None?
    requires i < |included|
    requires forall j :: i < j < |included| ==>
               GetDestinationFile(outputDir, included[j]) != GetDestinationFile(outputDir, included[i])
    requires GetDestinationFile(outputDir, included[i]) != outputDir + [BaseCssName]
    requires GetDestinationFile(outputDir, included[i]) in Run(step, d, included[..i + 1]).disk.files
    ensures var dest := GetDestinationFile(outputDir, included[i]);
            var files := Run(step, d, included).disk.files;
            dest in files && files[dest] == Run(step, d, included[..i + 1]).disk.files[dest]
  {
    var dest := GetDestinationFile(outputDir, included[i]);
    var upTo, rest := included[..i + 1], included[i + 1..];
    var mid := Run(step, d, upTo);
    RunPrefixSucceeds(step, d, included, i + 1);
    LaterDestinationsDiffer(outputDir, included, i);
    RunKeepsOtherFiles(step, outputDir, mid.disk, rest, dest);
  }

  /** The files after position i, as a set of files, avoid the destination of the file at i. */
  lemma LaterDestinationsDiffer(outputDir: Path, included: seq<string>, i: nat)
    requires i < |included|
    requires forall j :: i < j < |included| ==>
               GetDestinationFile(outputDir, included[j]) != GetDestinationFile(outputDir, included[i])
    ensures forall f :: f in included[i + 1..] ==> GetDestinationFile(outputDir, f) != GetDestinationFile(outputDir, included[i])
  {
    var rest := included[i + 1..];
    forall f | f in rest ensures GetDestinationFile(outputDir, f) != GetDestinationFile(outputDir, included[i]) {
      var k :| 0 <= k < |rest| && rest[k] == f;
      assert rest[k] == included[i + 1 + k];
    }
  }

  /**
   * With the sources directory present, the goal fails only for an unknown option, an
   * unreadable template or an included file, each named in the message; it touches nothing
   * before the loop starts.
   */
  lemma ExecuteErrors(env: Env, unwritable: set<Path>, options: Option<seq<string>>,
                      flags: map<string, bv32>, template: Option<string>, d: Disk, included: seq<string>)
    ensures var o := ExecuteOutcome(env, unwritable, options, flags, template, d, included);
            o.error.Some? ==>
              || (options.Some? && (exists i :: 0 <= i < |options.value| && options.value[i] !in flags
                                                && o.error == Some(UnknownExtensionMessage(options.value[i]))))
              || (template.None? && o == Outcome(d, [], Some(TemplateErrorMessage)))
              || (exists i :: 0 <= i < |included| && o.error == Some(IoErrorMessage(included[i])))
  {
    var r := Options(options, flags);
    if r.Success? && template.Some? {
      var step := StepOf(env, unwritable, r.value, template.value);
      StepOfProperties(env, unwritable, r.value, template.value);
      RunErrorNamesFile(step, d, included);
    } else if r.Failure? {
      var i := FirstUnknown(options.value, flags).value;
      assert options.value[i] !in flags;
    }
  }

  /**
   * Over a whole goal, base.css is copied at most once, into the output directory, and only
   * when that directory did not exist; nothing disappears, new files lie directly in the output
   * directory, and a goal that succeeds has written every destination.
   */
  lemma ExecuteEffects(env: Env, unwritable: set<Path>, options: Option<seq<string>>,
                       flags: map<string, bv32>, template: Option<string>, d: Disk, included: seq<string>)
    ensures var o := ExecuteOutcome(env, unwritable, options, flags, template, d, included);
            && (o.copies == [] || (o.copies == [env.outputDir] && env.outputDir !in d.dirs && env.outputDir in o.disk.dirs))
            && d.dirs <= o.disk.dirs
            && d.files.Keys <= o.disk.files.Keys
            && (forall q :: q in o.disk.files && (q !in d.files || o.disk.files[q] != d.files[q]) ==>
                  |q| == |env.outputDir| + 1 && q[..|env.outputDir|] == env.outputDir)
            && (o.error.None? ==> forall f :: f in included ==> GetDestinationFile(env.outputDir, f) in o.disk.files)
  {
    var r := Options(options, flags);
    if r.Success? && template.Some? {
      var step := StepOf(env, unwritable, r.value, template.value);
      StepOfProperties(env, unwritable, r.value, template.value);
      RunCopiesCssAtMostOnce(step, env.outputDir, d, included);
      RunOnlyAddsIn(step, env.outputDir, d, included);
      RunWritesEveryDestination(step, env.outputDir, d, included);
    }
  }

  /**
   * The file system as the goal sees it: the existing directories and the file contents,
   * which the goal updates in place, and the paths that cannot be written.
   */
  class Site {
    var dirs: set<Path>
    var files: map<Path, string>
    const unwritable: set<Path>

    constructor (dirs: set<Path>, files: map<Path, string>, unwritable: set<Path>)
      ensures this.dirs == dirs && this.files == files && this.unwritable == unwritable
    {
      this.dirs := dirs;
      this.files := files;
      this.unwritable := unwritable;
    }

    function State(): Disk
      reads this
    {
      Disk(dirs, files)
    }

    /** File.mkdirs: creates the directory with all its ancestors. */
    method Mkdirs(p: Path)
      modifies this
      ensures dirs == old(dirs) + Ancestors(p) && files == old(files)
    {
      dirs := dirs + Ancestors(p);
    }

    /** Files.write / Files.copy: stores the content, or fails on an unwritable path. */
    method Write(p: Path, content: string) returns (ok: bool)
      modifies this
      ensures ok <==> p !in unwritable
      ensures dirs == old(dirs)
      ensures files == if ok then old(files)[p := content] else old(files)
    {
      ok := p !in unwritable;
      if ok {
        files := files[p := content];
      }
    }

    /** The body of the loop for one included file; copied lists where base.css went. */
    method ProcessFile(env: Env, mask: bv32, template: string, includedFile: string)
      returns (error: Option<string>, ghost copied: seq<Path>)
      modifies this
      ensures var o := StepOf(env, unwritable, mask, template)(old(State()), includedFile);
              State() == o.disk && error == o.error && copied == o.copies
    {
      assert StepOf(env, unwritable, mask, template)(State(), includedFile)
          == Step(env, unwritable, mask, template, State(), includedFile);
      copied := [];
      if includedFile !in env.sources {
        return Some(IoErrorMessage(includedFile)), copied;
      }
      var html := env.toHtml(mask, env.sources[includedFile]);
      var destination := GetDestinationFile(env.outputDir, includedFile);
      var parent := ParentOf(destination);
      if parent !in dirs {
        Mkdirs(parent);
        var ok := Write(parent + [BaseCssName], env.baseCss);
        if !ok {
          return Some(IoErrorMessage(includedFile)), copied;
        }
        copied := [parent];
      }
      var page := RenderPage(template, html);
      var ok := Write(destination, page);
      if !ok {
        return Some(IoErrorMessage(includedFile)), copied;
      }
      return None, copied;
    }

    /** The loop over the included files, stopping at the first failure. */
    method ProcessAll(env: Env, mask: bv32, template: string, included: seq<string>)
      returns (error: Option<string>, ghost copies: seq<Path>)
      modifies this
      ensures var o := Run(StepOf(env, unwritable, mask, template), old(State()), included);
              State() == o.disk && error == o.error && copies == o.copies
    {
      copies := [];
      ghost var step := StepOf(env, unwritable, mask, template);
      ghost var d0 := State();
      var i := 0;
      while i < |included|
        invariant 0 <= i <= |included|
        invariant var r := Run(step, State(), included[i..]);
                  Run(step, d0, included) == Outcome(r.disk, copies + r.copies, r.error)
      {
        var includedFile := included[i];
        ghost var before := State();
        RunFirst(step, before, included, i);
        var failed, copied := ProcessFile(env, mask, template, includedFile);
        if failed.Some? {
          return failed, copies + copied;
        }
        ghost var rest := Run(step, State(), included[i + 1..]);
        assert copies + (copied + rest.copies) == (copies + copied) + rest.copies;
        copies := copies + copied;
        i := i + 1;
      }
      assert [] + copies == copies;
      return None, copies;
    }

    /**
     * execute: resolves the options, reads the template and processes the included files in
     * order, stopping at the first failure. The disk ends as ExecuteOutcome says.
     */
    method Execute(env: Env, options: Option<seq<string>>, flags: map<string, bv32>,
                   template: Option<string>, included: seq<string>)
      returns (error: Option<string>, ghost copies: seq<Path>)
      modifies this
      ensures var o := ExecuteOutcome(env, unwritable, options, flags, template, old(State()), included);
              State() == o.disk && error == o.error && copies == o.copies
    {
      var mask := GetOptions(options, flags);
      if mask.Failure? {
        return Some(mask.error), [];
      }
      if template.None? {
        return Some(TemplateErrorMessage), [];
      }
      error, copies := ProcessAll(env, mask.value, template.value, included);
    }
  }
}
