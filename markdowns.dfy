/**
 * Title extraction from a Markdown document (class Markdowns): the first line with text
 * gives the title, with a leading level-1 ATX marker "# " removed.
 */
module Markdowns {
  import opened JavaStrings

  /** The title reported when the document supplies none. */
  const NoTitle: string := "No Title"

  /** The level-1 ATX header marker; it is recognised only at the start of a line. */
  const AtxH1Marker: string := "# "

  /** hasText: the line is not empty and trim() leaves something of it. */
  predicate HasText(line: string) {
    |line| > 0 && |Trim(line)| > 0
  }

  /** A line has text exactly when it holds a character above U+0020. */
  lemma HasTextIff(line: string)
    ensures HasText(line) <==> HasVisible(line)
  {
    TrimEmptyIff(line);
  }

  /** The pattern "^# " finds a match in the line. */
  predicate IsAtxH1(line: string) {
    StartsWith(line, AtxH1Marker)
  }

  /** replaceFirst("") with the pattern "^# ": the line without its leading marker. */
  function StripMarker(line: string): (r: string)
    requires IsAtxH1(line)
    ensures AtxH1Marker + r == line
  {
    line[|AtxH1Marker|..]
  }

  /** A title as getTitle returns it: non-empty, no trimmable character at either end, one line. */
  predicate IsCleanTitle(t: string) {
    t != [] && !IsTrimmable(t[0]) && !IsTrimmable(t[|t| - 1]) && '\n' !in t
  }

  /** Trimming a line with text gives a clean title when the line holds no newline. */
  lemma TrimmedLineIsClean(line: string)
    requires HasText(line)
    ensures '\n' !in line ==> IsCleanTitle(Trim(line))
  {
    if '\n' !in line {
      TrimKeepsCharacters(line, '\n');
    }
  }

  /** So does trimming the remainder of a header line whose remainder has text. */
  lemma TrimmedRemainderIsClean(line: string)
    requires IsAtxH1(line) && HasText(StripMarker(line))
    ensures '\n' !in line ==> IsCleanTitle(Trim(StripMarker(line)))
  {
    var rest := StripMarker(line);
    assert rest == line[2..];
    TrimmedLineIsClean(rest);
  }

  /**
   * The loop of getTitle over the lines of the document: skip lines without text; a line
   * starting with "# " gives its trimmed remainder when that has text, and otherwise the
   * scan goes on; any other line with text gives itself, trimmed.
   */
  function TitleOf(lines: seq<string>): (r: string)
    ensures (forall l :: l in lines ==> '\n' !in l) ==> r == NoTitle || IsCleanTitle(r)
  {
    if lines == [] then NoTitle
    else
      var line := lines[0];
      assert lines == [line] + lines[1..];
      if !HasText(line) then TitleOf(lines[1..])
      else if IsAtxH1(line) then
        var rest := StripMarker(line);
        if HasText(rest) then
          TrimmedRemainderIsClean(line); Trim(rest)
        else TitleOf(lines[1..])
      else
        TrimmedLineIsClean(line); Trim(line)
  }

  /** getTitle: the title of the lines that split("\n") cuts the document into. */
  function GetTitle(markdownDocument: string): (r: string)
    ensures r == NoTitle || IsCleanTitle(r)
  {
    TitleOf(Split(markdownDocument, '\n'))
  }

  // ---------------------------------------------------------------------------------
  // A declarative reading of getTitle: which line supplies the title, and what it is.

  /** A line from which the scan returns: it has text, and if it is a header, so does its remainder. */
  predicate SuppliesTitle(line: string) {
    HasText(line) && (IsAtxH1(line) ==> HasText(StripMarker(line)))
  }

  /** The title a supplying line gives. */
  function LineTitle(line: string): (r: string)
    requires SuppliesTitle(line)
    ensures IsCleanTitle(r) || '\n' in line
  {
    if IsAtxH1(line) then
      TrimmedRemainderIsClean(line); Trim(StripMarker(line))
    else
      TrimmedLineIsClean(line); Trim(line)
  }

  /** The first line that supplies a title decides the result. */
  lemma {:induction false} FirstSupplyingLineGivesTitle(lines: seq<string>, i: nat)
    requires i < |lines| && SuppliesTitle(lines[i])
    requires forall j :: 0 <= j < i ==> !SuppliesTitle(lines[j])
    ensures TitleOf(lines) == LineTitle(lines[i])
  {
    if i > 0 {
      assert !SuppliesTitle(lines[0]);
      FirstSupplyingLineGivesTitle(lines[1..], i - 1);
    }
  }

  /** Without a supplying line the result is "No Title". */
  lemma {:induction false} NoSupplyingLineGivesNoTitle(lines: seq<string>)
    requires forall j :: 0 <= j < |lines| ==> !SuppliesTitle(lines[j])
    ensures TitleOf(lines) == NoTitle
  {
    if lines != [] {
      assert !SuppliesTitle(lines[0]);
      NoSupplyingLineGivesNoTitle(lines[1..]);
    }
  }

  /** Lines without text in front of the document do not change its title. */
  lemma {:induction false} LeadingBlankLinesSkipped(blank: seq<string>, lines: seq<string>)
    requires forall b :: b in blank ==> !HasText(b)
    ensures TitleOf(blank + lines) == TitleOf(lines)
  {
    if blank != [] {
      var all := blank + lines;
      assert all[0] == blank[0] && blank[0] in blank;
      assert all[1..] == blank[1..] + lines;
      calc {
        TitleOf(all);
        TitleOf(all[1..]);
        { LeadingBlankLinesSkipped(blank[1..], lines); }
        TitleOf(lines);
      }
    } else {
      assert blank + lines == lines;
    }
  }

  /** Lines without text after the document do not change its title either. */
  lemma {:induction false} TrailingBlankLinesIgnored(lines: seq<string>, blank: seq<string>)
    requires forall b :: b in blank ==> !HasText(b)
    ensures TitleOf(lines + blank) == TitleOf(lines)
  {
    if lines == [] {
      assert lines + blank == blank;
      NoSupplyingLineGivesNoTitle(blank);
    } else {
      assert (lines + blank)[1..] == lines[1..] + blank;
      TrailingBlankLinesIgnored(lines[1..], blank);
    }
  }

  /** A header whose remainder is blank supplies nothing: the scan continues with the next line. */
  lemma BlankHeaderIsSkipped(line: string, rest: seq<string>)
    requires IsAtxH1(line) && !HasText(StripMarker(line))
    ensures TitleOf([line] + rest) == TitleOf(rest)
  {
    assert ([line] + rest)[1..] == rest;
  }

  /** A line with text that is not a header is the title, trimmed. */
  lemma PlainLineIsTitle(line: string, rest: seq<string>)
    requires HasText(line) && !IsAtxH1(line)
    ensures TitleOf([line] + rest) == Trim(line)
  {
  }

  /** A header line whose remainder has text gives that remainder, trimmed. */
  lemma HeaderLineIsTitle(line: string, rest: seq<string>)
    requires IsAtxH1(line) && HasText(StripMarker(line))
    ensures TitleOf([line] + rest) == Trim(StripMarker(line))
  {
  }

  /** A document without a newline is a single line. */
  lemma SingleLineDocument(doc: string)
    requires '\n' !in doc
    ensures GetTitle(doc) == TitleOf([doc])
  {
  }

  /** A one-line document that is a header with text after the marker. */
  lemma SingleLineHeaderTitle(doc: string)
    requires '\n' !in doc && IsAtxH1(doc) && HasText(StripMarker(doc))
    ensures GetTitle(doc) == Trim(StripMarker(doc))
  {
    SingleLineDocument(doc);
    HeaderLineIsTitle(doc, []);
    assert [doc] + [] == [doc];
  }

  /** A one-line document with text that is not a header. */
  lemma SingleLinePlainTitle(doc: string)
    requires '\n' !in doc && HasText(doc) && !IsAtxH1(doc)
    ensures GetTitle(doc) == Trim(doc)
  {
    SingleLineDocument(doc);
    PlainLineIsTitle(doc, []);
    assert [doc] + [] == [doc];
  }

  /** getTitle reads the same as the title of every piece between newlines, trailing empty ones included. */
  lemma GetTitleOfPieces(doc: string)
    ensures GetTitle(doc) == TitleOf(Pieces(doc, '\n'))
  {
    var all := Pieces(doc, '\n');
    var lines := Split(doc, '\n');
    var tail := all[|lines|..];
    assert all == lines + tail;
    forall b | b in tail ensures !HasText(b) {
      var k :| 0 <= k < |tail| && tail[k] == b;
      assert all[|lines| + k] == b;
    }
    TrailingBlankLinesIgnored(lines, tail);
  }

  /** An empty first line does not change the title of a document. */
  lemma LeadingNewlineSkipped(doc: string)
    ensures GetTitle("\n" + doc) == GetTitle(doc)
  {
    PiecesOfConcat("", '\n', doc);
    assert "" + ['\n'] + doc == "\n" + doc;
    GetTitleOfPieces("\n" + doc);
    GetTitleOfPieces(doc);
    LeadingBlankLinesSkipped([""], Pieces(doc, '\n'));
  }

  /** A first line that is "# " and nothing but blanks does not end the scan either. */
  lemma LeadingBlankHeaderSkipped(line: string, doc: string)
    requires '\n' !in line && IsAtxH1(line) && !HasText(StripMarker(line))
    ensures GetTitle(line + "\n" + doc) == GetTitle(doc)
  {
    PiecesOfConcat(line, '\n', doc);
    assert line + ['\n'] + doc == line + "\n" + doc;
    GetTitleOfPieces(line + "\n" + doc);
    GetTitleOfPieces(doc);
    BlankHeaderIsSkipped(line, Pieces(doc, '\n'));
  }

  /**
   * The whole contract of getTitle on a document: the first line (between newlines) that
   * supplies a title gives it.
   */
  lemma DocumentTitleIsFirstSupplyingLine(doc: string, i: nat)
    requires i < |Pieces(doc, '\n')| && SuppliesTitle(Pieces(doc, '\n')[i])
    requires forall j :: 0 <= j < i ==> !SuppliesTitle(Pieces(doc, '\n')[j])
    ensures GetTitle(doc) == LineTitle(Pieces(doc, '\n')[i])
  {
    GetTitleOfPieces(doc);
    FirstSupplyingLineGivesTitle(Pieces(doc, '\n'), i);
  }

  // ---------------------------------------------------------------------------------
  // The documented cases.

  lemma EmptyDocumentHasNoTitle()
    ensures GetTitle("") == NoTitle
  {
  }

  lemma AtxTitle()
    ensures GetTitle("# The Title") == "The Title"
  {
    var d := "# The Title";
    assert IsAtxH1(d) && StripMarker(d) == "The Title";
    assert Trim("The Title") == "The Title";
    SingleLineHeaderTitle(d);
  }

  lemma AtxMarkerAloneHasNoTitle()
    ensures GetTitle("# ") == NoTitle
  {
  }

  lemma LeadingEmptyLinesSkipped()
    ensures GetTitle("\n" + ("\n" + "The Title")) == "The Title"
  {
    calc {
      GetTitle("\n" + ("\n" + "The Title"));
      { LeadingNewlineSkipped("\n" + "The Title"); }
      GetTitle("\n" + "The Title");
      { LeadingNewlineSkipped("The Title"); }
      GetTitle("The Title");
      { assert Trim("The Title") == "The Title" && !IsAtxH1("The Title");
        SingleLinePlainTitle("The Title"); }
      "The Title";
    }
  }

  /** A "# " line without text does not end the scan: the next line with text is the title. */
  lemma BlankHeaderThenText()
    ensures GetTitle("# " + "\n" + "The Title") == "The Title"
  {
    calc {
      GetTitle("# " + "\n" + "The Title");
      { assert IsAtxH1("# ") && StripMarker("# ") == "";
        LeadingBlankHeaderSkipped("# ", "The Title"); }
      GetTitle("The Title");
      { assert Trim("The Title") == "The Title" && !IsAtxH1("The Title");
        SingleLinePlainTitle("The Title"); }
      "The Title";
    }
  }

  /** Only "# " at the start of a line is a marker; other hashes stay in the title. */
  lemma DoubleHashIsPlainText()
    ensures GetTitle("## x") == "## x"
  {
    assert "## x"[1] != ' ' && Trim("## x") == "## x" && !IsAtxH1("## x");
    SingleLinePlainTitle("## x");
  }

  lemma HashWithoutSpaceIsPlainText()
    ensures GetTitle("#x") == "#x"
  {
    assert "#x"[1] != ' ' && Trim("#x") == "#x" && !IsAtxH1("#x");
    SingleLinePlainTitle("#x");
  }

  lemma IndentedMarkerIsPlainText()
    ensures GetTitle("  " + "# x") == "# x"
  {
    var d := "  " + "# x";
    assert d == "  # x";
    assert TrimStart(d[2..]) == 0;
    assert TrimStart(d[1..]) == 1;
    assert TrimStart(d) == 2;
    assert Trim(d) == "# x";
    assert d[..2][0] == ' ';
    SingleLinePlainTitle(d);
  }
}
