/** The one-line description `_extract_script_summary` gives of a GDScript
    file in the codebase summary: its leading `##` doc comment, else an
    `extends` line. Reading the file is left to the caller, which passes
    the text, or nothing when the file could not be read. */
module Summarizer {
  import opened Opt
  import opened Text

  const Unreadable: string := "(unreadable)"
  const NoSummary: string := "(no summary)"

  predicate IsHash(c: char) {
    c == '#'
  }

  /** What the header scan found: a summary, or that the scan stopped
      (at the first line of code, or at the end). */
  function Header(lines: seq<string>): Option<string>
    decreases |lines|
  {
    if lines == [] then None
    else
      var stripped := Strip(lines[0]);
      if StartsWith(stripped, "##") then Some(Strip(LTrim(stripped, IsHash)))
      else if StartsWith(stripped, "extends") then Some(stripped)
      else if stripped != [] && !StartsWith(stripped, "#") then None
      else Header(lines[1..])
  }

  /** A line the header scan reads past: blank or a plain `#` comment. */
  predicate Preamble(line: string) {
    var stripped := Strip(line);
    !StartsWith(stripped, "##") && !StartsWith(stripped, "extends")
      && (stripped == [] || StartsWith(stripped, "#"))
  }

  function ScriptSummary(file: Option<string>): string {
    match file
    case None => Unreadable
    case Some(text) =>
      var lines := Lines(text);
      match Header(lines)
      case Some(s) => s
      case None =>
        match FirstStripped(lines, "extends")
        case Some(l) => l
        case None => NoSummary
  }

  // ---------------------------------------------------------------------------
  // Properties
  // ---------------------------------------------------------------------------

  /** The header scan reads past the preamble and answers at the first line
      that is not preamble: the doc comment's text without its hashes, the
      `extends` line itself, or nothing at a line of code. */
  lemma {:induction false} HeaderSpec(lines: seq<string>)
    decreases |lines|
    ensures var k := PreambleLength(lines);
      && k <= |lines|
      && (forall i | 0 <= i < k :: Preamble(lines[i]))
      && (k == |lines| ==> Header(lines) == None)
      && (k < |lines| ==> Header(lines) == HeaderAt(lines[k]))
  {
    if lines != [] && Preamble(lines[0]) {
      HeaderSpec(lines[1..]);
      var k := PreambleLength(lines[1..]);
      assert forall i | 1 <= i < k + 1 :: lines[i] == lines[1..][i - 1];
    }
  }

  /** The number of preamble lines at the top. */
  function PreambleLength(lines: seq<string>): nat
    decreases |lines|
  {
    if lines != [] && Preamble(lines[0]) then 1 + PreambleLength(lines[1..]) else 0
  }

  /** The answer at the first line that is not preamble. */
  function HeaderAt(line: string): Option<string> {
    var stripped := Strip(line);
    if StartsWith(stripped, "##") then Some(Strip(LTrim(stripped, IsHash)))
    else if StartsWith(stripped, "extends") then Some(stripped)
    else None
  }

  /** The summary of a readable file: the header scan's answer at the
      first line that is not preamble, else the first `extends` line
      anywhere, else the placeholder; an unreadable file has its own
      placeholder. */
  lemma SummaryCases(file: Option<string>)
    ensures file.None? ==> ScriptSummary(file) == Unreadable
    ensures file.Some? ==>
      var lines := Lines(file.value);
      var k := PreambleLength(lines);
      var fallback := match FirstStripped(lines, "extends") case Some(l) => l case None => NoSummary;
      && (k < |lines| && HeaderAt(lines[k]).Some? ==> ScriptSummary(file) == HeaderAt(lines[k]).value)
      && (!(k < |lines| && HeaderAt(lines[k]).Some?) ==> ScriptSummary(file) == fallback)
  {
    if file.Some? {
      HeaderSpec(Lines(file.value));
    }
  }

  /** A doc comment written as `## ` and a stripped text reads back as
      that text, hashes and blanks removed. */
  lemma DocCommentRead(d: string)
    requires Strip(d) == d
    ensures HeaderAt("## " + d) == Some(d)
  {
    var s := "## " + d;
    assert StartsWith(s, "##");
    if d == [] {
      assert s == "## ";
      assert RTrim(s, IsSpace) == RTrim(s[..2], IsSpace) == "##";
      assert LTrim("##", IsSpace) == "##";
      assert LTrim("##", IsHash) == LTrim("#", IsHash) == LTrim("", IsHash);
    } else {
      StripEnds(d);
      assert s[|s| - 1] == d[|d| - 1];
      assert RTrim(s, IsSpace) == s;
      assert LTrim(s, IsSpace) == s;
      assert s[1..][1..] == " " + d;
      assert LTrim(s, IsHash) == LTrim(s[1..], IsHash) == LTrim(" " + d, IsHash) == " " + d;
      StripLeadingSpace(d);
    }
  }

  /** A script that opens with blank lines or plain comments and then a
      doc comment is summarised by that comment's text, whatever follows. */
  lemma DocCommentSummary(text: string, d: string)
    requires Strip(d) == d
    requires var lines := Lines(text); var k := PreambleLength(lines);
      k < |lines| && lines[k] == "## " + d
    ensures ScriptSummary(Some(text)) == d
  {
    SummaryCases(Some(text));
    DocCommentRead(d);
  }

  /** A script with no doc comment or `extends` line before its first line
      of code is summarised by its first `extends` line anywhere, and by
      the placeholder exactly when it has none. */
  lemma FallbackToExtends(text: string)
    requires Header(Lines(text)) == None
    ensures var s := ScriptSummary(Some(text));
      (s == NoSummary <==> forall i | 0 <= i < |Lines(text)| :: !StartsWith(Strip(Lines(text)[i]), "extends"))
      && (s != NoSummary ==> StartsWith(s, "extends"))
  {
    var lines := Lines(text);
    FirstStrippedSpec(lines, "extends");
    if FirstStripped(lines, "extends").Some? {
      ExtendsNotPlaceholder(FirstStripped(lines, "extends").value);
    }
  }

  lemma ExtendsNotPlaceholder(l: string)
    requires StartsWith(l, "extends")
    ensures l != NoSummary
  {
    assert l[0] == "extends"[0] == 'e';
    assert NoSummary[0] == '(';
  }
}
