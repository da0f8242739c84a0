/** Structured diagnostic records (`GodotError`), their one-line rendering,
    suggestion templates, and the summary of a test run (`TestResult`). */
module Diagnostics {
  import opened Text

  /** The closed set of categories the parser, the static pre-check and the
      smoke test produce. `ScriptError` is the category of records correlated
      from two-line `SCRIPT ERROR:` blocks. */
  datatype Category =
    | ParseError | MissingNode | MethodError | NullAccess | MissingResource
    | SceneError | ScriptLoadError | ScriptError | Validation | SmokeTest

  function CategoryName(c: Category): string {
    match c
    case ParseError => "parse_error"
    case MissingNode => "missing_node"
    case MethodError => "method_error"
    case NullAccess => "null_access"
    case MissingResource => "missing_resource"
    case SceneError => "scene_error"
    case ScriptLoadError => "script_load_error"
    case ScriptError => "script_error"
    case Validation => "validation"
    case SmokeTest => "smoke_test"
  }

  /** Category names are pairwise distinct, so a rendered record names its
      category unambiguously. */
  lemma {:induction false} CategoryNameInjective(a: Category, b: Category)
    requires CategoryName(a) == CategoryName(b)
    ensures a == b
  {
    match a
    case ParseError => assert CategoryName(a)[0] == 'p';
    case MissingNode => assert CategoryName(a)[8] == 'n';
    case MethodError => assert CategoryName(a)[0] == 'm' && CategoryName(a)[1] == 'e';
    case NullAccess => assert CategoryName(a)[0] == 'n';
    case MissingResource => assert CategoryName(a)[8] == 'r';
    case SceneError => assert CategoryName(a)[1] == 'c';
    case ScriptLoadError => assert |CategoryName(a)| == 17;
    case ScriptError => assert |CategoryName(a)| == 12 && CategoryName(a)[1] == 'c';
    case Validation => assert CategoryName(a)[0] == 'v';
    case SmokeTest => assert CategoryName(a)[1] == 'm';
  }

  /** One diagnostic record. `line` 0 means unknown. */
  datatype Diagnostic = Diagnostic(category: Category, file: string, line: nat, message: string, suggestion: string)

  /** The key the baseline filter compares: (file, line, message). */
  datatype Key = Key(file: string, line: nat, message: string)

  function KeyOf(d: Diagnostic): Key {
    Key(d.file, d.line, d.message)
  }

  // ---------------------------------------------------------------------------
  // Suggestion templates (`str.format` with `{line}` and `{message}` holes)
  // ---------------------------------------------------------------------------

  datatype Piece = Lit(text: string) | LineHole | MessageHole

  type Template = seq<Piece>

  function Format(t: Template, line: nat, message: string): string
    decreases |t|
  {
    if t == [] then ""
    else
      var head := match t[0]
        case Lit(s) => s
        case LineHole => NatToString(line)
        case MessageHole => message;
      head + Format(t[1..], line, message)
  }

  predicate HasHoles(t: Template) {
    exists i | 0 <= i < |t| :: !t[i].Lit?
  }

  /** A template without holes formats to its literal text whatever the
      record's line and message are. */
  lemma {:induction false} FormatConstant(t: Template, l1: nat, m1: string, l2: nat, m2: string)
    requires !HasHoles(t)
    decreases |t|
    ensures Format(t, l1, m1) == Format(t, l2, m2)
  {
    if t != [] {
      assert !HasHoles(t[1..]) by {
        forall i | 0 <= i < |t[1..]| ensures t[1..][i].Lit? {
          assert t[1..][i] == t[i + 1];
        }
      }
      FormatConstant(t[1..], l1, m1, l2, m2);
    }
  }

  // ---------------------------------------------------------------------------
  // Rendering
  // ---------------------------------------------------------------------------

  const EmDash: string := " \U{2014} "

  /** `GodotError.__str__`: a header line, plus an indented `Fix:` line only
      when there is a suggestion. */
  function Render(d: Diagnostic): (r: string)
    ensures StartsWith(r, "[" + CategoryName(d.category) + "] " + d.file + ":" + NatToString(d.line))
    ensures d.suggestion != "" ==> EndsWith(r, "\n  Fix: " + d.suggestion)
    ensures d.suggestion == "" ==> EndsWith(r, EmDash + d.message)
    ensures d.suggestion == "" && '\n' !in d.file && '\n' !in d.message ==> '\n' !in r
  {
    var prefix := "[" + CategoryName(d.category) + "] " + d.file + ":" + NatToString(d.line);
    var header := prefix + EmDash + d.message;
    assert header[..|prefix|] == prefix;
    if d.suggestion != "" then
      var r := header + "\n  Fix: " + d.suggestion;
      assert r[..|prefix|] == prefix;
      r
    else
      assert '\n' !in NatToString(d.line) by {
        var n := NatToString(d.line);
        assert forall i | 0 <= i < |n| :: IsDigit(n[i]);
      }
      CategoryNameOneLine(d.category);
      assert header[|header| - |EmDash + d.message|..] == EmDash + d.message;
      header
  }

  /** The first line of a rendered record: category, location, message. */
  function Header(d: Diagnostic): string {
    "[" + CategoryName(d.category) + "] " + d.file + ":" + NatToString(d.line) + EmDash + d.message
  }

  /** A record is the header line joined by a line break to the `Fix:`
      line, the latter present exactly when there is a suggestion. */
  lemma RenderParts(d: Diagnostic)
    ensures Render(d) == Join([Header(d)] + (if d.suggestion != "" then ["  Fix: " + d.suggestion] else []), "\n")
  {
    var h := Header(d);
    if d.suggestion != "" {
      var fix := "  Fix: " + d.suggestion;
      assert Render(d) == h + "\n" + fix;
      JoinCons(h, [fix], "\n");
    } else {
      assert Render(d) == h;
    }
  }

  /** A record whose fields hold no line break reads back as its header
      line, then the `Fix:` line exactly when there is a suggestion. */
  lemma RenderLines(d: Diagnostic)
    requires '\n' !in d.file && '\n' !in d.message && '\n' !in d.suggestion
    ensures Lines(Render(d)) == [Header(d)] + (if d.suggestion != "" then ["  Fix: " + d.suggestion] else [])
  {
    assert '\n' !in NatToString(d.line) by {
      var n := NatToString(d.line);
      assert forall i | 0 <= i < |n| :: IsDigit(n[i]);
    }
    CategoryNameOneLine(d.category);
    var h := Header(d);
    assert '\n' !in h;
    assert h[0] == '[';
    if d.suggestion != "" {
      var fix := "  Fix: " + d.suggestion;
      assert fix[0] == ' ' && fix[1] == ' ' && fix[2] == 'F';
      assert '\n' !in fix;
      RenderParts(d);
      LinesOfTwo(h, fix);
    } else {
      RenderParts(d);
      LinesOfLine(h);
    }
  }

  lemma CategoryNameOneLine(c: Category)
    ensures '\n' !in CategoryName(c)
  {
    match c
    case ParseError =>
    case MissingNode =>
    case MethodError =>
    case NullAccess =>
    case MissingResource =>
    case SceneError =>
    case ScriptLoadError =>
    case ScriptError =>
    case Validation =>
    case SmokeTest =>
  }

  // ---------------------------------------------------------------------------
  // Test results
  // ---------------------------------------------------------------------------

  /** The structured result of a runtime invocation. The legacy positional
      unpacking of the source object is not modelled. */
  datatype TestResult = TestResult(success: bool, rawOutput: string, errors: seq<Diagnostic>, warnings: seq<string>)

  const DefaultMaxErrors: nat := 5
  const RawOutputCap: nat := 500

  function Min(a: int, b: int): int {
    if a <= b then a else b
  }

  /** The lines of the error summary when there are errors: the first
      `maxErrors` records rendered, then a count of the rest if any. */
  function SummaryLines(errors: seq<Diagnostic>, maxErrors: nat): (r: seq<string>)
    ensures var shown := Min(|errors|, maxErrors);
      && |r| == shown + (if |errors| > maxErrors then 1 else 0)
      && (forall i | 0 <= i < shown :: r[i] == Render(errors[i]))
      && (|errors| > maxErrors ==> r[shown] == "... and " + NatToString(|errors| - maxErrors) + " more errors")
  {
    var shown := Min(|errors|, maxErrors);
    var rendered := seq(shown, i requires 0 <= i < shown => Render(errors[i]));
    if |errors| > maxErrors then
      rendered + ["... and " + NatToString(|errors| - maxErrors) + " more errors"]
    else rendered
  }

  /** `TestResult.error_summary`. Without structured errors the first 500
      characters of the raw output stand in, or "unknown error" when there
      is no output either. */
  function ErrorSummary(t: TestResult, maxErrors: nat): (r: string)
    ensures t.errors == [] && t.rawOutput == [] ==> r == "unknown error"
    ensures t.errors == [] && t.rawOutput != [] ==>
      |r| == Min(|t.rawOutput|, RawOutputCap) && StartsWith(t.rawOutput, r)
    ensures t.errors != [] ==> r == Join(SummaryLines(t.errors, maxErrors), "\n")
    ensures t.errors != [] && maxErrors > 0 ==> StartsWith(r, Render(t.errors[0]))
  {
    if t.errors == [] then
      (if t.rawOutput != [] then t.rawOutput[..Min(|t.rawOutput|, RawOutputCap)] else "unknown error")
    else
      var ls := SummaryLines(t.errors, maxErrors);
      if maxErrors > 0 then
        assert ls[0] == Render(t.errors[0]);
        JoinStartsWithHead(ls, "\n");
        Join(ls, "\n")
      else Join(ls, "\n")
  }

  /** A '\n'-joined list begins with its first element. */
  lemma JoinStartsWithHead(ls: seq<string>, sep: string)
    requires ls != []
    ensures StartsWith(Join(ls, sep), ls[0])
  {
    if |ls| > 1 {
      assert Join(ls, sep) == ls[0] + sep + Join(ls[1..], sep);
      assert (ls[0] + sep + Join(ls[1..], sep))[..|ls[0]|] == ls[0];
    }
  }
}
