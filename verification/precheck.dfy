/** The static pre-check run on written files before the engine is launched
    (`pre_validate_gdscript`, `validate_scene_refs`, `_find_game_root`):
    bracket balance outside strings and comments, preload targets and scene
    resource references that must exist on disk. */
module Precheck {
  import opened Opt
  import opened Text
  import opened Diagnostics
  import opened Paths

  // ---------------------------------------------------------------------------
  // Code characters: what the bracket scan looks at
  // ---------------------------------------------------------------------------

  /** Scanner state within one line. String state does not carry over to the
      next line, and a backslash does not escape the closing quote. */
  datatype Quote = Unquoted | InString(delim: char)

  predicate IsQuote(c: char) {
    c == '"' || c == '\''
  }

  /** The characters of `line` outside quoted strings and before an unquoted
      '#'; quote characters themselves are dropped. */
  function CodeChars(line: string, q: Quote): (r: string)
    decreases |line|
    ensures |r| <= |line|
    ensures forall i | 0 <= i < |r| :: !IsQuote(r[i]) && r[i] != '#'
  {
    if line == [] then []
    else match q
      case InString(d) => CodeChars(line[1..], if line[0] == d then Unquoted else q)
      case Unquoted =>
        if line[0] == '#' then []
        else if IsQuote(line[0]) then CodeChars(line[1..], InString(line[0]))
        else [line[0]] + CodeChars(line[1..], Unquoted)
  }

  /** A line without quotes or '#' is all code. */
  lemma {:induction false} PlainLineIsCode(line: string)
    requires forall i | 0 <= i < |line| :: !IsQuote(line[i]) && line[i] != '#'
    decreases |line|
    ensures CodeChars(line, Unquoted) == line
  {
    if line != [] {
      PlainLineIsCode(line[1..]);
      assert line == [line[0]] + line[1..];
    }
  }

  /** Everything up to the matching quote is skipped, '#' and brackets included. */
  lemma {:induction false} StringSkipped(d: char, body: string, rest: string)
    requires d !in body
    decreases |body|
    ensures CodeChars(body + [d] + rest, InString(d)) == CodeChars(rest, Unquoted)
  {
    if body == [] {
      assert ([d] + rest)[1..] == rest;
    } else {
      assert (body + [d] + rest)[1..] == body[1..] + [d] + rest;
      StringSkipped(d, body[1..], rest);
    }
  }

  /** A quoted string contributes nothing to the code of a line. */
  lemma QuotedStringIgnored(d: char, body: string, rest: string)
    requires IsQuote(d) && d !in body
    ensures CodeChars([d] + body + [d] + rest, Unquoted) == CodeChars(rest, Unquoted)
  {
    assert ([d] + body + [d] + rest)[1..] == body + [d] + rest;
    StringSkipped(d, body, rest);
  }

  /** An unquoted '#' ends the code of a line. */
  lemma CommentIgnored(code: string, comment: string)
    requires forall i | 0 <= i < |code| :: !IsQuote(code[i]) && code[i] != '#'
    ensures CodeChars(code + "#" + comment, Unquoted) == code
  {
    CommentAfterPlain(code, comment);
  }

  lemma {:induction false} CommentAfterPlain(code: string, comment: string)
    requires forall i | 0 <= i < |code| :: !IsQuote(code[i]) && code[i] != '#'
    decreases |code|
    ensures CodeChars(code + "#" + comment, Unquoted) == code
  {
    if code != [] {
      assert (code + "#" + comment)[1..] == code[1..] + "#" + comment;
      CommentAfterPlain(code[1..], comment);
      assert code == [code[0]] + code[1..];
    }
  }

  // ---------------------------------------------------------------------------
  // Bracket stack
  // ---------------------------------------------------------------------------

  predicate IsOpener(c: char) {
    c == '(' || c == '[' || c == '{'
  }

  predicate IsCloser(c: char) {
    c == ')' || c == ']' || c == '}'
  }

  function CloserOf(o: char): char {
    if o == '(' then ')' else if o == '[' then ']' else '}'
  }

  function OpenerOf(c: char): char {
    if c == ')' then '(' else if c == ']' then '[' else '{'
  }

  /** An opening bracket still waiting for its partner, and where it was. */
  datatype Open = Open(ch: char, line: nat)

  datatype Scan = Scan(stack: seq<Open>, errors: seq<Diagnostic>)

  function UnmatchedClose(file: string, lineNo: nat, c: char): Diagnostic {
    Diagnostic(Validation, file, lineNo, "Unmatched closing '" + [c] + "'", "Check for missing opening bracket/paren.")
  }

  function Mismatched(file: string, lineNo: nat, top: Open, c: char): Diagnostic {
    Diagnostic(Validation, file, lineNo,
      "Mismatched bracket: expected '" + [CloserOf(top.ch)] + "' but got '" + [c] + "'",
      "Opening '" + [top.ch] + "' was at line " + NatToString(top.line) + ".")
  }

  function Unclosed(file: string, o: Open): Diagnostic {
    Diagnostic(Validation, file, o.line, "Unclosed '" + [o.ch] + "'", "Add the matching closing bracket/paren.")
  }

  /** One code character: an opener is pushed; a closer with nothing open is
      reported; a closer of the wrong kind is reported and still pops. */
  function Step(file: string, lineNo: nat, st: Scan, c: char): Scan {
    if IsOpener(c) then Scan(st.stack + [Open(c, lineNo)], st.errors)
    else if !IsCloser(c) then st
    else if st.stack == [] then Scan(st.stack, st.errors + [UnmatchedClose(file, lineNo, c)])
    else
      var top := st.stack[|st.stack| - 1];
      var popped := st.stack[..|st.stack| - 1];
      if top.ch != OpenerOf(c) then Scan(popped, st.errors + [Mismatched(file, lineNo, top, c)])
      else Scan(popped, st.errors)
  }

  /** The scan of the code characters of one line; reports are only added. */
  function ScanChars(file: string, lineNo: nat, st: Scan, cs: string): (r: Scan)
    decreases |cs|
    ensures |r.errors| >= |st.errors| && r.errors[..|st.errors|] == st.errors
  {
    if cs == [] then st
    else
      var next := Step(file, lineNo, st, cs[0]);
      var r := ScanChars(file, lineNo, next, cs[1..]);
      assert r.errors[..|st.errors|] == r.errors[..|next.errors|][..|st.errors|];
      r
  }

  /** The scan of consecutive lines numbered from `first`. */
  function ScanLines(file: string, st: Scan, lines: seq<string>, first: nat): (r: Scan)
    decreases |lines|
    ensures |r.errors| >= |st.errors| && r.errors[..|st.errors|] == st.errors
  {
    if lines == [] then st
    else
      var next := ScanChars(file, first, st, CodeChars(lines[0], Unquoted));
      var r := ScanLines(file, next, lines[1..], first + 1);
      assert r.errors[..|st.errors|] == r.errors[..|next.errors|][..|st.errors|];
      r
  }

  function UnclosedAll(file: string, stack: seq<Open>): (r: seq<Diagnostic>)
    ensures |r| == |stack| && forall i | 0 <= i < |stack| :: r[i] == Unclosed(file, stack[i])
  {
    seq(|stack|, i requires 0 <= i < |stack| => Unclosed(file, stack[i]))
  }

  /** Every report and open bracket is a validation record of `file` on a
      line in 1..hi. */
  predicate Tagged(file: string, hi: nat, st: Scan) {
    (forall i | 0 <= i < |st.stack| :: 1 <= st.stack[i].line <= hi)
    && forall i | 0 <= i < |st.errors| ::
         st.errors[i].category == Validation && st.errors[i].file == file && 1 <= st.errors[i].line <= hi
  }

  lemma {:induction false} ScanCharsTagged(file: string, lineNo: nat, st: Scan, cs: string, hi: nat)
    requires Tagged(file, hi, st) && 1 <= lineNo <= hi
    decreases |cs|
    ensures Tagged(file, hi, ScanChars(file, lineNo, st, cs))
  {
    if cs != [] {
      var next := Step(file, lineNo, st, cs[0]);
      assert Tagged(file, hi, next);
      ScanCharsTagged(file, lineNo, next, cs[1..], hi);
    }
  }

  lemma {:induction false} ScanLinesTagged(file: string, st: Scan, lines: seq<string>, first: nat)
    requires first >= 1 && Tagged(file, first - 1, st)
    decreases |lines|
    ensures Tagged(file, first - 1 + |lines|, ScanLines(file, st, lines, first))
  {
    if lines != [] {
      var next := ScanChars(file, first, st, CodeChars(lines[0], Unquoted));
      TaggedWiden(file, first - 1, first, st);
      ScanCharsTagged(file, first, st, CodeChars(lines[0], Unquoted), first);
      ScanLinesTagged(file, next, lines[1..], first + 1);
      assert first + 1 - 1 + |lines[1..]| == first - 1 + |lines|;
      assert ScanLines(file, st, lines, first) == ScanLines(file, next, lines[1..], first + 1);
    }
  }

  lemma TaggedWiden(file: string, lo: nat, hi: nat, st: Scan)
    requires lo <= hi && Tagged(file, lo, st)
    ensures Tagged(file, hi, st)
  {
  }

  /** The bracket reports of a file: those found while scanning, in order,
      then one per bracket left open, innermost last. */
  function BracketErrors(file: string, lines: seq<string>): (r: seq<Diagnostic>)
    ensures forall i | 0 <= i < |r| ::
      r[i].category == Validation && r[i].file == file && 1 <= r[i].line <= |lines|
  {
    var st := ScanLines(file, Scan([], []), lines, 1);
    ScanLinesTagged(file, Scan([], []), lines, 1);
    st.errors + UnclosedAll(file, st.stack)
  }

  // ---------------------------------------------------------------------------
  // Bracket balance, stated without the scanner
  // ---------------------------------------------------------------------------

  /** Well-nested bracket text: empty, a non-bracket followed by well-nested
      text, or an opener whose partner closes a well-nested run and is
      followed by well-nested text. */
  ghost predicate WellNested(s: string)
    decreases |s|
  {
    if s == [] then true
    else if IsOpener(s[0]) then
      exists k | 1 <= k < |s| :: s[k] == CloserOf(s[0]) && WellNested(s[1..k]) && WellNested(s[k + 1..])
    else !IsCloser(s[0]) && WellNested(s[1..])
  }

  /** The bracket scan with positions forgotten: the open brackets, or None
      at the first closer that does not close the innermost one. */
  function Run(stk: seq<char>, cs: string): Option<seq<char>>
    decreases |cs|
  {
    if cs == [] then Some(stk)
    else if IsOpener(cs[0]) then Run(stk + [cs[0]], cs[1..])
    else if !IsCloser(cs[0]) then Run(stk, cs[1..])
    else if stk != [] && stk[|stk| - 1] == OpenerOf(cs[0]) then Run(stk[..|stk| - 1], cs[1..])
    else None
  }

  lemma {:induction false} RunAppend(stk: seq<char>, a: string, b: string)
    decreases |a|
    ensures Run(stk, a + b) == match Run(stk, a) case None => None case Some(t) => Run(t, b)
  {
    if a != [] {
      assert (a + b)[0] == a[0] && (a + b)[1..] == a[1..] + b;
      var c := a[0];
      if IsOpener(c) {
        RunAppend(stk + [c], a[1..], b);
      } else if !IsCloser(c) {
        RunAppend(stk, a[1..], b);
      } else if stk != [] && stk[|stk| - 1] == OpenerOf(c) {
        RunAppend(stk[..|stk| - 1], a[1..], b);
      }
    } else {
      assert a + b == b;
    }
  }

  /** Well-nested text leaves any stack as it found it. */
  lemma {:induction false} WellNestedRuns(stk: seq<char>, s: string)
    requires WellNested(s)
    decreases |s|
    ensures Run(stk, s) == Some(stk)
  {
    if s != [] {
      var o := s[0];
      if IsOpener(o) {
        var k :| 1 <= k < |s| && s[k] == CloserOf(o) && WellNested(s[1..k]) && WellNested(s[k + 1..]);
        WellNestedRuns(stk + [o], s[1..k]);
        WellNestedRuns(stk, s[k + 1..]);
        RunGroup(stk, s, k);
      } else {
        WellNestedRuns(stk, s[1..]);
      }
    }
  }

  /** A bracket group whose inside leaves the stack alone is skipped whole. */
  lemma RunGroup(stk: seq<char>, s: string, k: nat)
    requires 1 <= k < |s| && IsOpener(s[0]) && s[k] == CloserOf(s[0])
    requires Run(stk + [s[0]], s[1..k]) == Some(stk + [s[0]])
    ensures Run(stk, s) == Run(stk, s[k + 1..])
  {
    var o := s[0];
    var tail := s[k..];
    assert s[1..] == s[1..k] + tail;
    RunAppend(stk + [o], s[1..k], tail);
    assert tail[0] == CloserOf(o) && tail[1..] == s[k + 1..];
    assert (stk + [o])[..|stk|] == stk;
  }

  /** An opener, well-nested text, its closer and well-nested text. */
  lemma WellNestedGroup(s: string, k: nat)
    requires 1 <= k < |s| && IsOpener(s[0]) && s[k] == CloserOf(s[0])
    requires WellNested(s[1..k]) && WellNested(s[k + 1..])
    ensures WellNested(s)
  {
  }

  /** A character that is no bracket, then well-nested text. */
  lemma WellNestedPlain(s: string)
    requires s != [] && !IsOpener(s[0]) && !IsCloser(s[0]) && WellNested(s[1..])
    ensures WellNested(s)
  {
  }

  lemma {:induction false} WellNestedConcat(a: string, b: string)
    requires WellNested(a) && WellNested(b)
    decreases |a|
    ensures WellNested(a + b)
  {
    if a == [] {
      assert a + b == b;
    } else if IsOpener(a[0]) {
      var k :| 1 <= k < |a| && a[k] == CloserOf(a[0]) && WellNested(a[1..k]) && WellNested(a[k + 1..]);
      WellNestedConcat(a[k + 1..], b);
      ConcatGroup(a, b, k);
    } else {
      WellNestedConcat(a[1..], b);
      assert (a + b)[1..] == a[1..] + b;
      WellNestedPlain(a + b);
    }
  }

  lemma ConcatGroup(a: string, b: string, k: nat)
    requires 1 <= k < |a| && IsOpener(a[0]) && a[k] == CloserOf(a[0])
    requires WellNested(a[1..k]) && WellNested(a[k + 1..] + b)
    ensures WellNested(a + b)
  {
    var ab := a + b;
    assert ab[1..k] == a[1..k];
    assert ab[k + 1..] == a[k + 1..] + b;
    WellNestedGroup(ab, k);
  }

  /** `s` closes every bracket of `stk`, innermost first, with well-nested
      text between the closers. */
  ghost predicate Closes(stk: seq<char>, s: string)
    decreases |s|, 1
  {
    if stk == [] then WellNested(s)
    else exists k | 0 <= k < |s| :: ClosedAt(stk, s, k)
  }

  /** The innermost bracket of `stk` is closed at `k`, and the rest closes
      the others. */
  ghost predicate ClosedAt(stk: seq<char>, s: string, k: nat)
    requires stk != [] && k < |s|
    decreases |s|, 0
  {
    s[k] == CloserOf(stk[|stk| - 1]) && WellNested(s[..k]) && Closes(stk[..|stk| - 1], s[k + 1..])
  }

  /** The innermost bracket of `stk` closed at `k`. */
  lemma ClosesAt(stk: seq<char>, s: string, k: nat)
    requires stk != [] && k < |s| && s[k] == CloserOf(stk[|stk| - 1])
    requires WellNested(s[..k]) && Closes(stk[..|stk| - 1], s[k + 1..])
    ensures Closes(stk, s)
  {
    assert ClosedAt(stk, s, k);
  }

  lemma ClosesPrepend(stk: seq<char>, w: string, t: string)
    requires WellNested(w) && Closes(stk, t)
    ensures Closes(stk, w + t)
  {
    if stk == [] {
      WellNestedConcat(w, t);
    } else {
      var k :| 0 <= k < |t| && ClosedAt(stk, t, k);
      WellNestedConcat(w, t[..k]);
      PrependSlices(w, t, k);
      ClosesAt(stk, w + t, |w| + k);
    }
  }

  lemma PrependSlices(w: string, t: string, k: nat)
    requires k < |t|
    ensures (w + t)[|w| + k] == t[k] && (w + t)[..|w| + k] == w + t[..k] && (w + t)[|w| + k + 1..] == t[k + 1..]
  {
  }

  /** An opener whose scan continues to close everything: the opener's
      group is well-nested and the rest closes `stk`. */
  lemma OpenerCloses(stk: seq<char>, s: string)
    requires s != [] && IsOpener(s[0]) && Closes(stk + [s[0]], s[1..])
    ensures Closes(stk, s)
  {
    var c := s[0];
    var rest := s[1..];
    var stk' := stk + [c];
    assert stk'[..|stk'| - 1] == stk && stk'[|stk'| - 1] == c;
    var k :| 0 <= k < |rest| && ClosedAt(stk', rest, k);
    var w := s[..k + 2];
    GroupSlices(s, k);
    WellNestedGroup(w, k + 1);
    ClosesPrepend(stk, w, rest[k + 1..]);
  }

  lemma GroupSlices(s: string, k: nat)
    requires k + 1 < |s|
    ensures s[..k + 2][0] == s[0] && s[..k + 2][k + 1] == s[1..][k] && s[..k + 2][1..k + 1] == s[1..][..k]
    ensures s[..k + 2][k + 2..] == [] && s == s[..k + 2] + s[1..][k + 1..]
  {
  }

  lemma {:induction false} RunCloses(stk: seq<char>, s: string)
    requires Run(stk, s) == Some([])
    decreases |s|
    ensures Closes(stk, s)
  {
    if s == [] {
      assert WellNested(s);
    } else {
      var c := s[0];
      if IsOpener(c) {
        RunCloses(stk + [c], s[1..]);
        OpenerCloses(stk, s);
      } else if !IsCloser(c) {
        RunCloses(stk, s[1..]);
        assert WellNested([c]) by {
          assert [c][1..] == [];
        }
        assert s == [c] + s[1..];
        ClosesPrepend(stk, [c], s[1..]);
      } else {
        assert stk != [] && stk[|stk| - 1] == OpenerOf(c);
        RunCloses(stk[..|stk| - 1], s[1..]);
        assert s[..0] == [] && s[0 + 1..] == s[1..];
        ClosesAt(stk, s, 0);
      }
    }
  }

  /** The scan with positions forgotten accepts exactly the well-nested texts. */
  lemma RunIffWellNested(s: string)
    ensures Run([], s) == Some([]) <==> WellNested(s)
  {
    if Run([], s) == Some([]) {
      RunCloses([], s);
    }
    if WellNested(s) {
      WellNestedRuns([], s);
    }
  }

  function Chars(stack: seq<Open>): (r: seq<char>)
    ensures |r| == |stack| && forall i | 0 <= i < |stack| :: r[i] == stack[i].ch
  {
    seq(|stack|, i requires 0 <= i < |stack| => stack[i].ch)
  }

  /** The positioned scan reports nothing exactly while the forgetful one
      succeeds, and then both hold the same brackets. */
  lemma {:induction false} ScanCharsAgrees(file: string, lineNo: nat, st: Scan, cs: string)
    decreases |cs|
    ensures var r := ScanChars(file, lineNo, st, cs);
      match Run(Chars(st.stack), cs)
      case Some(t) => r.errors == st.errors && Chars(r.stack) == t
      case None => |r.errors| > |st.errors|
  {
    if cs != [] {
      var c := cs[0];
      var next := Step(file, lineNo, st, c);
      ScanCharsAgrees(file, lineNo, next, cs[1..]);
      var stk := Chars(st.stack);
      if IsOpener(c) {
        assert Chars(next.stack) == stk + [c];
      } else if IsCloser(c) && st.stack != [] {
        assert Chars(next.stack) == stk[..|stk| - 1];
      }
    }
  }

  /** All the code of a file, line after line. */
  function Code(lines: seq<string>): string
    decreases |lines|
  {
    if lines == [] then "" else CodeChars(lines[0], Unquoted) + Code(lines[1..])
  }

  lemma {:induction false} ScanLinesAgrees(file: string, st: Scan, lines: seq<string>, first: nat)
    decreases |lines|
    ensures var r := ScanLines(file, st, lines, first);
      match Run(Chars(st.stack), Code(lines))
      case Some(t) => r.errors == st.errors && Chars(r.stack) == t
      case None => |r.errors| > |st.errors|
  {
    if lines != [] {
      var cs := CodeChars(lines[0], Unquoted);
      var next := ScanChars(file, first, st, cs);
      RunAppend(Chars(st.stack), cs, Code(lines[1..]));
      ScanCharsAgrees(file, first, st, cs);
      ScanLinesAgrees(file, next, lines[1..], first + 1);
    }
  }

  /** A file draws no bracket report exactly when its code is well nested. */
  lemma BracketErrorsIffWellNested(file: string, lines: seq<string>)
    ensures BracketErrors(file, lines) == [] <==> WellNested(Code(lines))
  {
    ScanLinesAgrees(file, Scan([], []), lines, 1);
    RunIffWellNested(Code(lines));
    assert Chars([]) == [];
  }

  lemma {:induction false} ScanCharsAppend(file: string, lineNo: nat, st: Scan, a: string, b: string)
    decreases |a|
    ensures ScanChars(file, lineNo, st, a + b) == ScanChars(file, lineNo, ScanChars(file, lineNo, st, a), b)
  {
    if a == [] {
      assert a + b == b;
    } else {
      assert (a + b)[0] == a[0] && (a + b)[1..] == a[1..] + b;
      ScanCharsAppend(file, lineNo, Step(file, lineNo, st, a[0]), a[1..], b);
    }
  }

  lemma {:induction false} NoBracketsNoChange(file: string, lineNo: nat, st: Scan, cs: string)
    requires forall i | 0 <= i < |cs| :: !IsOpener(cs[i]) && !IsCloser(cs[i])
    decreases |cs|
    ensures ScanChars(file, lineNo, st, cs) == st
  {
    if cs != [] {
      NoBracketsNoChange(file, lineNo, st, cs[1..]);
    }
  }

  lemma ScanParenPair(file: string, lineNo: nat, st: Scan)
    ensures ScanChars(file, lineNo, st, "()") == st
  {
    assert "()"[1..] == ")" && ")"[1..] == [];
  }

  lemma ScanOneOpener(file: string, lineNo: nat, st: Scan)
    ensures ScanChars(file, lineNo, st, "(") == Scan(st.stack + [Open('(', lineNo)], st.errors)
  {
    assert "("[1..] == [];
  }

  /** The first line of the scenario below opens and closes a parenthesis. */
  lemma ScenarioLineOne(file: string, l: string)
    requires l == "func f():"
    ensures CodeChars(l, Unquoted) == l && ScanChars(file, 1, Scan([], []), l) == Scan([], [])
  {
    PlainLineIsCode(l);
    var a, c := "func f", ":";
    assert l == a + "()" + c;
    ScanClosesPair(file, 1, a, c, Scan([], []));
  }

  /** Text without brackets around an empty pair of parentheses changes nothing. */
  lemma ScanClosesPair(file: string, lineNo: nat, a: string, c: string, st: Scan)
    requires forall i | 0 <= i < |a| :: !IsOpener(a[i]) && !IsCloser(a[i])
    requires forall i | 0 <= i < |c| :: !IsOpener(c[i]) && !IsCloser(c[i])
    ensures ScanChars(file, lineNo, st, a + "()" + c) == st
  {
    ScanCharsAppend(file, lineNo, st, a + "()", c);
    ScanCharsAppend(file, lineNo, st, a, "()");
    NoBracketsNoChange(file, lineNo, st, a);
    ScanParenPair(file, lineNo, st);
    NoBracketsNoChange(file, lineNo, st, c);
  }

  /** The second line of the scenario below leaves one parenthesis open. */
  lemma ScenarioLineTwo(file: string, l: string)
    requires l == "  if (a == b:"
    ensures CodeChars(l, Unquoted) == l && ScanChars(file, 2, Scan([], []), l) == Scan([Open('(', 2)], [])
  {
    PlainLineIsCode(l);
    var a, b, c := "  if ", "(", "a == b:";
    assert l == a + b + c;
    ScanOpensOne(file, 2, a, c, Scan([], []));
  }

  /** Text without brackets around one opener pushes just that opener. */
  lemma ScanOpensOne(file: string, lineNo: nat, a: string, c: string, st: Scan)
    requires forall i | 0 <= i < |a| :: !IsOpener(a[i]) && !IsCloser(a[i])
    requires forall i | 0 <= i < |c| :: !IsOpener(c[i]) && !IsCloser(c[i])
    ensures ScanChars(file, lineNo, st, a + "(" + c) == Scan(st.stack + [Open('(', lineNo)], st.errors)
  {
    var s1 := Scan(st.stack + [Open('(', lineNo)], st.errors);
    ScanCharsAppend(file, lineNo, st, a + "(", c);
    ScanCharsAppend(file, lineNo, st, a, "(");
    NoBracketsNoChange(file, lineNo, st, a);
    ScanOneOpener(file, lineNo, st);
    NoBracketsNoChange(file, lineNo, s1, c);
  }

  /** The third line of the scenario below has no brackets. */
  lemma ScenarioLineThree(file: string, l: string, st: Scan)
    requires l == "    pass"
    ensures CodeChars(l, Unquoted) == l && ScanChars(file, 3, st, l) == st
  {
    PlainLineIsCode(l);
    NoBracketsNoChange(file, 3, st, l);
  }

  /** The three lines of the scenario below scan to one open parenthesis. */
  lemma ScenarioScan(file: string, l1: string, l2: string, l3: string)
    requires l1 == "func f():" && l2 == "  if (a == b:" && l3 == "    pass"
    ensures ScanLines(file, Scan([], []), [l1, l2, l3], 1) == Scan([Open('(', 2)], [])
  {
    var lines := [l1, l2, l3];
    var s0 := Scan([], []);
    var s1 := Scan([Open('(', 2)], []);
    ScenarioLineOne(file, l1);
    ScenarioLineTwo(file, l2);
    ScenarioLineThree(file, l3, s1);
    var t2, t3 := lines[1..], lines[1..][1..];
    assert t2 == [l2, l3] && t3 == [l3] && t3[1..] == [];
    calc {
      ScanLines(file, s0, lines, 1);
      ScanLines(file, ScanChars(file, 1, s0, l1), t2, 2);
      ScanLines(file, s0, t2, 2);
      ScanLines(file, ScanChars(file, 2, s0, l2), t3, 3);
      ScanLines(file, s1, t3, 3);
      ScanLines(file, ScanChars(file, 3, s1, l3), [], 4);
      s1;
    }
  }

  /** A parenthesis left open on line 2 is reported once, against line 2. */
  lemma UnclosedParenScenario(file: string, lines: seq<string>)
    requires lines == ["func f():", "  if (a == b:", "    pass"]
    ensures BracketErrors(file, lines)
         == [Diagnostic(Validation, file, 2, "Unclosed '('", "Add the matching closing bracket/paren.")]
  {
    ScenarioScan(file, lines[0], lines[1], lines[2]);
    assert lines == [lines[0], lines[1], lines[2]];
    assert "Unclosed '" + ['('] + "'" == "Unclosed '('";
    var u := UnclosedAll(file, [Open('(', 2)]);
    assert u[0] == Unclosed(file, Open('(', 2));
  }

  // ---------------------------------------------------------------------------
  // preload() references
  // ---------------------------------------------------------------------------

  /** A matched reference and the index the match ends at. */
  datatype Hit = Hit(ref: string, end: nat)

  /** A `res://` reference: the prefix, then at least one more character,
      none of them a double quote. */
  predicate IsResRef(ref: string) {
    StartsWith(ref, "res://") && |ref| > 6 && '"' !in ref
  }

  lemma QuotedIsResRef(line: string, j: nat, e: nat)
    requires OccursAt(line, "\"res://", j) && j + 7 < e <= |line|
    requires forall k | j + 7 <= k < e :: line[k] != '"'
    ensures IsResRef(line[j + 1..e])
  {
    var ref := line[j + 1..e];
    var pre := line[j..j + 7];
    assert pre == "\"res://";
    forall k | 0 <= k < 6 ensures ref[k] == "res://"[k] {
      assert ref[k] == line[j + 1 + k] == pre[k + 1];
    }
    assert ref[..6] == "res://";
    forall k | 0 <= k < |ref| ensures ref[k] != '"' {
      assert ref[k] == line[j + 1 + k];
      if k < 6 {
        assert line[j + 1 + k] == pre[k + 1];
      }
    }
  }

  /** The quoted reference `"res://…"` opening at `j`; `end` is the index of
      its closing quote. The run `[^"]+` is greedy and stops only at a quote,
      so there is at most one way to match. */
  function QuotedRefAt(line: string, j: nat): (r: Option<Hit>)
    requires j <= |line|
    ensures r.Some? ==>
      IsResRef(r.value.ref) && j + 7 < r.value.end < |line| && line[r.value.end] == '"' && r.value.ref == line[j + 1..r.value.end]
  {
    if !OccursAt(line, "\"res://", j) then None
    else
      var e := RunUntil(line, j + 7, '"', '"');
      if e == j + 7 || e == |line| then None
      else
        RunUntilSpec(line, j + 7, '"', '"');
        QuotedIsResRef(line, j, e);
        Some(Hit(line[j + 1..e], e))
  }

  /** A quoted reference is read back exactly. */
  lemma QuotedRefRoundTrip(line: string, j: nat, ref: string)
    requires IsResRef(ref) && j + |ref| + 2 <= |line|
    requires line[j] == '"' && line[j + 1..j + 1 + |ref|] == ref && line[j + 1 + |ref|] == '"'
    ensures QuotedRefAt(line, j) == Some(Hit(ref, j + 1 + |ref|))
  {
    var n := |ref|;
    assert forall k | j + 1 <= k < j + 1 + n :: line[k] == ref[k - j - 1];
    assert line[j..j + 7] == "\"" + ref[..6];
    assert forall k | j + 7 <= k < j + 1 + n :: line[k] != '"';
    RunUntilStops(line, j + 7, j + 1 + n, '"');
  }

  /** The pattern `preload(` ws* `"res://…"` ws* `)` anchored at `i`. Every
      greedy run is followed by a character outside its class, so the match
      is the only one possible at `i`. */
  function PreloadAt(line: string, i: nat): (r: Option<Hit>)
    requires i <= |line|
    ensures r.Some? ==> i < r.value.end <= |line| && IsResRef(r.value.ref)
  {
    if !OccursAt(line, "preload(", i) then None
    else
      var j := SkipSpace(line, i + 8);
      match QuotedRefAt(line, j)
      case None => None
      case Some(q) =>
        var f := SkipSpace(line, q.end + 1);
        if f == |line| || line[f] != ')' then None
        else Some(Hit(q.ref, f + 1))
  }

  /** `re.finditer` of the preload pattern from index `pos`. */
  function PreloadRefsFrom(line: string, pos: nat): (r: seq<string>)
    requires pos <= |line|
    decreases |line| - pos
    ensures forall k | 0 <= k < |r| :: IsResRef(r[k])
  {
    if pos == |line| then []
    else match PreloadAt(line, pos)
      case Some(h) => [h.ref] + PreloadRefsFrom(line, h.end)
      case None => PreloadRefsFrom(line, pos + 1)
  }

  function PreloadRefs(line: string): seq<string> {
    PreloadRefsFrom(line, 0)
  }

  /** The canonical preload expression is recognised, reference intact. */
  lemma PreloadRoundTrip(ref: string)
    requires IsResRef(ref)
    ensures PreloadRefs("preload(\"" + ref + "\")") == [ref]
  {
    var line := "preload(\"" + ref + "\")";
    var n := |ref|;
    assert |line| == 11 + n;
    assert line[0..8] == "preload(";
    assert OccursAt(line, "preload(", 0);
    assert line[8] == '"';
    assert SkipSpace(line, 8) == 8;
    assert line[9..9 + n] == ref;
    QuotedRefRoundTrip(line, 8, ref);
    assert line[10 + n] == ')';
    assert SkipSpace(line, 10 + n) == 10 + n;
    assert PreloadAt(line, 0) == Some(Hit(ref, 11 + n));
    assert PreloadRefsFrom(line, 11 + n) == [];
    assert PreloadRefsFrom(line, 0) == [ref] + PreloadRefsFrom(line, 11 + n);
  }

  /** Where `res://…` lands: below the game root, with the prefix dropped. */
  function ResPath(root: Path, ref: string): Path {
    Resolve(root, RemovePrefix(ref, "res://"))
  }

  function PreloadMissing(file: string, lineNo: nat, ref: string): Diagnostic {
    Diagnostic(MissingResource, file, lineNo, "preload path not found: " + ref, "Ensure the referenced file exists before preloading.")
  }

  /** The references among `refs` whose target does not exist, in order. */
  function MissingRefs(root: Path, disk: Disk, refs: seq<string>): (r: seq<string>)
    ensures forall ref | ref in r :: ref in refs && !Exists(disk, ResPath(root, ref))
    ensures forall ref | ref in refs && !Exists(disk, ResPath(root, ref)) :: ref in r
  {
    if refs == [] then []
    else
      var rest := MissingRefs(root, disk, refs[1..]);
      if Exists(disk, ResPath(root, refs[0])) then rest else [refs[0]] + rest
  }

  /** A reference of the list is kept exactly when its target is absent. */
  lemma MissingRefsExactly(root: Path, disk: Disk, refs: seq<string>, ref: string)
    requires ref in refs
    ensures ref in MissingRefs(root, disk, refs) <==> !Exists(disk, ResPath(root, ref))
  {
  }

  /** The preload reports of consecutive lines numbered from `first`: one
      per reference whose target does not exist. */
  function PreloadErrors(file: string, root: Path, disk: Disk, lines: seq<string>, first: nat): (r: seq<Diagnostic>)
    decreases |lines|
    ensures forall d | d in r :: d.category == MissingResource && d.file == file && first <= d.line < first + |lines|
  {
    if lines == [] then []
    else
      PreloadReports(file, first, MissingRefs(root, disk, PreloadRefs(lines[0])))
      + PreloadErrors(file, root, disk, lines[1..], first + 1)
  }

  /** One report per missing reference of a line, in order. */
  function PreloadReports(file: string, lineNo: nat, missing: seq<string>): seq<Diagnostic> {
    seq(|missing|, k requires 0 <= k < |missing| => PreloadMissing(file, lineNo, missing[k]))
  }

  /** The reports of a line name exactly its missing references. */
  lemma PreloadReportsExactly(file: string, lineNo: nat, missing: seq<string>, ref: string)
    ensures PreloadMissing(file, lineNo, ref) in PreloadReports(file, lineNo, missing) <==> ref in missing
  {
    var here := PreloadReports(file, lineNo, missing);
    if ref in missing {
      var k :| 0 <= k < |missing| && missing[k] == ref;
      assert here[k] == PreloadMissing(file, lineNo, ref);
    }
    if PreloadMissing(file, lineNo, ref) in here {
      var k :| 0 <= k < |here| && here[k] == PreloadMissing(file, lineNo, ref);
      assert missing[k] == ("preload path not found: " + missing[k])[24..];
      assert missing[k] == ref;
    }
  }

  /** A line's preload reports name exactly its missing targets. */
  lemma PreloadReportsLine(file: string, root: Path, disk: Disk, line: string, rest: seq<string>, first: nat, ref: string)
    requires ref in PreloadRefs(line)
    ensures PreloadMissing(file, first, ref) in PreloadErrors(file, root, disk, [line] + rest, first)
        <==> !Exists(disk, ResPath(root, ref))
  {
    var lines := [line] + rest;
    assert lines[0] == line && lines[1..] == rest;
    var missing := MissingRefs(root, disk, PreloadRefs(line));
    var here := PreloadReports(file, first, missing);
    var later := PreloadErrors(file, root, disk, rest, first + 1);
    assert PreloadErrors(file, root, disk, lines, first) == here + later;
    assert PreloadMissing(file, first, ref) !in later;
    PreloadReportsExactly(file, first, missing, ref);
  }

  /** A report numbered past the first line comes from the lines after it. */
  lemma PreloadSkipsHead(file: string, root: Path, disk: Disk, lines: seq<string>, first: nat, d: Diagnostic)
    requires lines != [] && d.line != first
    ensures d in PreloadErrors(file, root, disk, lines, first) <==> d in PreloadErrors(file, root, disk, lines[1..], first + 1)
  {
    var here := PreloadReports(file, first, MissingRefs(root, disk, PreloadRefs(lines[0])));
    assert forall k | 0 <= k < |here| :: here[k].line == first;
  }

  /** The first line of a run reports exactly its missing references. */
  lemma PreloadReportsHead(file: string, root: Path, disk: Disk, lines: seq<string>, first: nat, ref: string)
    requires lines != []
    ensures PreloadMissing(file, first, ref) in PreloadErrors(file, root, disk, lines, first)
        <==> ref in MissingRefs(root, disk, PreloadRefs(lines[0]))
  {
    var missing := MissingRefs(root, disk, PreloadRefs(lines[0]));
    assert PreloadMissing(file, first, ref) !in PreloadErrors(file, root, disk, lines[1..], first + 1);
    PreloadReportsExactly(file, first, missing, ref);
  }

  /** Line `i` of a run numbered from `first`, which is line `lineNo` of
      the file, reports exactly its missing references. */
  lemma {:induction false} PreloadReportsAt(file: string, root: Path, disk: Disk, lines: seq<string>, first: nat, i: nat, lineNo: nat, ref: string)
    requires i < |lines| && lineNo == first + i
    decreases i
    ensures PreloadMissing(file, lineNo, ref) in PreloadErrors(file, root, disk, lines, first)
        <==> ref in MissingRefs(root, disk, PreloadRefs(lines[i]))
  {
    if i == 0 {
      PreloadReportsHead(file, root, disk, lines, first, ref);
    } else {
      assert lines[1..][i - 1] == lines[i];
      PreloadReportsAt(file, root, disk, lines[1..], first + 1, i - 1, lineNo, ref);
      PreloadSkipsHead(file, root, disk, lines, first, PreloadMissing(file, lineNo, ref));
    }
  }

  /** Every line's preload reports name exactly its missing targets. */
  lemma PreloadReportsEvery(file: string, root: Path, disk: Disk, lines: seq<string>)
    ensures forall i, ref | 0 <= i < |lines| && ref in PreloadRefs(lines[i]) ::
      PreloadMissing(file, i + 1, ref) in PreloadErrors(file, root, disk, lines, 1) <==> !Exists(disk, ResPath(root, ref))
  {
    forall i, ref | 0 <= i < |lines| && ref in PreloadRefs(lines[i])
      ensures PreloadMissing(file, i + 1, ref) in PreloadErrors(file, root, disk, lines, 1) <==> !Exists(disk, ResPath(root, ref))
    {
      PreloadReportsOn(file, root, disk, lines, i, ref);
    }
  }

  /** A reference preloaded on line i is reported at line i + 1 exactly
      when its target does not exist. */
  lemma PreloadReportsOn(file: string, root: Path, disk: Disk, lines: seq<string>, i: nat, ref: string)
    requires i < |lines| && ref in PreloadRefs(lines[i])
    ensures PreloadMissing(file, i + 1, ref) in PreloadErrors(file, root, disk, lines, 1) <==> !Exists(disk, ResPath(root, ref))
  {
    PreloadReportsAt(file, root, disk, lines, 1, i, i + 1, ref);
    MissingRefsExactly(root, disk, PreloadRefs(lines[i]), ref);
  }

  /** `_find_game_root`: the nearest directory holding `project.godot`,
      looking at most ten levels up from `dir`. */
  function FindGameRoot(disk: Disk, dir: Path, fuel: nat): (r: Option<Path>)
    ensures r.Some? ==> Exists(disk, r.value + ["project.godot"])
    ensures r.Some? ==> |r.value| <= |dir| && dir[..|r.value|] == r.value
  {
    SearchUpNearest(HoldsProject(disk), dir, fuel);
    SearchUp(HoldsProject(disk), dir, fuel)
  }

  const RootSearchDepth: nat := 10

  /** The test `_find_game_root` applies to each directory on the way up. */
  function HoldsProject(disk: Disk): Path -> bool {
    d => Exists(disk, d + ["project.godot"])
  }

  /** The walk of `_find_game_root` for any test of a directory: the
      directory itself, then its parents, for at most `fuel` directories,
      stopping at the root. */
  function SearchUp(has: Path -> bool, dir: Path, fuel: nat): Option<Path>
    decreases fuel
  {
    if fuel == 0 then None
    else if has(dir) then Some(dir)
    else if dir == [] then None
    else SearchUp(has, Parent(dir), fuel - 1)
  }

  /** The walk stops at the nearest directory passing the test, within
      `fuel` levels; when it stops without one, none within `fuel` levels
      passes. */
  lemma {:induction false} SearchUpNearest(has: Path -> bool, dir: Path, fuel: nat)
    decreases fuel
    ensures var r := SearchUp(has, dir, fuel);
      r.Some? ==> (|r.value| <= |dir| && |dir| - |r.value| < fuel && has(r.value) && r.value == dir[..|r.value|] &&
        forall k | |r.value| < k <= |dir| :: !has(dir[..k]))
    ensures SearchUp(has, dir, fuel).None? ==> forall k | 0 <= k <= |dir| && |dir| - k < fuel :: !has(dir[..k])
  {
    if fuel > 0 && !has(dir) {
      if dir == [] {
        assert dir[..0] == dir;
      } else {
        var up := Parent(dir);
        SearchUpNearest(has, up, fuel - 1);
        assert |up| == |dir| - 1;
        assert dir[..|dir|] == dir;
        assert forall k | 0 <= k <= |up| :: dir[..k] == up[..k];
      }
    } else if fuel > 0 {
      assert dir[..|dir|] == dir;
    }
  }

  /** The root found is the nearest: it lies within `fuel` levels of `dir`,
      and no directory between it and `dir` holds `project.godot`. */
  lemma FindGameRootNearest(disk: Disk, dir: Path, fuel: nat)
    ensures var r := FindGameRoot(disk, dir, fuel);
      r.Some? ==> (|dir| - |r.value| < fuel &&
        forall k | |r.value| < k <= |dir| :: !Exists(disk, dir[..k] + ["project.godot"]))
  {
    SearchUpNearest(HoldsProject(disk), dir, fuel);
  }

  /** When no root is found, no directory within `fuel` levels of `dir`
      holds `project.godot`. */
  lemma FindGameRootAbsent(disk: Disk, dir: Path, fuel: nat)
    ensures FindGameRoot(disk, dir, fuel).None? ==>
      forall k | 0 <= k <= |dir| && |dir| - k < fuel :: !Exists(disk, dir[..k] + ["project.godot"])
  {
    SearchUpNearest(HoldsProject(disk), dir, fuel);
  }

  /** `pre_validate_gdscript`: an unreadable file yields one record at line 0;
      otherwise the bracket reports, then, when a game root is found, the
      preload reports. The operating system's error text is not modelled:
      the record names the path instead. */
  function PreValidate(disk: Disk, path: Path): (r: seq<Diagnostic>)
    ensures path !in disk ==> |r| == 1 && r[0].category == Validation && r[0].line == 0
    ensures path in disk ==> forall d | d in r ::
      d.file == PathString(path) && (d.category == Validation || d.category == MissingResource) && d.line >= 1
    ensures path in disk && WellNested(Code(Lines(disk[path]))) ==> forall d | d in r :: d.category == MissingResource
    ensures path in disk && FindGameRoot(disk, Parent(path), RootSearchDepth).None? ==>
      forall d | d in r :: d.category == Validation
    ensures path in disk ==>
      ((exists d | d in r :: d.category == Validation) <==> !WellNested(Code(Lines(disk[path]))))
    ensures path in disk && FindGameRoot(disk, Parent(path), RootSearchDepth).Some? ==>
      var lines, root := Lines(disk[path]), FindGameRoot(disk, Parent(path), RootSearchDepth).value;
      forall i, ref | 0 <= i < |lines| && ref in PreloadRefs(lines[i]) ::
        PreloadMissing(PathString(path), i + 1, ref) in r <==> !Exists(disk, ResPath(root, ref))
  {
    var file := PathString(path);
    if path !in disk then [Diagnostic(Validation, file, 0, "Cannot read file: " + file, "")]
    else
      var lines := Lines(disk[path]);
      var brackets := BracketErrors(file, lines);
      BracketErrorsIffWellNested(file, lines);
      assert brackets != [] ==> brackets[0] in brackets;
      match FindGameRoot(disk, Parent(path), RootSearchDepth)
      case None => brackets
      case Some(root) =>
        PreloadReportsEvery(file, root, disk, lines);
        brackets + PreloadErrors(file, root, disk, lines, 1)
  }

  // ---------------------------------------------------------------------------
  // Scene resource references
  // ---------------------------------------------------------------------------

  /** The pattern `path` ws* `=` ws* `"res://…"` anchored at `i`. */
  function ScenePathAt(line: string, i: nat): (r: Option<string>)
    requires i <= |line|
    ensures r.Some? ==> IsResRef(r.value)
  {
    if !OccursAt(line, "path", i) then None
    else
      var j := SkipSpace(line, i + 4);
      if j == |line| || line[j] != '=' then None
      else match QuotedRefAt(line, SkipSpace(line, j + 1))
        case None => None
        case Some(q) => Some(q.ref)
  }

  /** `re.search`: the leftmost match at or after `pos`. */
  function FirstScenePath(line: string, pos: nat): (r: Option<string>)
    requires pos <= |line|
    decreases |line| - pos
    ensures r.Some? ==> IsResRef(r.value)
    ensures r.None? ==> forall i | pos <= i <= |line| :: ScenePathAt(line, i).None?
  {
    if pos == |line| then ScenePathAt(line, pos)
    else if ScenePathAt(line, pos).Some? then ScenePathAt(line, pos)
    else FirstScenePath(line, pos + 1)
  }

  /** `FirstScenePath` reports the leftmost match: the pattern matches at
      some position at or after `pos` with this reference, and at no
      position before it. */
  lemma FirstScenePathLeftmost(line: string, pos: nat)
    requires pos <= |line|
    ensures FirstScenePath(line, pos).Some? ==>
      exists i | pos <= i <= |line| :: ScenePathAt(line, i) == FirstScenePath(line, pos) &&
        forall j | pos <= j < i :: ScenePathAt(line, j).None?
  {
    var i := FirstScenePathPosition(line, pos);
  }

  /** The position of the match `FirstScenePath` reports, with no match
      between `pos` and it. */
  lemma {:induction false} FirstScenePathPosition(line: string, pos: nat) returns (i: nat)
    requires pos <= |line|
    decreases |line| - pos
    ensures FirstScenePath(line, pos).Some? ==>
      pos <= i <= |line| && ScenePathAt(line, i) == FirstScenePath(line, pos) &&
        forall j | pos <= j < i :: ScenePathAt(line, j).None?
  {
    if pos < |line| && ScenePathAt(line, pos).None? {
      assert FirstScenePath(line, pos) == FirstScenePath(line, pos + 1);
      i := FirstScenePathPosition(line, pos + 1);
    } else {
      i := pos;
      assert ScenePathAt(line, pos) == FirstScenePath(line, pos);
    }
  }

  /** An `ext_resource` line is recognised, reference intact. */
  lemma ScenePathRoundTrip(ref: string, tail: string)
    requires IsResRef(ref)
    ensures FirstScenePath("path=\"" + ref + "\"" + tail, 0) == Some(ref)
  {
    var line := "path=\"" + ref + "\"" + tail;
    var n := |ref|;
    assert line[..4] == "path";
    assert line[4] == '=' && line[5] == '"';
    assert SkipSpace(line, 4) == 4;
    assert SkipSpace(line, 5) == 5;
    assert line[6..6 + n] == ref;
    assert line[6 + n] == '"';
    QuotedRefRoundTrip(line, 5, ref);
    assert ScenePathAt(line, 0) == Some(ref);
  }

  /** `p.suffix == ".tscn"`: the name ends in ".tscn" after at least one
      other character. */
  predicate IsSceneFile(p: Path) {
    EndsWith(Name(p), ".tscn") && |Name(p)| > 5
  }

  function SceneMissing(file: string, lineNo: nat, ref: string): Diagnostic {
    Diagnostic(MissingResource, file, lineNo, "ext_resource path not found: " + ref, "Ensure the referenced script/scene/resource exists.")
  }

  /** The report for one line of a scene: its first reference, when the
      target does not exist. */
  function SceneLineError(gamePath: Path, disk: Disk, file: string, lineNo: nat, line: string): (r: Option<Diagnostic>)
    ensures r.Some? <==> FirstScenePath(line, 0).Some? && !Exists(disk, ResPath(gamePath, FirstScenePath(line, 0).value))
    ensures r.Some? ==> r.value == SceneMissing(file, lineNo, FirstScenePath(line, 0).value)
  {
    match FirstScenePath(line, 0)
    case None => None
    case Some(ref) => if Exists(disk, ResPath(gamePath, ref)) then None else Some(SceneMissing(file, lineNo, ref))
  }

  function SceneLinesErrors(gamePath: Path, disk: Disk, file: string, lines: seq<string>, first: nat): (r: seq<Diagnostic>)
    decreases |lines|
    ensures |r| <= |lines|
    ensures forall d | d in r :: d.category == MissingResource && d.file == file && first <= d.line < first + |lines|
  {
    if lines == [] then []
    else
      (match SceneLineError(gamePath, disk, file, first, lines[0]) case None => [] case Some(d) => [d])
      + SceneLinesErrors(gamePath, disk, file, lines[1..], first + 1)
  }

  /** `validate_scene_refs`: written scenes that exist are read line by line;
      other written files are skipped. */
  function SceneRefErrors(gamePath: Path, disk: Disk, written: seq<Path>): (r: seq<Diagnostic>)
    decreases |written|
    ensures forall d | d in r ::
      d.category == MissingResource && exists p | p in written :: IsSceneFile(p) && p in disk && d.file == PathString(p)
  {
    if written == [] then []
    else
      var p := written[0];
      var here := if IsSceneFile(p) && p in disk then SceneLinesErrors(gamePath, disk, PathString(p), Lines(disk[p]), 1) else [];
      var rest := SceneRefErrors(gamePath, disk, written[1..]);
      assert forall q | q in written[1..] :: q in written;
      here + rest
  }

  /** The first line's report is among the run's reports. */
  lemma SceneReportsHead(gamePath: Path, disk: Disk, file: string, lines: seq<string>, first: nat, i: nat, lineNo: nat, e: Diagnostic)
    requires i == 0 && i < |lines| && lineNo == first + i
    requires SceneLineError(gamePath, disk, file, lineNo, lines[i]) == Some(e)
    ensures e in SceneLinesErrors(gamePath, disk, file, lines, first)
  {
    assert lineNo == first && lines[i] == lines[0];
  }

  /** A report of the later lines is among the run's reports. */
  lemma SceneReportsTail(gamePath: Path, disk: Disk, file: string, lines: seq<string>, first: nat, e: Diagnostic)
    requires lines != [] && e in SceneLinesErrors(gamePath, disk, file, lines[1..], first + 1)
    ensures e in SceneLinesErrors(gamePath, disk, file, lines, first)
  {
  }

  /** Line `i` of a run numbered from `first`, which is line `lineNo` of
      the file, has its report `e` in the run's reports. */
  lemma {:induction false} SceneReportsAt(gamePath: Path, disk: Disk, file: string, lines: seq<string>, first: nat, i: nat, lineNo: nat, e: Diagnostic)
    requires i < |lines| && lineNo == first + i
    requires SceneLineError(gamePath, disk, file, lineNo, lines[i]) == Some(e)
    decreases i, 1
    ensures e in SceneLinesErrors(gamePath, disk, file, lines, first)
  {
    if i == 0 {
      SceneReportsHead(gamePath, disk, file, lines, first, i, lineNo, e);
    } else {
      SceneReportsStep(gamePath, disk, file, lines, first, i, lineNo, e);
    }
  }

  /** The induction step: line `i` is line `i - 1` of the run after the
      first line. */
  lemma {:induction false} SceneReportsStep(gamePath: Path, disk: Disk, file: string, lines: seq<string>, first: nat, i: nat, lineNo: nat, e: Diagnostic)
    requires 0 < i < |lines| && lineNo == first + i
    requires SceneLineError(gamePath, disk, file, lineNo, lines[i]) == Some(e)
    decreases i, 0
    ensures e in SceneLinesErrors(gamePath, disk, file, lines, first)
  {
    assert lines[1..][i - 1] == lines[i];
    SceneReportsAt(gamePath, disk, file, lines[1..], first + 1, i - 1, lineNo, e);
    SceneReportsTail(gamePath, disk, file, lines, first, e);
  }

  /** A written scene that exists reports each line whose first reference
      has no target, at that line's number. */
  lemma {:induction false} SceneRefErrorsComplete(gamePath: Path, disk: Disk, written: seq<Path>, p: Path, i: nat)
    requires p in written && IsSceneFile(p) && p in disk && i < |Lines(disk[p])|
    requires FirstScenePath(Lines(disk[p])[i], 0).Some?
    requires !Exists(disk, ResPath(gamePath, FirstScenePath(Lines(disk[p])[i], 0).value))
    decreases |written|
    ensures SceneMissing(PathString(p), i + 1, FirstScenePath(Lines(disk[p])[i], 0).value) in SceneRefErrors(gamePath, disk, written)
  {
    var e := SceneMissing(PathString(p), i + 1, FirstScenePath(Lines(disk[p])[i], 0).value);
    var here := if IsSceneFile(written[0]) && written[0] in disk
      then SceneLinesErrors(gamePath, disk, PathString(written[0]), Lines(disk[written[0]]), 1) else [];
    var rest := SceneRefErrors(gamePath, disk, written[1..]);
    assert SceneRefErrors(gamePath, disk, written) == here + rest;
    if written[0] == p {
      SceneReportsAt(gamePath, disk, PathString(p), Lines(disk[p]), 1, i, i + 1, e);
      assert e in here;
    } else {
      assert p in written[1..];
      SceneRefErrorsComplete(gamePath, disk, written[1..], p, i);
      assert e in rest;
    }
  }

  /** A scene whose every reference exists draws no report. */
  lemma {:induction false} ResolvedScenesClean(gamePath: Path, disk: Disk, file: string, lines: seq<string>, first: nat)
    requires forall i | 0 <= i < |lines| :: FirstScenePath(lines[i], 0).Some? ==>
      Exists(disk, ResPath(gamePath, FirstScenePath(lines[i], 0).value))
    decreases |lines|
    ensures SceneLinesErrors(gamePath, disk, file, lines, first) == []
  {
    if lines != [] {
      assert forall i | 0 <= i < |lines[1..]| :: lines[1..][i] == lines[i + 1];
      ResolvedScenesClean(gamePath, disk, file, lines[1..], first + 1);
      assert FirstScenePath(lines[0], 0).Some? ==> Exists(disk, ResPath(gamePath, FirstScenePath(lines[0], 0).value));
    }
  }
}
