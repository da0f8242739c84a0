/** What a finished engine run means: the functional test with its baseline
    filter (`test_headless`), the smoke test (`run_smoke_test`) and the
    baseline probe (`capture_baseline_errors`). The process itself is not
    modelled; its outcome is an input. */
module Harness {
  import opened Opt
  import opened Text
  import opened Diagnostics
  import opened OutputParser

  /** How an engine invocation ended. `detail` is the text of the exception
      raised by the operating system. */
  datatype RunOutcome =
    | Exited(code: int, output: string)
    | TimedOut
    | NotFound(detail: string)
    | Crashed(detail: string)

  // ---------------------------------------------------------------------------
  // Baseline filter
  // ---------------------------------------------------------------------------

  /** The records whose (file, line, message) key is not in the baseline, in
      order. An empty baseline filters nothing. */
  function NewErrors(errors: seq<Diagnostic>, baseline: set<Key>): (r: seq<Diagnostic>)
    decreases |errors|
    ensures |r| <= |errors|
    ensures forall d | d in r :: d in errors && KeyOf(d) !in baseline
    ensures forall d | d in errors && KeyOf(d) !in baseline :: d in r
  {
    if errors == [] then []
    else
      var rest := NewErrors(errors[1..], baseline);
      assert forall d | d in errors[1..] :: d in errors;
      (if KeyOf(errors[0]) in baseline then [] else [errors[0]]) + rest
  }

  /** `NewErrors` is the order-preserving filter that keeps an element exactly
      when its key is not in the baseline: it distributes over concatenation, and on one element
      it keeps or drops it. Together these fix the result, duplicates and
      order included. */
  lemma {:induction false} NewErrorsFilter(a: seq<Diagnostic>, b: seq<Diagnostic>, x: Diagnostic, baseline: set<Key>)
    decreases |a|
    ensures NewErrors(a + b, baseline) == NewErrors(a, baseline) + NewErrors(b, baseline)
    ensures NewErrors([x], baseline) == if KeyOf(x) !in baseline then [x] else []
  {
    assert [x][1..] == [];
    if a == [] {
      assert a + b == b;
    } else {
      assert (a + b)[0] == a[0] && (a + b)[1..] == a[1..] + b;
      var h := if KeyOf(a[0]) in baseline then [] else [a[0]];
      assert NewErrors(a + b, baseline) == h + NewErrors(a[1..] + b, baseline);
      assert NewErrors(a, baseline) == h + NewErrors(a[1..], baseline);
      NewErrorsFilter(a[1..], b, x, baseline);
      Assoc(h, NewErrors(a[1..], baseline), NewErrors(b, baseline));
    }
  }

  /** Without a baseline every parsed record is new. */
  lemma {:induction false} EmptyBaselineKeepsAll(errors: seq<Diagnostic>)
    decreases |errors|
    ensures NewErrors(errors, {}) == errors
  {
    if errors != [] {
      EmptyBaselineKeepsAll(errors[1..]);
      assert errors == [errors[0]] + errors[1..];
    }
  }

  /** A record present before the change is never new; one that was absent
      survives. */
  lemma BaselineScenario(before: Diagnostic, introduced: Diagnostic)
    requires before == Diagnostic(MissingNode, "a.gd", 3, "missing_node:Foo", "")
    requires introduced == Diagnostic(ParseError, "b.gd", 10, "parse_error:bad syntax", "")
    ensures NewErrors([before, introduced], {KeyOf(before)}) == [introduced]
  {
    var errors := [before, introduced];
    assert errors[1..] == [introduced] && errors[1..][1..] == [];
    assert KeyOf(introduced) != KeyOf(before);
  }

  /** Lines whose upper-cased text contains "WARNING", in order. */
  function WarningLines(lines: seq<string>): (r: seq<string>)
    decreases |lines|
    ensures forall w | w in r :: w in lines && Contains(Upper(w), "WARNING")
    ensures forall w | w in lines && Contains(Upper(w), "WARNING") :: w in r
  {
    if lines == [] then []
    else
      var rest := WarningLines(lines[1..]);
      assert forall w | w in lines[1..] :: w in lines;
      (if Contains(Upper(lines[0]), "WARNING") then [lines[0]] else []) + rest
  }

  /** `WarningLines` is the order-preserving filter that keeps an element exactly
      when its upper-cased text contains "WARNING": it distributes over concatenation, and on one element
      it keeps or drops it. Together these fix the result, duplicates and
      order included. */
  lemma {:induction false} WarningLinesFilter(a: seq<string>, b: seq<string>, w: string)
    decreases |a|
    ensures WarningLines(a + b) == WarningLines(a) + WarningLines(b)
    ensures WarningLines([w]) == if Contains(Upper(w), "WARNING") then [w] else []
  {
    assert [w][1..] == [];
    if a == [] {
      assert a + b == b;
    } else {
      assert (a + b)[0] == a[0] && (a + b)[1..] == a[1..] + b;
      WarningLinesFilter(a[1..], b, w);
    }
  }

  // ---------------------------------------------------------------------------
  // Functional test
  // ---------------------------------------------------------------------------

  function TimeoutText(timeout: nat): string {
    "Godot timed out after " + NatToString(timeout) + "s (possible infinite loop or crash)"
  }

  /** `test_headless`. A crash other than a timeout or a missing executable
      propagates to the caller: None. */
  function Headless(m: Matcher, exe: string, timeout: nat, baseline: set<Key>, run: RunOutcome): (r: Option<TestResult>)
    ensures r.None? <==> run.Crashed?
    ensures r.Some? && run.Exited? ==>
      (r.value.success <==> run.code == 0 && NewErrors(ParseOutput(m, run.output), baseline) == [])
    ensures r.Some? && run.Exited? ==>
      && r.value.errors == NewErrors(ParseOutput(m, run.output), baseline)
      && r.value.warnings == WarningLines(Lines(run.output))
      && (r.value.success ==> r.value.rawOutput == run.output)
    ensures r.Some? && run.Exited? && !r.value.success ==>
      r.value.rawOutput == "Exit code " + IntToString(run.code) + "\n" + run.output
    ensures r.Some? && !run.Exited? ==> !r.value.success && r.value.errors == []
  {
    match run
    case Exited(code, output) =>
      var added := NewErrors(ParseOutput(m, output), baseline);
      var warnings := WarningLines(Lines(output));
      if code == 0 && added == [] then Some(TestResult(true, output, added, warnings))
      else Some(TestResult(false, "Exit code " + IntToString(code) + "\n" + output, added, warnings))
    case TimedOut => Some(TestResult(false, TimeoutText(timeout), [], []))
    case NotFound(_) => Some(TestResult(false, "Godot executable not found: " + exe, [], []))
    case Crashed(_) => None
  }

  // ---------------------------------------------------------------------------
  // Baseline probe
  // ---------------------------------------------------------------------------

  /** `capture_baseline_errors`: the keys of every parsed record, whatever
      the exit status; any failure gives the empty set. */
  function Baseline(m: Matcher, run: RunOutcome): (r: set<Key>)
    ensures !run.Exited? ==> r == {}
    ensures run.Exited? ==> forall d | d in ParseOutput(m, run.output) :: KeyOf(d) in r
    ensures run.Exited? ==> forall k | k in r :: exists d | d in ParseOutput(m, run.output) :: KeyOf(d) == k
  {
    match run
    case Exited(_, output) => set d | d in ParseOutput(m, output) :: KeyOf(d)
    case _ => {}
  }

  /** Re-running an unchanged project against its own baseline finds nothing
      new: the outcome then depends on the exit code alone. */
  lemma UnchangedRunHasNoNewErrors(m: Matcher, exe: string, timeout: nat, probeCode: int, code: int, output: string)
    ensures var r := Headless(m, exe, timeout, Baseline(m, Exited(probeCode, output)), Exited(code, output));
      r.Some? && r.value.errors == [] && (r.value.success <==> code == 0)
  {
    var errors := ParseOutput(m, output);
    var b := Baseline(m, Exited(probeCode, output));
    CoveredErrorsFiltered(errors, b);
  }

  /** Records whose keys are all in the baseline are all filtered out. */
  lemma {:induction false} CoveredErrorsFiltered(errors: seq<Diagnostic>, baseline: set<Key>)
    requires forall d | d in errors :: KeyOf(d) in baseline
    decreases |errors|
    ensures NewErrors(errors, baseline) == []
  {
    if errors != [] {
      assert forall d | d in errors[1..] :: d in errors;
      CoveredErrorsFiltered(errors[1..], baseline);
    }
  }

  // ---------------------------------------------------------------------------
  // Smoke test
  // ---------------------------------------------------------------------------

  const SmokeOk: string := "SMOKE_RESULT: OK"
  const SmokeFail: string := "SMOKE_FAIL:"

  /** The relative path of the injected self-check script. */
  const SmokeScript: seq<string> := ["scripts", "_smoke_test.gd"]

  function SmokeRecord(line: string): Diagnostic {
    Diagnostic(SmokeTest, "smoke_test", 0, Strip(RemovePrefix(line, SmokeFail)), "")
  }

  /** The lines that start with the failure marker, in order. */
  function FailLines(lines: seq<string>): (r: seq<string>)
    decreases |lines|
    ensures |r| <= |lines|
    ensures forall l | l in r :: l in lines && StartsWith(l, SmokeFail)
    ensures forall l | l in lines && StartsWith(l, SmokeFail) :: l in r
  {
    if lines == [] then []
    else
      var rest := FailLines(lines[1..]);
      assert forall l | l in lines[1..] :: l in lines;
      (if StartsWith(lines[0], SmokeFail) then [lines[0]] else []) + rest
  }

  /** `FailLines` is the order-preserving filter that keeps an element exactly
      when it starts with the failure marker: it distributes over concatenation, and on one element
      it keeps or drops it. Together these fix the result, duplicates and
      order included. */
  lemma {:induction false} FailLinesFilter(a: seq<string>, b: seq<string>, l: string)
    decreases |a|
    ensures FailLines(a + b) == FailLines(a) + FailLines(b)
    ensures FailLines([l]) == if StartsWith(l, SmokeFail) then [l] else []
  {
    assert [l][1..] == [];
    if a == [] {
      assert a + b == b;
    } else {
      assert (a + b)[0] == a[0] && (a + b)[1..] == a[1..] + b;
      FailLinesFilter(a[1..], b, l);
    }
  }

  /** One record per failure line, in order. */
  function SmokeRecords(lines: seq<string>): (r: seq<Diagnostic>)
    ensures |r| == |FailLines(lines)| <= |lines|
    ensures forall i | 0 <= i < |r| :: r[i] == SmokeRecord(FailLines(lines)[i])
    ensures forall d | d in r :: d.category == SmokeTest && d.file == "smoke_test" && d.line == 0
  {
    var fails := FailLines(lines);
    seq(|fails|, i requires 0 <= i < |fails| => SmokeRecord(fails[i]))
  }

  /** `run_smoke_test`: success is the sentinel alone; the exit status is
      not consulted. Any failure to run yields its text and no records. */
  function Smoke(timeout: nat, run: RunOutcome): (r: TestResult)
    ensures r.success <==> run.Exited? && Contains(run.output, SmokeOk)
    ensures run.Exited? ==> r.rawOutput == run.output && r.errors == SmokeRecords(Lines(run.output))
    ensures !run.Exited? ==> r.errors == []
    ensures r.warnings == []
  {
    match run
    case Exited(_, output) => TestResult(Contains(output, SmokeOk), output, SmokeRecords(Lines(output)), [])
    case TimedOut => TestResult(false, "Smoke test timed out after " + NatToString(timeout) + "s", [], [])
    case NotFound(detail) => TestResult(false, detail, [], [])
    case Crashed(detail) => TestResult(false, detail, [], [])
  }

  /** A reported smoke failure carries the text after the marker. */
  lemma SmokeFailureMessage(message: string)
    requires message == Strip(message)
    ensures SmokeRecord(SmokeFail + " " + message).message == message
  {
    var line := SmokeFail + " " + message;
    assert StartsWith(line, SmokeFail);
    assert RemovePrefix(line, SmokeFail) == " " + message;
    StripLeadingSpace(message);
  }
}
