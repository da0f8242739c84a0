/** The complexity budget a proposed change must meet before anything is
    written (`check_complexity_budget`): at most so many files, at most so
    many lines in total, and not too large a share of newly created files. */
module Governor {
  import opened Text
  import opened Response

  /** A positive whole number, for denominators. */
  type Pos = n: nat | n > 0 witness 1

  /** The configured limits. The largest allowed share of new files is the
      fraction `ratioNum / ratioDen`. */
  datatype Limits = Limits(maxFiles: nat, maxLines: nat, ratioNum: nat, ratioDen: Pos)

  /** The limits used when the configuration gives none: 3 files, 400 lines
      and a new-file share of 0.75. */
  const Defaults: Limits := Limits(3, 400, 3, 4)

  /** Whether the change is within budget, and why not. */
  datatype Verdict = Verdict(ok: bool, reason: string)

  /** A file counts one line more than it has newline characters. */
  function FileLines(e: FileEdit): (n: nat)
    ensures n >= 1
  {
    CountChar(e.content, '\n') + 1
  }

  function TotalLines(files: seq<FileEdit>): nat
    decreases |files|
  {
    if files == [] then 0 else FileLines(files[0]) + TotalLines(files[1..])
  }

  /** The number of files whose mode is "create". */
  function Creates(files: seq<FileEdit>): (n: nat)
    decreases |files|
    ensures n <= |files|
  {
    if files == [] then 0 else (if files[0].mode == "create" then 1 else 0) + Creates(files[1..])
  }

  /** `n / d` as a whole percentage, rounded half to even, the way a `.0%`
      format renders a ratio: within half a percent of the exact value. */
  function Percent(n: nat, d: Pos): (p: nat)
    ensures -(d as int) <= 2 * (p * d - 100 * n) <= d
  {
    var q := (100 * n) / d;
    var rem := (100 * n) % d;
    assert 100 * n == q * d + rem;
    assert (q + 1) * d == q * d + d;
    if 2 * rem > d then q + 1
    else if 2 * rem < d then q
    else if q % 2 == 0 then q
    else q + 1
  }

  /** The share of new files exceeds the limit; it is only judged when more
      than one file is touched. */
  predicate RatioExceeded(files: seq<FileEdit>, lim: Limits) {
    |files| > 1 && Creates(files) * lim.ratioDen > lim.ratioNum * |files|
  }

  function Contents(files: seq<FileEdit>): seq<string> {
    seq(|files|, i requires 0 <= i < |files| => files[i].content)
  }

  function Modes(files: seq<FileEdit>): seq<string> {
    seq(|files|, i requires 0 <= i < |files| => files[i].mode)
  }

  /** The budget stated over the whole bundle: few enough files; few enough
      lines, counting the newlines of all the contents together plus one per
      file; and, when several files are touched, a share of "create" modes
      no larger than the limit. */
  predicate WithinBudget(files: seq<FileEdit>, lim: Limits) {
    && |files| <= lim.maxFiles
    && multiset(Concat(Contents(files)))['\n'] + |files| <= lim.maxLines
    && (|files| > 1 ==> multiset(Modes(files))["create"] * lim.ratioDen <= lim.ratioNum * |files|)
  }

  /** A character count is the multiplicity of that character. */
  lemma {:induction false} CountCharIsMultiplicity(s: string, c: char)
    decreases |s|
    ensures CountChar(s, c) == multiset(s)[c]
  {
    if s != [] {
      assert s == [s[0]] + s[1..];
      CountCharIsMultiplicity(s[1..], c);
    }
  }

  /** The per-file line total is the newline count of the joined contents
      plus one line per file. */
  lemma {:induction false} TotalLinesCounted(files: seq<FileEdit>)
    decreases |files|
    ensures TotalLines(files) == multiset(Concat(Contents(files)))['\n'] + |files|
  {
    if files != [] {
      assert Contents(files)[0] == files[0].content && Contents(files)[1..] == Contents(files[1..]);
      CountCharIsMultiplicity(files[0].content, '\n');
      TotalLinesCounted(files[1..]);
    }
  }

  /** The running count of new files is the number of "create" modes. */
  lemma {:induction false} CreatesCounted(files: seq<FileEdit>)
    decreases |files|
    ensures Creates(files) == multiset(Modes(files))["create"]
  {
    if files != [] {
      assert Modes(files) == [files[0].mode] + Modes(files[1..]);
      CreatesCounted(files[1..]);
    }
  }

  function TooManyFiles(n: nat, max: nat): string {
    "Too many files (" + NatToString(n) + " > " + NatToString(max) + "). Keep changes smaller."
  }

  function TooManyLines(n: nat, max: nat): string {
    "Too many lines (" + NatToString(n) + " > " + NatToString(max) + "). Simplify the change."
  }

  function TooManyNew(created: nat, n: Pos, lim: Limits): string {
    "Too many new files (" + NatToString(created) + "/" + NatToString(n) + " = "
      + NatToString(Percent(created, n)) + "% > " + NatToString(Percent(lim.ratioNum, lim.ratioDen))
      + "%). Prefer editing existing files or create fewer new ones."
  }

  /** `check_complexity_budget`. The checks run in a fixed order, file count
      first, and the first one that fails gives the reason. */
  function CheckBudget(files: seq<FileEdit>, lim: Limits): (v: Verdict)
    ensures v.ok <==> WithinBudget(files, lim)
    ensures v.ok ==> v.reason == ""
    ensures |files| > lim.maxFiles ==> v.reason == TooManyFiles(|files|, lim.maxFiles)
    ensures |files| <= lim.maxFiles && TotalLines(files) > lim.maxLines ==>
      v.reason == TooManyLines(TotalLines(files), lim.maxLines)
    ensures |files| <= lim.maxFiles && TotalLines(files) <= lim.maxLines && RatioExceeded(files, lim) ==>
      v.reason == TooManyNew(Creates(files), |files|, lim)
  {
    TotalLinesCounted(files);
    CreatesCounted(files);
    if |files| > lim.maxFiles then Verdict(false, TooManyFiles(|files|, lim.maxFiles))
    else if TotalLines(files) > lim.maxLines then Verdict(false, TooManyLines(TotalLines(files), lim.maxLines))
    else if RatioExceeded(files, lim) then Verdict(false, TooManyNew(Creates(files), |files|, lim))
    else Verdict(true, "")
  }

  // ---------------------------------------------------------------------------
  // Properties
  // ---------------------------------------------------------------------------

  /** Line totals add up over concatenated bundles. */
  lemma {:induction false} TotalLinesAppend(a: seq<FileEdit>, b: seq<FileEdit>)
    decreases |a|
    ensures TotalLines(a + b) == TotalLines(a) + TotalLines(b)
  {
    if a == [] {
      assert a + b == b;
    } else {
      assert (a + b)[0] == a[0] && (a + b)[1..] == a[1..] + b;
      TotalLinesAppend(a[1..], b);
    }
  }

  /** Every file counts at least one line, so the line limit also bounds
      the number of files. */
  lemma {:induction false} TotalLinesAtLeastFiles(files: seq<FileEdit>)
    decreases |files|
    ensures TotalLines(files) >= |files|
  {
    if files != [] {
      TotalLinesAtLeastFiles(files[1..]);
    }
  }

  /** A single file is never rejected for being new, whatever its mode. */
  lemma SingleFileSkipsRatio(e: FileEdit, lim: Limits)
    requires lim.maxFiles >= 1 && FileLines(e) <= lim.maxLines
    ensures CheckBudget([e], lim) == Verdict(true, "")
  {
    assert [e][1..] == [];
    assert TotalLines([e]) == FileLines(e);
  }

  /** Two new files out of two exceed the default share of 0.75 and are
      reported as 100% against 75%. */
  lemma TwoNewFilesRejected(a: FileEdit, b: FileEdit)
    requires a.mode == "create" && b.mode == "create"
    requires FileLines(a) + FileLines(b) <= 400
    ensures CheckBudget([a, b], Defaults) == Verdict(false, TooManyNew(2, 2, Defaults))
    ensures Percent(2, 2) == 100 && Percent(3, 4) == 75
  {
    var files := [a, b];
    assert files[1..] == [b] && files[1..][1..] == [];
    assert Creates(files) == 2;
    assert TotalLines(files[1..]) == FileLines(b);
    assert TotalLines(files) == FileLines(a) + FileLines(b);
    assert 2 * Defaults.ratioDen > Defaults.ratioNum * 2;
  }

  /** Four files against the default limit of three: rejected first for the
      file count, with both numbers in the reason. */
  lemma FourFilesReported(files: seq<FileEdit>)
    requires |files| == 4
    ensures !CheckBudget(files, Defaults).ok
    ensures Contains(CheckBudget(files, Defaults).reason, "(4 > 3)")
  {
    var r := CheckBudget(files, Defaults).reason;
    assert NatToString(4) == "4" && NatToString(3) == "3";
    var head := "Too many files (";
    assert r == head + "4" + " > " + "3" + "). Keep changes smaller.";
    assert OccursAt(r, "(4 > 3)", 15);
    ContainsIff(r, "(4 > 3)");
  }
}
