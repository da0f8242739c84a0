/** One cycle of `run_cycle` as a state machine over an explicit world: the
    proposal is parsed, sized up, written, validated stage by stage, and
    either committed or rolled back. Everything the cycle learns from
    outside (the model's reply, the engine runs, the intent verdict, the
    diff text, whether git commits) arrives as an input. The prompt, the
    oracle exchange, the world-state chronicle, recording and posting are
    not part of this model.

    `Variant` selects the code as written or the three corrections: the
    segment-wise path guard, a rollback to the last commit, and learnings
    that always start on a line of their own. */
module Controller {
  import opened Opt
  import opened Text
  import opened Diagnostics
  import opened OutputParser
  import opened Harness
  import opened Response
  import opened Paths
  import opened Precheck
  import opened Governor
  import opened CycleLog
  import Learnings
  import Strategy

  datatype Variant = AsWritten | Corrected

  /** The game tree as last committed and as staged. */
  datatype Repo = Repo(head: Disk, index: Disk)

  /** What a cycle reads and writes: the file system, the repository, the
      cycle logs, the learnings file and the saved diff of the last failure
      (None for a file that does not exist). */
  datatype World = World(disk: Disk, repo: Repo, logs: Logs, learnings: Option<string>, diffFile: Option<string>)

  /** The settings the cycle consults. */
  datatype Config = Config(
    root: Path,
    exe: string,
    limits: Limits,
    preValidate: bool,
    sceneRefCheck: bool,
    smokeTest: bool,
    intentCheck: bool,
    maxErrors: nat)

  /** The model's reply, or the text of the exception the call raised. */
  datatype Reply = Reply(text: string) | Raised(message: string)

  /** How `git_commit` ends: `git add` fails, the commit itself fails after
      staging, or both succeed. */
  datatype CommitResult = AddFails | CommitFails | Commits

  /** The answers of the outside world during one cycle. `diff` is the
      output of `git diff HEAD -- game/`, None when git could not run. */
  datatype Env = Env(
    reply: Reply,
    headless: RunOutcome,
    smoke: RunOutcome,
    intentPassed: bool,
    intentReason: string,
    diff: Option<string>,
    commit: CommitResult)

  /** Where the cycle ended. `Unstarted`: the history could not be read and
      the cycle raised before doing anything. `WriteFailed`: writing a file
      raised (its target is a directory, or a file stands where a parent
      directory must be), and the cycle ended with the earlier writes in
      place. `Aborted`: the engine run raised, and the cycle ended with its
      writes in place. */
  datatype Stage =
    | Unstarted
    | LlmFailed
    | NoFiles
    | OverBudget
    | WriteFailed
    | PreValidationFailed
    | HeadlessFailed
    | SmokeFailed
    | IntentFailed
    | Aborted
    | CommitFailed
    | Committed

  datatype Outcome = Outcome(stage: Stage, world: World)

  /** The time limits `run_cycle` leaves at their defaults. */
  const HeadlessTimeout: nat := 10
  const SmokeTimeout: nat := 15

  // ---------------------------------------------------------------------------
  // Saved diff
  // ---------------------------------------------------------------------------

  const DiffLimit: nat := 3000
  const TruncationNote: string := "\n... (diff truncated)"

  /** `get_last_failed_diff`: the stripped diff, cut to 3000 characters and
      marked when longer; empty when git could not run. */
  function LastFailedDiff(out: Option<string>): string {
    match out
    case None => ""
    case Some(o) =>
      var d := Strip(o);
      if |d| > DiffLimit then d[..DiffLimit] + TruncationNote else d
  }

  // ---------------------------------------------------------------------------
  // Repository
  // ---------------------------------------------------------------------------

  /** The files of the game tree. */
  function GameTree(d: Disk, root: Path): Disk {
    map p | p in d && Under(root, p) :: d[p]
  }

  /** The files outside the game tree. */
  function Outside(d: Disk, root: Path): Disk {
    map p | p in d && !Under(root, p) :: d[p]
  }

  /** `git checkout -- game/` and `git clean -fd game/` from `from`: the
      game tree becomes `from`'s, everything else stays. */
  function Restore(d: Disk, root: Path, from: Disk): Disk {
    Outside(d, root) + GameTree(from, root)
  }

  /** `git_rollback` as written restores the staged tree; the corrected
      rollback restores the last commit and unstages. */
  function Rollback(v: Variant, w: World, root: Path): World {
    match v
    case AsWritten => w.(disk := Restore(w.disk, root, w.repo.index))
    case Corrected => w.(disk := Restore(w.disk, root, w.repo.head), repo := Repo(w.repo.head, w.repo.head))
  }

  /** `git_commit`: staging copies the game tree to the index, committing
      copies the index to the head. */
  function Commit(w: World, root: Path, c: CommitResult): World {
    match c
    case AddFails => w
    case CommitFails => w.(repo := w.repo.(index := GameTree(w.disk, root)))
    case Commits => w.(repo := Repo(GameTree(w.disk, root), GameTree(w.disk, root)))
  }

  /** Nothing is staged and the game tree is as committed. */
  predicate Clean(w: World, root: Path) {
    w.repo.index == w.repo.head && GameTree(w.disk, root) == w.repo.head
  }

  // ---------------------------------------------------------------------------
  // Stages
  // ---------------------------------------------------------------------------

  function GuardOf(v: Variant): GuardKind {
    match v
    case AsWritten => StringPrefix
    case Corrected => Segments
  }

  function AppendLearning(v: Variant, file: Option<string>, learning: string, n: int, action: string, result: string): Option<string> {
    match v
    case AsWritten => Learnings.AppendLearningAsWritten(file, learning, n, action, result)
    case Corrected => Learnings.AppendLearning(file, learning, n, action, result)
  }

  function Log(w: World, rec: Record): World {
    w.(logs := AppendCycle(w.logs, rec))
  }

  function FailRecord(n: int, p: Parsed, error: string): Record {
    NewRecord(n, p.action, p.target, "fail", error, "")
  }

  /** The static checks of every written script, in write order. */
  function ScriptErrors(disk: Disk, written: seq<Path>): seq<Diagnostic>
    decreases |written|
  {
    if written == [] then []
    else
      (if EndsWith(PathString(written[0]), ".gd") then PreValidate(disk, written[0]) else [])
      + ScriptErrors(disk, written[1..])
  }

  function PreErrors(cfg: Config, disk: Disk, written: seq<Path>): seq<Diagnostic> {
    ScriptErrors(disk, written) + (if cfg.sceneRefCheck then SceneRefErrors(cfg.root, disk, written) else [])
  }

  /** The first `max` pre-validation records, one rendering per line. */
  function PreErrorText(errors: seq<Diagnostic>, max: nat): string {
    var shown := Min(|errors|, max);
    Join(seq(shown, i requires 0 <= i < shown => Render(errors[i])), "\n")
  }

  /** A failed stage: save the diff when there is one, roll back, record
      the learning as a correction and log the failure. */
  function Fail(v: Variant, cfg: Config, env: Env, w: World, n: int, p: Parsed, stage: Stage, error: string): Outcome {
    var diff := LastFailedDiff(env.diff);
    var w1 := if diff != "" then w.(diffFile := Some(diff)) else w;
    var w2 := Rollback(v, w1, cfg.root);
    var w3 := w2.(learnings := AppendLearning(v, w2.learnings, p.learning, n, p.action, "fail"));
    Outcome(stage, Log(w3, FailRecord(n, p, error)))
  }

  /** The success path: drop the saved diff, record the learning as a
      discovery, put the curated learnings in place, log the success, then
      commit, rolling back when the commit fails. */
  function Succeed(v: Variant, cfg: Config, env: Env, w: World, n: int, p: Parsed): Outcome {
    var w1 := w.(diffFile := None);
    var w2 := w1.(learnings := AppendLearning(v, w1.learnings, p.learning, n, p.action, "success"));
    var w3 := w2.(learnings := Learnings.ReplaceLearnings(w2.learnings, p.curatedLearnings));
    var w4 := Log(w3, NewRecord(n, p.action, p.target, "success", "", p.patchNotes));
    var w5 := Commit(w4, cfg.root, env.commit);
    if env.commit == Commits then Outcome(Committed, w5)
    else Outcome(CommitFailed, Rollback(v, w5, cfg.root))
  }

  /** How the checks after writing end. */
  datatype Check = Passed | Failed(stage: Stage, error: string) | Raises

  /** What each check reports: the pre-validation records (none when it
      is disabled), the functional test, run without a baseline (None when
      it raised), and the smoke test. */
  datatype Reports = Reports(pre: seq<Diagnostic>, headless: Option<TestResult>, smoke: TestResult)

  function Gather(cfg: Config, env: Env, m: Matcher, disk: Disk, written: seq<Path>): Reports {
    Reports(
      if cfg.preValidate then PreErrors(cfg, disk, written) else [],
      Headless(m, cfg.exe, HeadlessTimeout, {}, env.headless),
      Smoke(SmokeTimeout, env.smoke))
  }

  /** The checks after writing, in their fixed order: pre-validation, the
      functional test, then the smoke test and the intent check when they
      are enabled. The first that fails decides. */
  function Decide(cfg: Config, env: Env, r: Reports): Check {
    if r.pre != [] then Failed(PreValidationFailed, PreErrorText(r.pre, cfg.maxErrors))
    else match r.headless
      case None => Raises
      case Some(t) =>
        if !t.success then Failed(HeadlessFailed, ErrorSummary(t, cfg.maxErrors))
        else if cfg.smokeTest && !r.smoke.success then
          Failed(SmokeFailed, "Smoke test: " + ErrorSummary(r.smoke, DefaultMaxErrors))
        else if cfg.intentCheck && !env.intentPassed then
          Failed(IntentFailed, "Intent check: " + env.intentReason)
        else Passed
  }

  function Checks(cfg: Config, env: Env, m: Matcher, disk: Disk, written: seq<Path>): Check {
    Decide(cfg, env, Gather(cfg, env, m, disk, written))
  }

  /** After writing: roll back on a failed check, stop where an engine run
      raised, and otherwise commit. */
  function AfterWrite(v: Variant, cfg: Config, env: Env, m: Matcher, w: World, n: int, p: Parsed, written: seq<Path>): Outcome {
    match Checks(cfg, env, m, w.disk, written)
    case Raises => Outcome(Aborted, w)
    case Failed(stage, error) => Fail(v, cfg, env, w, n, p, stage, error)
    case Passed => Succeed(v, cfg, env, w, n, p)
  }

  /** Why a proposal is turned away before anything is written, if it is. */
  function StopReason(cfg: Config, p: Parsed): Option<string> {
    if p.files == [] then Some("LLM returned no files")
    else
      var budget := CheckBudget(p.files, cfg.limits);
      if !budget.ok then Some("Complexity budget: " + budget.reason) else None
  }

  /** From the parsed reply: no files or an oversized change end the cycle
      before anything is written; otherwise the files are written and
      validated. */
  function Propose(v: Variant, cfg: Config, env: Env, m: Matcher, w: World, n: int, p: Parsed): Outcome {
    match StopReason(cfg, p)
    case Some(reason) => Outcome(if p.files == [] then NoFiles else OverBudget, Log(w, FailRecord(n, p, reason)))
    case None =>
      var applied := ApplyFiles(GuardOf(v), w.disk, cfg.root, p.files);
      if applied.raised then Outcome(WriteFailed, w.(disk := applied.disk))
      else AfterWrite(v, cfg, env, m, w.(disk := applied.disk), n, p, applied.written)
  }

  /** The number of the cycle about to run, once the history has been
      read and a strategy chosen from it; None when either raises. */
  function Start(w: World, caps: Strategy.Capabilities, classify: string -> string): Option<int> {
    var cycles := ReadCycles(w.logs.active);
    match CycleNum(cycles)
    case None => None
    case Some(n) =>
      if Strategy.DetermineStrategy(cycles, Some(caps), "", classify).None? then None else Some(n)
  }

  /** `run_cycle`. The strategy is decided first (it only shapes the
      request), so a history it cannot read ends the cycle as well. */
  function RunCycle(v: Variant, cfg: Config, env: Env, m: Matcher, w: World,
                    caps: Strategy.Capabilities, classify: string -> string): Outcome
  {
    Cycle(v, cfg, env, m, w, Start(w, caps, classify))
  }

  /** The cycle once it is known whether, and under which number, it
      starts: a raised model call is logged as such, a reply is parsed and
      proposed. */
  function Cycle(v: Variant, cfg: Config, env: Env, m: Matcher, w: World, start: Option<int>): Outcome {
    match start
    case None => Outcome(Unstarted, w)
    case Some(n) =>
      match env.reply
      case Raised(message) => Outcome(LlmFailed, Log(w, NewRecord(n, "llm_call", "api", "fail", message, "")))
      case Reply(text) => Propose(v, cfg, env, m, w, n, Parse(text))
  }

  // ---------------------------------------------------------------------------
  // Properties: saved diff
  // ---------------------------------------------------------------------------

  /** The saved diff is the stripped diff when it fits, and otherwise its
      first 3000 characters followed by the marker. */
  lemma DiffTruncation(o: string)
    ensures var r := LastFailedDiff(Some(o)); var d := Strip(o);
      && |r| <= DiffLimit + |TruncationNote|
      && (|d| <= DiffLimit ==> r == d)
      && (|d| > DiffLimit ==> r[..DiffLimit] == d[..DiffLimit] && r[DiffLimit..] == TruncationNote)
  {
  }

  /** Cutting a saved diff a second time changes nothing. */
  lemma DiffTruncationIdempotent(o: string)
    ensures LastFailedDiff(Some(LastFailedDiff(Some(o)))) == LastFailedDiff(Some(o))
  {
    var d := Strip(o);
    var r := LastFailedDiff(Some(o));
    StripEnds(o);
    if |d| > DiffLimit {
      assert r[0] == d[0];
      assert r[|r| - 1] == ')';
      StripFixed(r);
      assert r[..DiffLimit] == d[..DiffLimit];
    } else {
      StripFixed(d);
    }
  }

  // ---------------------------------------------------------------------------
  // Properties: repository
  // ---------------------------------------------------------------------------

  /** Every file of `d` lies in the game tree. */
  predicate InTree(d: Disk, root: Path) {
    forall p | p in d :: Under(root, p)
  }

  /** A restore gives the game tree of its source and keeps the rest. */
  lemma RestoreSpec(d: Disk, root: Path, from: Disk)
    ensures GameTree(Restore(d, root, from), root) == GameTree(from, root)
    ensures Outside(Restore(d, root, from), root) == Outside(d, root)
  {
  }

  /** The game tree and the rest make up the whole disk. */
  lemma TreeAndRest(d: Disk, root: Path)
    ensures Outside(d, root) + GameTree(d, root) == d
  {
  }

  /** Restoring what is on disk changes nothing. */
  lemma RestoreOwnTree(d: Disk, root: Path)
    ensures Restore(d, root, GameTree(d, root)) == d
  {
    TreeAndRest(d, root);
    assert GameTree(GameTree(d, root), root) == GameTree(d, root);
  }

  /** As written, a rollback after a commit that failed once the changes
      were staged restores the staged changes themselves: nothing is
      undone. */
  lemma RollbackAfterStagingKeepsChanges(w: World, root: Path)
    ensures Rollback(AsWritten, Commit(w, root, CommitFails), root).disk == w.disk
  {
    RestoreOwnTree(w.disk, root);
  }

  /** The corrected rollback brings the game tree back to the last commit,
      whatever was staged, keeps everything outside it, and leaves the
      repository clean. */
  lemma RollbackRestoresHead(w: World, root: Path)
    requires InTree(w.repo.head, root)
    ensures var r := Rollback(Corrected, w, root);
      && GameTree(r.disk, root) == w.repo.head
      && Outside(r.disk, root) == Outside(w.disk, root)
      && Clean(r, root)
  {
    RestoreSpec(w.disk, root, w.repo.head);
    assert GameTree(w.repo.head, root) == w.repo.head;
  }

  // ---------------------------------------------------------------------------
  // Properties: stage order
  // ---------------------------------------------------------------------------

  /** The position of a check in the fixed order. */
  function StageIndex(s: Stage): nat {
    match s
    case PreValidationFailed => 0
    case HeadlessFailed => 1
    case SmokeFailed => 2
    case IntentFailed => 3
    case _ => 4
  }

  /** Pre-validation is off or found nothing. */
  predicate PreClear(cfg: Config, disk: Disk, written: seq<Path>) {
    !cfg.preValidate || PreErrors(cfg, disk, written) == []
  }

  /** The functional test exited with code 0 and printed no recognised
      error. */
  predicate HeadlessClean(m: Matcher, run: RunOutcome) {
    run.Exited? && run.code == 0 && ParseOutput(m, run.output) == []
  }

  /** The smoke test printed its sentinel. */
  predicate SmokeClean(run: RunOutcome) {
    run.Exited? && Contains(run.output, SmokeOk)
  }

  /** What the reports say about the runs. With no baseline, the functional
      test passes only on exit code 0 with no parsed error at all. */
  lemma GatherSpec(cfg: Config, env: Env, m: Matcher, disk: Disk, written: seq<Path>)
    ensures var r := Gather(cfg, env, m, disk, written);
      && (r.pre == [] <==> PreClear(cfg, disk, written))
      && (r.headless.None? <==> env.headless.Crashed?)
      && (r.headless.Some? ==> (r.headless.value.success <==> HeadlessClean(m, env.headless)))
      && (r.smoke.success <==> SmokeClean(env.smoke))
  {
    if env.headless.Exited? {
      EmptyBaselineKeepsAll(ParseOutput(m, env.headless.output));
    }
  }

  /** The checks run in their fixed order: a check is reached only when
      every earlier one passed, and the cycle passes only when all enabled
      checks do. */
  lemma DecideInOrder(cfg: Config, env: Env, r: Reports)
    ensures var c := Decide(cfg, env, r);
      && (c.Failed? ==> StageIndex(c.stage) <= 3)
      && (c.Failed? && c.stage == PreValidationFailed <==> r.pre != [])
      && (c.Raises? <==> r.pre == [] && r.headless.None?)
      && ((c.Failed? && StageIndex(c.stage) >= 2) || c.Passed? ==>
            r.pre == [] && r.headless.Some? && r.headless.value.success)
      && ((c.Failed? && StageIndex(c.stage) >= 3) || c.Passed? ==> !cfg.smokeTest || r.smoke.success)
      && (c.Passed? <==>
            && r.pre == [] && r.headless.Some? && r.headless.value.success
            && (!cfg.smokeTest || r.smoke.success) && (!cfg.intentCheck || env.intentPassed))
  {
  }

  /** The cycle passes its checks exactly when pre-validation is clear, the
      functional test is clean, and every enabled later check passes. */
  lemma PassedIff(cfg: Config, env: Env, m: Matcher, disk: Disk, written: seq<Path>)
    ensures Checks(cfg, env, m, disk, written).Passed? <==>
      PreClear(cfg, disk, written) && HeadlessClean(m, env.headless)
      && (!cfg.smokeTest || SmokeClean(env.smoke)) && (!cfg.intentCheck || env.intentPassed)
  {
    GatherSpec(cfg, env, m, disk, written);
    DecideInOrder(cfg, env, Gather(cfg, env, m, disk, written));
  }

  /** Without a baseline, one error already present before the change fails
      the functional test, whatever the change did. */
  lemma PreexistingErrorFails(cfg: Config, env: Env, m: Matcher, disk: Disk, written: seq<Path>)
    requires PreClear(cfg, disk, written)
    requires env.headless.Exited? && ParseOutput(m, env.headless.output) != []
    ensures Checks(cfg, env, m, disk, written).Failed?
    ensures Checks(cfg, env, m, disk, written).stage == HeadlessFailed
  {
    GatherSpec(cfg, env, m, disk, written);
  }

  /** Later stages never run: once a check fails, what the later checks
      would have reported makes no difference. */
  lemma LaterStagesNeverRun(cfg: Config, env: Env, env2: Env, r: Reports, r2: Reports)
    requires Decide(cfg, env, r).Failed?
    requires var i := StageIndex(Decide(cfg, env, r).stage);
      && r2.pre == r.pre
      && (i >= 1 ==> r2.headless == r.headless)
      && (i >= 2 ==> r2.smoke == r.smoke)
      && (i >= 3 ==> env2.intentPassed == env.intentPassed && env2.intentReason == env.intentReason)
    ensures Decide(cfg, env2, r2) == Decide(cfg, env, r)
  {
  }

  // ---------------------------------------------------------------------------
  // Properties: what a cycle leaves behind
  // ---------------------------------------------------------------------------

  /** A failed check rolls the game tree back to the last commit when
      nothing was staged, saves the diff when there is one, records the
      learning as a correction and logs one failure. */
  lemma FailRollsBack(v: Variant, cfg: Config, env: Env, w: World, n: int, p: Parsed, stage: Stage, error: string)
    requires InTree(w.repo.head, cfg.root) && w.repo.index == w.repo.head
    ensures var o := Fail(v, cfg, env, w, n, p, stage, error).world; var diff := LastFailedDiff(env.diff);
      && GameTree(o.disk, cfg.root) == w.repo.head
      && Outside(o.disk, cfg.root) == Outside(w.disk, cfg.root)
      && o.repo == w.repo && Clean(o, cfg.root)
      && o.learnings == AppendLearning(v, w.learnings, p.learning, n, p.action, "fail")
      && o.diffFile == (if diff != "" then Some(diff) else w.diffFile)
      && o.logs == AppendCycle(w.logs, FailRecord(n, p, error))
  {
    var diff := LastFailedDiff(env.diff);
    var w1 := if diff != "" then w.(diffFile := Some(diff)) else w;
    RestoreSpec(w1.disk, cfg.root, w.repo.head);
    assert GameTree(w.repo.head, cfg.root) == w.repo.head;
  }

  /** A proposal with files within the budget is written and, unless a
      write raises, checked. */
  lemma ProposeWrites(v: Variant, cfg: Config, env: Env, m: Matcher, w: World, n: int, p: Parsed)
    requires StopReason(cfg, p).None?
    ensures var applied := ApplyFiles(GuardOf(v), w.disk, cfg.root, p.files);
      !applied.raised ==>
        Propose(v, cfg, env, m, w, n, p) == AfterWrite(v, cfg, env, m, w.(disk := applied.disk), n, p, applied.written)
  {
  }

  /** A write that raises ends the cycle on the spot: the files written
      before it stay on disk, nothing is rolled back and nothing is logged. */
  lemma WriteFailureKeepsEarlierWrites(v: Variant, cfg: Config, env: Env, m: Matcher, w: World, n: int, p: Parsed)
    requires StopReason(cfg, p).None?
    requires ApplyFiles(GuardOf(v), w.disk, cfg.root, p.files).raised
    ensures var o := Propose(v, cfg, env, m, w, n, p);
      var applied := ApplyFiles(GuardOf(v), w.disk, cfg.root, p.files);
      && o.stage == WriteFailed
      && o.world == w.(disk := applied.disk)
      && (forall q | q in w.disk && q !in applied.written :: q in o.world.disk && o.world.disk[q] == w.disk[q])
      && (forall q | q in applied.written :: q in o.world.disk)
  {
    ApplyTouchesWritten(GuardOf(v), w.disk, cfg.root, p.files);
  }

  /** The corrected rollback after a failed check undoes every write that
      stayed inside the game tree. */
  lemma CorrectedFailUndoes(cfg: Config, env: Env, before: World, w: World, n: int, p: Parsed, stage: Stage, error: string)
    requires Clean(before, cfg.root) && InTree(before.repo.head, cfg.root)
    requires w.repo == before.repo && Outside(w.disk, cfg.root) == Outside(before.disk, cfg.root)
    ensures var o := Fail(Corrected, cfg, env, w, n, p, stage, error).world;
      o.disk == before.disk && o.repo == before.repo
  {
    FailRollsBack(Corrected, cfg, env, w, n, p, stage, error);
    var o := Fail(Corrected, cfg, env, w, n, p, stage, error).world;
    TreeAndRest(o.disk, cfg.root);
    TreeAndRest(before.disk, cfg.root);
  }

  /** With the corrected guard, a failed check leaves the file system and
      the repository exactly as they were before the cycle. */
  lemma CorrectedFailureLeavesNoTrace(cfg: Config, env: Env, m: Matcher, w: World, n: int, p: Parsed)
    requires Clean(w, cfg.root) && InTree(w.repo.head, cfg.root)
    requires StopReason(cfg, p).None?
    requires var applied := ApplyFiles(Segments, w.disk, cfg.root, p.files);
      !applied.raised && Checks(cfg, env, m, applied.disk, applied.written).Failed?
    ensures var o := Propose(Corrected, cfg, env, m, w, n, p);
      o.world.disk == w.disk && o.world.repo == w.repo
  {
    var applied := ApplyFiles(Segments, w.disk, cfg.root, p.files);
    var c := Checks(cfg, env, m, applied.disk, applied.written);
    var w' := w.(disk := applied.disk);
    ProposeWrites(Corrected, cfg, env, m, w, n, p);
    assert Propose(Corrected, cfg, env, m, w, n, p) == Fail(Corrected, cfg, env, w', n, p, c.stage, c.error);
    OutsideConfined(w.disk, cfg.root, p.files);
    CorrectedFailUndoes(cfg, env, w, w', n, p, c.stage, c.error);
  }

  /** The corrected guard changes nothing outside the game tree. */
  lemma OutsideConfined(d: Disk, root: Path, files: seq<FileEdit>)
    ensures Outside(ApplyFiles(Segments, d, root, files).disk, root) == Outside(d, root)
  {
    var after := ApplyFiles(Segments, d, root, files).disk;
    forall q | !Under(root, q)
      ensures (q in after <==> q in d) && (q in d ==> after[q] == d[q])
    {
      ApplyConfined(d, root, files, q);
    }
  }

  /** As written, a failed check restores the game tree but not a file the
      string-prefix guard let through into a sibling directory. */
  lemma EscapedWriteSurvivesRollback(cfg: Config, env: Env, w: World, n: int, p: Parsed, stage: Stage, error: string, t: Path)
    requires InTree(w.repo.head, cfg.root) && w.repo.index == w.repo.head
    requires !Under(cfg.root, t) && t in w.disk
    ensures var o := Fail(AsWritten, cfg, env, w, n, p, stage, error).world;
      t in o.disk && o.disk[t] == w.disk[t]
  {
    FailRollsBack(AsWritten, cfg, env, w, n, p, stage, error);
    var o := Fail(AsWritten, cfg, env, w, n, p, stage, error).world;
    assert t in Outside(w.disk, cfg.root);
    assert t in Outside(o.disk, cfg.root);
  }

  /** A committed cycle leaves a clean repository whose last commit is the
      game tree as written, and no saved diff. */
  lemma CommittedIsClean(v: Variant, cfg: Config, env: Env, w: World, n: int, p: Parsed)
    requires env.commit == Commits
    ensures var o := Succeed(v, cfg, env, w, n, p);
      && o.stage == Committed
      && o.world.disk == w.disk && o.world.repo.head == GameTree(w.disk, cfg.root)
      && Clean(o.world, cfg.root) && o.world.diffFile.None?
  {
    assert GameTree(GameTree(w.disk, cfg.root), cfg.root) == GameTree(w.disk, cfg.root);
  }

  /** As written, a commit that fails after staging is followed by a
      rollback that restores the staged files: the changes stay on disk,
      although the cycle is logged and learned from as a success. */
  lemma CommitFailureKeepsChanges(cfg: Config, env: Env, w: World, n: int, p: Parsed)
    requires env.commit == CommitFails
    ensures var o := Succeed(AsWritten, cfg, env, w, n, p);
      && o.stage == CommitFailed
      && o.world.disk == w.disk
      && o.world.repo.index == GameTree(w.disk, cfg.root)
  {
    var w5 := Succeed(AsWritten, cfg, env, w, n, p);
    RestoreOwnTree(w.disk, cfg.root);
  }

  /** Corrected, a failed commit returns the game tree to the last commit
      and leaves the repository clean. */
  lemma CommitFailureRestoresHead(cfg: Config, env: Env, w: World, n: int, p: Parsed)
    requires env.commit != Commits && InTree(w.repo.head, cfg.root)
    ensures var o := Succeed(Corrected, cfg, env, w, n, p);
      && o.stage == CommitFailed
      && GameTree(o.world.disk, cfg.root) == w.repo.head
      && Outside(o.world.disk, cfg.root) == Outside(w.disk, cfg.root)
      && Clean(o.world, cfg.root)
  {
    var w1 := w.(diffFile := None);
    var w2 := w1.(learnings := AppendLearning(Corrected, w1.learnings, p.learning, n, p.action, "success"));
    var w3 := w2.(learnings := Learnings.ReplaceLearnings(w2.learnings, p.curatedLearnings));
    var w4 := Log(w3, NewRecord(n, p.action, p.target, "success", "", p.patchNotes));
    var w5 := Commit(w4, cfg.root, env.commit);
    assert w5.repo.head == w.repo.head && w5.disk == w.disk;
    RollbackRestoresHead(w5, cfg.root);
  }

  // ---------------------------------------------------------------------------
  // Properties: the cycle log
  // ---------------------------------------------------------------------------

  /** Everything ever logged, oldest first. */
  function History(logs: Logs): seq<Record> {
    ReadCycles(logs.archive) + ReadCycles(logs.active)
  }

  /** `after` is `before` with one more record, for cycle `n` with the given
      result, and the next cycle number is `n + 1`. */
  predicate LoggedOnce(before: Logs, after: Logs, n: int, result: string) {
    var h := History(before);
    var h' := History(after);
    && |h'| == |h| + 1 && h'[..|h|] == h
    && "day" in h'[|h|] && h'[|h|]["day"] == IntToString(n)
    && "result" in h'[|h|] && h'[|h|]["result"] == result
    && CycleNum(ReadCycles(after.active)) == Some(n + 1)
  }

  /** Logging a new record for the current cycle. */
  lemma LogNew(logs: Logs, n: int, action: string, target: string, result: string, error: string, note: string)
    requires CycleNum(ReadCycles(logs.active)) == Some(n)
    ensures LoggedOnce(logs, AppendCycle(logs, NewRecord(n, action, target, result, error, note)), n, result)
  {
    var rec := NewRecord(n, action, target, result, error, note);
    var h := History(logs);
    assert History(AppendCycle(logs, rec)) == h + [rec];
    assert (h + [rec])[..|h|] == h;
    NextCycleNumber(logs, action, target, result, error, note);
  }

  /** Whether a cycle ending at `stage` writes a record. */
  predicate Recorded(stage: Stage) {
    stage != Unstarted && stage != WriteFailed && stage != Aborted
  }

  /** The result a cycle ending at `stage` logs. */
  function ResultOf(stage: Stage): string {
    if stage == Committed || stage == CommitFailed then "success" else "fail"
  }

  /** A failed check logs one failure. */
  lemma FailLogsOnce(v: Variant, cfg: Config, env: Env, w: World, n: int, p: Parsed, stage: Stage, error: string)
    requires CycleNum(ReadCycles(w.logs.active)) == Some(n) && StageIndex(stage) <= 3
    ensures var o := Fail(v, cfg, env, w, n, p, stage, error);
      Recorded(o.stage) && LoggedOnce(w.logs, o.world.logs, n, ResultOf(o.stage))
  {
    LogNew(w.logs, n, p.action, p.target, "fail", error, "");
  }

  /** The success path logs one success, whether or not the commit works. */
  lemma SucceedLogsOnce(v: Variant, cfg: Config, env: Env, w: World, n: int, p: Parsed)
    requires CycleNum(ReadCycles(w.logs.active)) == Some(n)
    ensures var o := Succeed(v, cfg, env, w, n, p);
      Recorded(o.stage) && LoggedOnce(w.logs, o.world.logs, n, ResultOf(o.stage))
  {
    LogNew(w.logs, n, p.action, p.target, "success", "", p.patchNotes);
  }

  /** A reply without files, or with a change over the complexity budget,
      ends the cycle before anything is written: the file system, the
      repository, the learnings and the saved diff stay as they were. */
  lemma StopsBeforeWriting(v: Variant, cfg: Config, env: Env, m: Matcher, w: World, n: int, p: Parsed)
    requires StopReason(cfg, p).Some?
    ensures var o := Propose(v, cfg, env, m, w, n, p);
      && (o.stage == NoFiles <==> p.files == [])
      && (o.stage == OverBudget <==> p.files != [])
      && o.world == w.(logs := o.world.logs)
  {
  }

  /** What such a cycle logs is one failure carrying the reason. */
  lemma StopLogsOnce(v: Variant, cfg: Config, env: Env, m: Matcher, w: World, n: int, p: Parsed)
    requires CycleNum(ReadCycles(w.logs.active)) == Some(n)
    requires StopReason(cfg, p).Some?
    ensures var o := Propose(v, cfg, env, m, w, n, p);
      o.world.logs == AppendCycle(w.logs, FailRecord(n, p, StopReason(cfg, p).value))
      && LoggedOnce(w.logs, o.world.logs, n, ResultOf(o.stage))
  {
    LogNew(w.logs, n, p.action, p.target, "fail", StopReason(cfg, p).value, "");
  }

  /** After writing, one record is logged, a success exactly when the checks
      passed, except when an engine run raised, which logs nothing. */
  lemma AfterWriteLogs(v: Variant, cfg: Config, env: Env, m: Matcher, w: World, n: int, p: Parsed, written: seq<Path>)
    requires CycleNum(ReadCycles(w.logs.active)) == Some(n)
    ensures var o := AfterWrite(v, cfg, env, m, w, n, p, written);
      && o.stage != Unstarted
      && (!Recorded(o.stage) ==> o.world.logs == w.logs)
      && (Recorded(o.stage) ==> LoggedOnce(w.logs, o.world.logs, n, ResultOf(o.stage)))
  {
    var c := Checks(cfg, env, m, w.disk, written);
    var o := AfterWrite(v, cfg, env, m, w, n, p, written);
    match c
    case Raises =>
    case Failed(stage, error) =>
      DecideInOrder(cfg, env, Gather(cfg, env, m, w.disk, written));
      assert o == Fail(v, cfg, env, w, n, p, stage, error);
      FailLogsOnce(v, cfg, env, w, n, p, stage, error);
    case Passed =>
      assert o == Succeed(v, cfg, env, w, n, p);
      SucceedLogsOnce(v, cfg, env, w, n, p);
  }

  /** A proposal logs one record, a success exactly when the checks
      passed, except when a write or an engine run raised, which logs
      nothing. */
  lemma ProposeLogs(v: Variant, cfg: Config, env: Env, m: Matcher, w: World, n: int, p: Parsed)
    requires CycleNum(ReadCycles(w.logs.active)) == Some(n)
    ensures var o := Propose(v, cfg, env, m, w, n, p);
      && o.stage != Unstarted
      && (!Recorded(o.stage) ==> o.world.logs == w.logs)
      && (Recorded(o.stage) ==> LoggedOnce(w.logs, o.world.logs, n, ResultOf(o.stage)))
  {
    if StopReason(cfg, p).Some? {
      StopsBeforeWriting(v, cfg, env, m, w, n, p);
      StopLogsOnce(v, cfg, env, m, w, n, p);
    } else {
      var applied := ApplyFiles(GuardOf(v), w.disk, cfg.root, p.files);
      ProposeWrites(v, cfg, env, m, w, n, p);
      if !applied.raised {
        AfterWriteLogs(v, cfg, env, m, w.(disk := applied.disk), n, p, applied.written);
      }
    }
  }

  /** Every cycle that gets under way logs exactly one record, numbered with
      the cycle number read from the log and marked a success exactly when
      the change was kept for commit; a cycle that cannot start, or in which
      a write or the engine run raised, logs nothing. */
  lemma OneRecordPerCycle(v: Variant, cfg: Config, env: Env, m: Matcher, w: World, start: Option<int>)
    requires start.Some? ==> CycleNum(ReadCycles(w.logs.active)) == start
    ensures var o := Cycle(v, cfg, env, m, w, start);
      && (o.stage == Unstarted <==> start.None?)
      && (!Recorded(o.stage) ==> o.world.logs == w.logs)
      && (Recorded(o.stage) ==> LoggedOnce(w.logs, o.world.logs, start.value, ResultOf(o.stage)))
  {
    match start
    case None =>
    case Some(n) =>
      match env.reply
      case Raised(message) =>
        LlmFailureLogs(v, cfg, env, m, w, n, message);
      case Reply(text) =>
        ReplyLogs(v, cfg, env, m, w, n, text);
  }

  /** A failed model call logs one failure. */
  lemma LlmFailureLogs(v: Variant, cfg: Config, env: Env, m: Matcher, w: World, n: int, message: string)
    requires CycleNum(ReadCycles(w.logs.active)) == Some(n) && env.reply == Raised(message)
    ensures var o := Cycle(v, cfg, env, m, w, Some(n));
      o.stage == LlmFailed && LoggedOnce(w.logs, o.world.logs, n, ResultOf(o.stage))
  {
    LogNew(w.logs, n, "llm_call", "api", "fail", message, "");
  }

  /** A reply logs what its proposal logs. */
  lemma ReplyLogs(v: Variant, cfg: Config, env: Env, m: Matcher, w: World, n: int, text: string)
    requires CycleNum(ReadCycles(w.logs.active)) == Some(n) && env.reply == Reply(text)
    ensures var o := Cycle(v, cfg, env, m, w, Some(n));
      && o.stage != Unstarted
      && (!Recorded(o.stage) ==> o.world.logs == w.logs)
      && (Recorded(o.stage) ==> LoggedOnce(w.logs, o.world.logs, n, ResultOf(o.stage)))
  {
    ProposeLogs(v, cfg, env, m, w, n, Parse(text));
  }

  /** A cycle starts exactly when every logged day can be read and a
      strategy is chosen; it then runs under the next cycle number. */
  lemma StartSpec(w: World, caps: Strategy.Capabilities, classify: string -> string)
    ensures var cycles := ReadCycles(w.logs.active);
      && (Start(w, caps, classify).Some? <==>
            AllDaysRead(cycles) && Strategy.DetermineStrategy(cycles, Some(caps), "", classify).Some?)
      && (Start(w, caps, classify).Some? ==> Start(w, caps, classify) == CycleNum(cycles))
  {
    CycleNumSpec(ReadCycles(w.logs.active));
  }
}
