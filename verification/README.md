# GODMACHINE cycle core, modelled in Dafny

GODMACHINE is an autonomous game builder. Each cycle it asks a language
model for a change to a Godot game, writes the proposed files into the
game tree, validates them and then commits or rolls back. The cycle is
validated in this order:

1. a static pre-check of brackets, `preload` paths and scene references;
2. a headless engine run whose output is parsed into structured errors;
3. an optional smoke test;
4. an optional intent check.

Every cycle is logged, and the history steers the next strategy: explore,
retry or pivot.

This project models the deterministic core of that loop as pure functions
over immutable data, and proves what the code promises about it.

- `Diagnostics`: the error record (`GodotError`), its one-line rendering and
  the error summary of a test run.
- `OutputParser`: the engine-output parser. It has two parts, the
  single-line rule table and the two-line `SCRIPT ERROR:` correlation, and
  the merge of the two.
- `Precheck`: the static pre-check.
  - the bracket scanner, with comments and strings skipped;
  - `preload(...)` references;
  - `_find_game_root`;
  - `ext_resource` paths of written scenes.
- `Harness`: the result logic of `test_headless`, `capture_baseline_errors`
  and `run_smoke_test`. Each engine run is an input: its exit code and
  output, a timeout, or a crash.
- `Response`: `parse_response`, with the tag and file-element patterns
  written as token matchers, and the round trip from a rendered reply back
  to the proposal.
- `Paths`, `Governor`: the `apply_files` path guard and writes over a model
  file system, and `check_complexity_budget`.
- `CycleLog`, `Learnings`: the cycle log with its 20-record retention and
  archive, `get_cycle_num`, and the learnings file (`append_learning`,
  `replace_learnings`).
- `Strategy`, `GameScan`, `Summarizer`:
  - strategy selection, error-pattern advice, feature dependencies and
    domain suggestions;
  - the capability-scan naming rules;
  - the one-line script summary.
- `Controller`: `run_cycle` as a state machine over a world of files, git
  head and index, logs, learnings and the saved diff. Everything the cycle
  learns from outside is an input: the reply, the engine runs, the intent
  verdict, the diff text and the commit result.

Four defects were found in the code (see Findings). Each is modelled
twice: as written, with a lemma exhibiting the failure, and corrected,
with the intended property proved. `Controller.Variant` selects the
as-written or the corrected path guard, rollback and learnings append.

`run_cycle` does not restore the workspace on every path, and the model
follows the code. An engine run that raises anything but a timeout or a
missing executable propagates out of `run_cycle` with the writes in place
and no log record (`Aborted`). So does a write that raises (`WriteFailed`).

## Model

| member | source | states |
|---|---|---|
| Diagnostics.CategoryNameInjective | orchestrator/godot_runner.py:67-105 | distinct categories have distinct names, so a rendered record names its category unambiguously |
| Diagnostics.FormatConstant | orchestrator/godot_runner.py:158-160 | a suggestion template without `{line}`/`{message}` holes formats to the same text whatever the line and message |
| Diagnostics.Render | orchestrator/godot_runner.py:30-35 | the rendering starts with `[category] file:line`; with a suggestion it ends with the indented `Fix:` line, without one it ends with the dash and the message, and is one line when file and message are |
| Diagnostics.RenderParts | orchestrator/godot_runner.py:30-35 | the rendering is exactly the header `[category] file:line — message` joined by a line break to `  Fix: suggestion`, the latter present exactly when the suggestion is not empty |
| Diagnostics.RenderLines | orchestrator/godot_runner.py:30-35 | when no field holds a line break, the rendering splits back into the header line, followed by the `Fix:` line exactly when there is a suggestion |
| Diagnostics.SummaryLines | orchestrator/godot_runner.py:52-58 | the summary shows the first `min(n, max)` errors rendered in order, followed by `... and k more errors` exactly when more than `max` exist |
| Diagnostics.ErrorSummary | orchestrator/godot_runner.py:49-58 | with no errors: "unknown error" for empty output, else a prefix of the output of length min(its length, 500); with errors, the summary lines joined by '\n', so with at least one shown it begins with the first rendered error |
| OutputParser.RecordFromGroups | orchestrator/godot_runner.py:153-167 | file is `res://` + group 1 (or "unknown"), line is group 2 when all digits (else 0), message is group 3 or the stripped line, suggestion is the rule's template filled in |
| OutputParser.FirstMatchFrom | orchestrator/godot_runner.py:150-152 | the index found is the first rule from `i` whose pattern matches; None means no rule from `i` matches |
| OutputParser.FirstRuleWins | orchestrator/godot_runner.py:149-168 | a line yields a record iff some rule matches it, and the record comes from the first matching rule (one match per line) |
| OutputParser.EarlierRuleShadows | orchestrator/godot_runner.py:67-87 | a line both the parse-error and the null-instance patterns match is classified as a parse error |
| OutputParser.ShortRulesUseWholeLine | orchestrator/godot_runner.py:153-156 | for null-instance, missing-resource, scene-error and script-load records the message is the stripped line, and the missing-resource and scene-error records have line 0 |
| OutputParser.ShortRuleArity | orchestrator/godot_runner.py:67-105 | the null-instance, missing-resource, scene-error and script-load rules have at most two groups, and missing-resource and scene-error at most one |
| OutputParser.ParseSingle | orchestrator/godot_runner.py:148-168 | pass one yields at most one record per line |
| OutputParser.ParseSingleAppend | orchestrator/godot_runner.py:149-168 | pass one is line-local: parsing two chunks separately and concatenating equals parsing them together |
| OutputParser.UnmatchedLineYieldsNothing | orchestrator/godot_runner.py:150-152 | a line no rule matches contributes no record |
| OutputParser.ScriptErrorMarker | orchestrator/godot_runner.py:113-125 | a marker message is only read from a line containing `SCRIPT ERROR:` |
| OutputParser.KindOf | orchestrator/godot_runner.py:122-140 | a line is a marker line exactly when a marker message is read from it; a blank line strips to empty and any other line does not |
| OutputParser.BlockRecordsBounded | orchestrator/godot_runner.py:117-143 | the correlation pass emits at most one record per marker line (plus one for a message pending at the start) |
| OutputParser.BlockRecordsComeFromMarkers | orchestrator/godot_runner.py:128-136 | every block record is a `script_error` at the location line's file and line whose message is the text of some marker |
| OutputParser.BlanksKeepPending | orchestrator/godot_runner.py:127-141 | blank lines between a marker and its `at:` line keep the message pending, and the location resolves it |
| OutputParser.InterruptionDropsPending | orchestrator/godot_runner.py:139-141 | a non-blank line that is neither marker nor location drops the pending message |
| OutputParser.MarkerOverwritesPending | orchestrator/godot_runner.py:122-125 | a later marker replaces the pending message before the location arrives |
| OutputParser.ScriptErrorBlock | orchestrator/godot_runner.py:117-143 | a marker, blank lines and a location line yield exactly one `script_error` record with that file, line and message |
| OutputParser.Dedup | orchestrator/godot_runner.py:173-177 | the kept block records are unseen, pairwise distinct by (file, line), and cover every unseen location of the block |
| OutputParser.Merge | orchestrator/godot_runner.py:170-179 | the single-line records come first unchanged; after them only block records at new locations, each location once; all locations are covered |
| OutputParser.DedupIsFirsts | orchestrator/godot_runner.py:173-177 | the dedup loop equals the reference filter "block records, in order, that are the first at their location and not already seen" |
| OutputParser.MergeKeepsFirstNew | orchestrator/godot_runner.py:170-179 | the merge is exactly the single-line records followed by the first block record at each new location, in block order |
| OutputParser.ParseOutputSpec | orchestrator/godot_runner.py:146-179 | the parsed output starts with every single-line record in line order; the rest are `script_error` records at locations pass one did not report |
| Harness.NewErrors | orchestrator/godot_runner.py:428-432 | no more records than parsed; a record is kept exactly when it was parsed and its (file, line, message) key is not in the baseline |
| Harness.NewErrorsFilter | orchestrator/godot_runner.py:428-432 | the baseline filter distributes over concatenation and keeps a single record exactly when its key is not in the baseline, so order and duplicates are those of the parsed list |
| Harness.EmptyBaselineKeepsAll | orchestrator/godot_runner.py:429-432 | without a baseline every parsed record counts |
| Harness.BaselineScenario | orchestrator/godot_runner.py:428-432 | a record present before the change is filtered, and one introduced by it is kept |
| Harness.WarningLines | orchestrator/godot_runner.py:434-438 | the warnings are exactly the output lines whose upper-cased text contains WARNING |
| Harness.WarningLinesFilter | orchestrator/godot_runner.py:434-438 | the warning filter distributes over concatenation and keeps a single line exactly when its upper-cased text contains WARNING, so order and duplicates are those of the output |
| Harness.Headless | orchestrator/godot_runner.py:399-461 | crash ⇔ None; on exit, success ⇔ exit code 0 and no new errors; the errors are exactly the parsed errors whose key is not in the baseline, in order; the warnings are exactly the output lines containing WARNING in any case; a success carries the output unchanged and a failure `Exit code N` then the output; a timeout or missing executable fails with no errors |
| Harness.Baseline | orchestrator/godot_runner.py:382-396 | a run that did not exit gives the empty set; otherwise the set is exactly the keys of the parsed records, in both directions |
| Harness.UnchangedRunHasNoNewErrors | orchestrator/godot_runner.py:382-450 | a run whose output equals the baseline probe's reports no new errors |
| Harness.CoveredErrorsFiltered | orchestrator/godot_runner.py:430 | records whose keys are all in the baseline are all filtered out |
| Harness.FailLines | orchestrator/godot_runner.py:360-361 | a line is kept exactly when it starts with `SMOKE_FAIL:`; no more lines than the output has |
| Harness.FailLinesFilter | orchestrator/godot_runner.py:360-361 | the failure filter distributes over concatenation and keeps a single line exactly when it starts with `SMOKE_FAIL:`, so order and duplicates are those of the output |
| Harness.SmokeRecords | orchestrator/godot_runner.py:359-365 | one `smoke_test` record in file `smoke_test` at line 0 per failure line, in the order of those lines |
| Harness.Smoke | orchestrator/godot_runner.py:308-372 | success ⇔ the run exited and printed `SMOKE_RESULT: OK`, whatever the exit code; on exit the output and failure records are kept; otherwise there are no records |
| Harness.SmokeFailureMessage | orchestrator/godot_runner.py:364 | a reported smoke failure carries the stripped text after the marker |
| Response.ExtractTag | orchestrator/main.py:69-70 | the extracted value never contains the closing tag, and a reply without the opening tag has none |
| Response.TagRoundTrip | orchestrator/main.py:69-103 | a tag written around a value reads back as the stripped value, when the text before holds no opening tag and the value no closing tag |
| Response.TagExtracted | orchestrator/main.py:69 | the non-greedy DOTALL search returns exactly the text between the first opening tag and the first closing tag after it |
| Response.ExtractTagAt | orchestrator/main.py:69 | the value is the slice between the first opening tag and the first closing tag after it |
| Response.MissingTagDefault | orchestrator/main.py:69-103 | a reply without the opening tag takes the default ("unknown" or "") |
| Response.SpanAt | orchestrator/main.py:78-82 | a file-element match lies in order: path, quote, mode, `">`, content, `</file>` |
| Response.FileAt | orchestrator/main.py:78-87 | a file hit exists exactly where the file pattern matches, and ends after its closing tag |
| Response.FilesFrom | orchestrator/main.py:78-87 | `finditer` yields no more file edits than there are characters left to scan |
| Response.RenderSpan | orchestrator/main.py:78-82 | a rendered file element matches at its start with the span its pieces fix |
| Response.RenderHit | orchestrator/main.py:83-87 | read off its span, a rendered element gives back the stripped path, the stripped mode and the content with newlines stripped |
| Response.FileFirst | orchestrator/main.py:78-87 | a reply that begins with a file element (path and mode quote-free and stripped, content free of `</file>`) reads that edit first and resumes after it |
| Response.FileRoundTrip | orchestrator/main.py:78-87 | a reply holding one such element parses to exactly that edit, content newline-stripped |
| Response.Parse | orchestrator/main.py:64-109 | absent action/target give "unknown", absent learning/curated learnings give ""; the file list is bounded |
| Paths.SplitOn | orchestrator/main.py:117 | `split('/')` gives at least one piece and no piece holds the separator |
| Paths.Normalize | orchestrator/main.py:117 | resolution of `.`, `..` and empty segments keeps a normal path normal |
| Paths.Resolve | orchestrator/main.py:117 | `(base / raw).resolve()` yields a normal path |
| Paths.NormalizeDescends | orchestrator/main.py:117-118 | without `..`, resolution only descends below the base |
| Paths.Guard | orchestrator/main.py:117-120 | the corrected guard admits exactly the targets strictly below the game root |
| Paths.PlainRelativePathAccepted | orchestrator/main.py:117-120 | a relative path without `..` that names something is admitted |
| Paths.NormalizeGrows | orchestrator/main.py:117 | following a name segment makes the path strictly longer than the base |
| Paths.Admit | orchestrator/main.py:115-120 | the string-prefix guard admits exactly what `str(target).startswith(str(root))` admits; the segment guard is `Guard`; the target is the resolved path |
| Paths.ApplyFiles | orchestrator/main.py:112-125 | no more paths are reported than files were proposed |
| Paths.ApplyReportsAdmitted | orchestrator/main.py:114-125 | when no write raises, the written list is exactly the admitted targets in input order |
| Paths.ApplyRaisedStopsEarly | orchestrator/main.py:121-123 | when a write raises, the written list is a proper prefix of the admitted targets, and the next target is not writable |
| Paths.ApplyTouchesWritten | orchestrator/main.py:121-123 | the disk gains exactly the written paths; every other file keeps its content |
| Paths.ApplyConfined | orchestrator/main.py:117-120 | with the segment guard nothing outside the root is created or changed |
| Paths.ApplyWrites | orchestrator/main.py:121-122 | when no write raises, an admitted file that no later file overwrites holds its proposed content |
| Paths.KeptUntouched | orchestrator/main.py:121-122 | a path no file targets keeps what it held |
| Paths.RejectedSkipped | orchestrator/main.py:118-120 | a file the guard rejects changes nothing: applying it and the rest equals applying the rest |
| Paths.RootTargetRaises | orchestrator/main.py:117-122 | `game/` targets the root itself: the string guard admits it and the write raises with nothing written; the segment guard rejects it |
| Paths.SiblingEscapes | orchestrator/main.py:117-118 | `../<root name><suffix>/x` lands in a sibling directory outside the root, yet passes the string-prefix guard; the segment guard rejects it |
| Precheck.CodeChars | orchestrator/godot_runner.py:203-215 | the code of a line holds no quote or `#`, and is no longer than the line |
| Precheck.PlainLineIsCode | orchestrator/godot_runner.py:205-217 | a line without quotes or `#` is all code |
| Precheck.StringSkipped | orchestrator/godot_runner.py:206-209 | inside a string everything up to the matching quote is skipped, `#` and brackets included |
| Precheck.QuotedStringIgnored | orchestrator/godot_runner.py:206-215 | a quoted string contributes nothing to the code of a line |
| Precheck.CommentIgnored | orchestrator/godot_runner.py:210-211 | an unquoted `#` ends the code of a line |
| Precheck.ScanChars | orchestrator/godot_runner.py:216-233 | scanning only adds reports; earlier ones stay in place |
| Precheck.UnclosedAll | orchestrator/godot_runner.py:235-240 | one `Unclosed` report per bracket left open, innermost last |
| Precheck.ScanLinesTagged | orchestrator/godot_runner.py:202-233 | every report and open bracket is a validation record of the file on a line already scanned |
| Precheck.BracketErrors | orchestrator/godot_runner.py:198-240 | every bracket report is a validation record of the file on one of its lines |
| Precheck.RunIffWellNested | orchestrator/godot_runner.py:216-233 | the stack scan ends empty without a mismatch exactly on well-nested bracket text (reference grammar) |
| Precheck.ScanCharsAgrees | orchestrator/godot_runner.py:216-233 | the positioned scan adds no report exactly while the position-free scan succeeds, and then keeps the same stack; when it fails a report is added |
| Precheck.BracketErrorsIffWellNested | orchestrator/godot_runner.py:198-240 | a file draws no bracket report exactly when its code, line after line, is well nested |
| Precheck.ScanCharsAppend | orchestrator/godot_runner.py:205 | scanning two pieces in turn equals scanning them together |
| Precheck.NoBracketsNoChange | orchestrator/godot_runner.py:216-218 | text without brackets leaves the scan unchanged |
| Precheck.ScenarioScan | orchestrator/godot_runner.py:202-233 | three concrete lines scan to one parenthesis left open at line 2 |
| Precheck.UnclosedParenScenario | orchestrator/godot_runner.py:235-240 | that parenthesis is reported once, as `Unclosed '('` against line 2 |
| Precheck.QuotedRefRoundTrip | orchestrator/godot_runner.py:246 | a quoted `res://` reference is read back exactly |
| Precheck.PreloadAt | orchestrator/godot_runner.py:246 | a preload match ends inside the line and captures a `res://` reference |
| Precheck.PreloadRefsFrom | orchestrator/godot_runner.py:246 | every reference found is a `res://` reference |
| Precheck.PreloadRoundTrip | orchestrator/godot_runner.py:246-247 | the canonical `preload("res://…")` is recognised with the reference intact |
| Precheck.MissingRefs | orchestrator/godot_runner.py:247-249 | the missing references are exactly those whose target does not exist |
| Precheck.PreloadErrors | orchestrator/godot_runner.py:244-254 | every preload report is a `missing_resource` record of the file on one of the scanned lines |
| Precheck.PreloadReportsExactly | orchestrator/godot_runner.py:249-254 | the reports of a line name exactly its missing references |
| Precheck.PreloadReportsLine | orchestrator/godot_runner.py:245-254 | a preloaded reference on a line is reported against that line if its target does not exist |
| Precheck.PreloadReportsAt | orchestrator/godot_runner.py:245-254 | line i of the scanned lines reports a reference at its own line number exactly when the reference is among that line's missing ones |
| Precheck.PreloadReportsEvery | orchestrator/godot_runner.py:245-254 | for every line i and every reference preloaded on it, a report at line i + 1 naming it exists exactly when its target does not |
| Precheck.FindGameRoot | orchestrator/godot_runner.py:291-302 | a root found holds `project.godot` and is an ancestor of the start directory |
| Precheck.SearchUpNearest | orchestrator/godot_runner.py:293-301 | the upward walk stops at the nearest directory passing the test, within `fuel` levels; stopping without one means no directory within `fuel` levels passes |
| Precheck.FindGameRootNearest | orchestrator/godot_runner.py:293-301 | a root found lies fewer than `fuel` levels up, and no directory between it and the start holds `project.godot` |
| Precheck.FindGameRootAbsent | orchestrator/godot_runner.py:293-301 | when no root is found, no directory within `fuel` levels of the start holds `project.godot` |
| Precheck.PreValidate | orchestrator/godot_runner.py:186-256 | an unreadable file gives one validation record at line 0; otherwise every record is a validation or `missing_resource` record of that file at a line ≥ 1; well-nested code draws only `missing_resource` records; there is a validation record exactly when the code is not well nested; without a game root only validation records; with a game root, every reference preloaded on line i is reported at line i + 1 exactly when its target does not exist |
| Precheck.ScenePathAt | orchestrator/godot_runner.py:277 | a scene `path=` match captures a `res://` reference |
| Precheck.FirstScenePath | orchestrator/godot_runner.py:277 | the search returns a reference, or none when no position matches |
| Precheck.FirstScenePathPosition | orchestrator/godot_runner.py:277 | a reference found is the match at a position with no match before it |
| Precheck.FirstScenePathLeftmost | orchestrator/godot_runner.py:277 | a reference found is the leftmost match, as `re.search` returns |
| Precheck.ScenePathRoundTrip | orchestrator/godot_runner.py:277-278 | an `ext_resource` line is recognised with the reference intact |
| Precheck.SceneLineError | orchestrator/godot_runner.py:277-286 | a line is reported exactly when its first reference has no target, with that reference |
| Precheck.SceneLinesErrors | orchestrator/godot_runner.py:276-286 | no more reports than lines, each a `missing_resource` record of the file against one of the scanned lines |
| Precheck.SceneRefErrors | orchestrator/godot_runner.py:259-288 | only existing `.tscn` files among the written ones are reported on |
| Precheck.SceneReportsAt | orchestrator/godot_runner.py:275-286 | the report of line i of a scene is among the scene's reports |
| Precheck.SceneRefErrorsComplete | orchestrator/godot_runner.py:263-286 | every written, existing `.tscn` file reports each line i whose first reference has no target, with that reference at line i + 1 |
| Precheck.ResolvedScenesClean | orchestrator/godot_runner.py:276-286 | a scene whose every reference exists draws no report |
| Governor.FileLines | orchestrator/main.py:331 | every file counts at least one line |
| Governor.Creates | orchestrator/main.py:337 | no more new files than files |
| Governor.Percent | orchestrator/main.py:341 | the `.0%` rendering of n/d is within half a point of 100·n/d |
| Governor.TotalLinesCounted | orchestrator/main.py:331 | the line total is the number of newlines across all contents plus one per file |
| Governor.CreatesCounted | orchestrator/main.py:337 | the count of new files is the multiplicity of mode "create" |
| Governor.CheckBudget | orchestrator/main.py:317-345 | ok ⇔ the budget stated over the whole bundle holds; the reason names the first failing check, in order: files, lines, new-file share |
| Governor.TotalLinesAppend | orchestrator/main.py:331 | line totals add up over concatenated bundles |
| Governor.SingleFileSkipsRatio | orchestrator/main.py:336-339 | a single file is never rejected for being new |
| Governor.TwoNewFilesRejected | orchestrator/main.py:322-343 | two new files of at most 400 lines exceed the default 0.75 share and are rejected with the new-file reason; 2/2 renders as 100 and 3/4 as 75 |
| Governor.FourFilesReported | orchestrator/main.py:320-328 | four files against the default three are rejected with `(4 > 3)` |
| CycleLog.ReadCycles | orchestrator/cycle_logger.py:9-18 | a missing log reads as no records |
| CycleLog.NewRecord | orchestrator/cycle_logger.py:42-46 | day, action, target and result always; error and note exactly when non-empty |
| CycleLog.AppendCycle | orchestrator/cycle_logger.py:21-58 | the new record goes last; the active log holds min(n + 1, 20) records; the archive changes only on overflow; archive and active log together gain exactly the record |
| CycleLog.OverflowArchived | orchestrator/cycle_logger.py:50-55 | on overflow the oldest records move to the archive in order and the active log keeps the newest 20 |
| CycleLog.AppendAllConserves | orchestrator/cycle_logger.py:21-58 | over any run of appends no record is lost or reordered, and the active log never exceeds 20 |
| CycleLog.FromNothing | orchestrator/cycle_logger.py:9-38 | starting from missing files, archive and active log hold exactly the appended records |
| CycleLog.ParseIntRoundTrip | orchestrator/main.py:55 | a rendered day reads back as itself |
| CycleLog.MaxDaySpec | orchestrator/main.py:55 | the maximum exists iff every day parses, bounds every day and is attained |
| CycleLog.CycleNumSpec | orchestrator/main.py:52-55 | defined exactly when every day parses; 1 for an empty history; otherwise greater than every day and one past some day |
| CycleLog.NextCycleNumber | orchestrator/main.py:52-55 | after logging cycle n under the number the log gave, the next number is n + 1 |
| CycleLog.AppendedIsMax | orchestrator/main.py:55 | appending a record whose day is largest makes the next number one past it |
| Learnings.ReadLearnings | orchestrator/main.py:197-201 | a missing file reads as "" |
| Learnings.LinesKeepEndsJoin | orchestrator/main.py:223 | the kept-ends lines concatenate back to the text |
| Learnings.TrimKeepsNewest | orchestrator/main.py:223-227 | after trimming, the entries are the newest 50 of those before, in order |
| Learnings.AppendLearningAsWritten | orchestrator/main.py:204-229 | an empty learning changes nothing; otherwise the file exists and holds at most 50 entries; when the existing text ends a line, it agrees with the corrected `Learnings.AppendLearning` |
| Learnings.AppendLearning | orchestrator/main.py:204-229 | an empty learning changes nothing; otherwise the file exists and holds at most 50 entries (which ones: `AppendedEntryIsNewest`) |
| Learnings.AppendedEntryIsNewest | orchestrator/main.py:218-227 | the entries after appending are the newest 50 of those before plus the new one, which is last |
| Learnings.GluedEntryLost | orchestrator/main.py:204-241 | after curated prose without a trailing newline, the as-written append leaves no entry while the corrected one records it |
| Learnings.GluedEntryExample | orchestrator/main.py:204-241 | the same on the concrete curated text "Keep scenes small." |
| Learnings.ReplaceLearnings | orchestrator/main.py:232-241 | empty curated text changes nothing; otherwise the file starts with the title and ends with the text: text starting with the title is kept as is, other text gets the header prepended |
| Learnings.ReplaceIdempotent | orchestrator/main.py:232-241 | replacing with the result of a replacement changes nothing |
| Strategy.Get | orchestrator/strategy.py:130-132 | `dict.get` with a default |
| Strategy.NewestOfNewest | orchestrator/strategy.py:165-168 | the newest k of the newest n are the newest k |
| Strategy.FailurePatterns | orchestrator/strategy.py:165-179 | at most one pattern per failed record |
| Strategy.AdviceIsEarliestFrequent | orchestrator/strategy.py:221-226 | the advice goes to the pattern seen at least twice whose first occurrence is earliest, not to the most frequent one |
| Strategy.FirstFrequentNotMostFrequent | orchestrator/strategy.py:221-226 | with intent, budget, budget, budget, intent the advice is the intent pattern although budget is more frequent |
| Strategy.SummaryCountsKinds | orchestrator/strategy.py:20-35 | one line per non-empty kind; the empty-game text appears exactly when every list is empty |
| Strategy.CheckDependencies | orchestrator/strategy.py:111-119 | no more missing prerequisites than the feature lists |
| Strategy.CheckDependenciesSpec | orchestrator/strategy.py:99-119 | missing ⇔ listed for the lower-cased feature and the capability list is empty; unknown features need nothing |
| Strategy.QuestNeedsRoomsAndItems | orchestrator/strategy.py:103-119 | a quest in an empty game needs rooms then items, and nothing once both exist |
| Strategy.RecentDomains | orchestrator/strategy.py:126-136 | at most five domains; the domain of every non-empty target among the newest five records is listed, and every listed domain is one of those |
| Strategy.TargetDomainsSpec | orchestrator/strategy.py:130-135 | every domain comes from a non-empty target of the history, and every non-empty target's domain is listed |
| Strategy.SuggestSpec | orchestrator/strategy.py:139-158 | none iff all four domains are recent; otherwise a non-recent domain with the fewest entries, ties to table order |
| Strategy.RoomsSuggested | orchestrator/strategy.py:144-158 | with no rooms or enemies, some UI, and enemies recent, rooms or items is suggested (rooms when items exist) |
| Strategy.ConsecutiveSpec | orchestrator/strategy.py:249-255 | the count is the length of the run of failures on the target at the end, and the record before it is not one |
| Strategy.DetermineStrategy | orchestrator/strategy.py:214-215 | an empty history explores |
| Strategy.LabelRule | orchestrator/strategy.py:217-293 | explore ⇔ the last cycle succeeded; pivot ⇔ it failed and either three in a row failed on its target or four of the newest five failed; retry otherwise |
| Strategy.StreakIff | orchestrator/strategy.py:249-260 | a run of n failures at the end reaches three exactly when the newest three all failed on the target |
| Strategy.NewestFiveDecide | orchestrator/strategy.py:208-293 | the decision depends only on the newest five records |
| Strategy.WarningIffMissing | orchestrator/strategy.py:279-291 | a retry explains the last error, then any advice, then a dependency warning exactly when prerequisites are missing |
| Strategy.WarningPresent | orchestrator/strategy.py:288-291 | the warning is present exactly when some prerequisite is missing |
| GameScan.AnyInSpec | orchestrator/strategy.py:64-68 | `any(kw in name …)` holds iff some keyword occurs |
| GameScan.LowerAll | orchestrator/strategy.py:79 | each name lower-cased, in order |
| GameScan.ScanFilesByKind | orchestrator/strategy.py:46-73 | each kind's list gains exactly the scripts classified as that kind, in order; autoloads are untouched |
| GameScan.EnemyBaseNotCounted | orchestrator/strategy.py:61-63 | the `enemy_base` script is never counted |
| GameScan.ExtendsEnemyBaseWins | orchestrator/strategy.py:54-63 | a script whose first `extends` line names `enemy_base` is an enemy whatever its name |
| GameScan.OnlyFirstExtends | orchestrator/strategy.py:54-59 | only the first `extends` line is consulted, lower-cased |
| GameScan.MechanicNamed | orchestrator/strategy.py:61-73 | a script is a mechanic iff no earlier branch claims it, it is not a core script, and its name mentions projectile or camera |
| GameScan.ItemByKeyword | orchestrator/strategy.py:61-65 | an item keyword in a name not claimed as an enemy makes it an item |
| GameScan.SceneRoomsDistinct | orchestrator/strategy.py:76-80 | with the corrected comparison, scene rooms never duplicate a known room, ignoring case |
| GameScan.SceneRoomsListed | orchestrator/strategy.py:77-80 | every scene whose name mentions room is listed |
| GameScan.SceneRoomsKept | orchestrator/strategy.py:77-80 | rooms already known stay listed |
| GameScan.SceneRoomDuplicated | orchestrator/strategy.py:79 | as written, a scene named like an existing script room with upper-case letters is added a second time |
| Summarizer.HeaderSpec | orchestrator/codebase_summarizer.py:67-75 | the header is read at the first line that is neither blank nor a plain comment, or is absent |
| Summarizer.SummaryCases | orchestrator/codebase_summarizer.py:60-82 | an unreadable file gives `(unreadable)`; otherwise the doc comment or early `extends` line, else the first `extends` line anywhere, else `(no summary)` |
| Summarizer.DocCommentRead | orchestrator/codebase_summarizer.py:70-71 | a `## ` line yields its text |
| Summarizer.DocCommentSummary | orchestrator/codebase_summarizer.py:67-71 | a doc comment after the preamble is the summary |
| Summarizer.FallbackToExtends | orchestrator/codebase_summarizer.py:77-82 | without a header the summary is `(no summary)` exactly when no line starts with `extends` |
| Summarizer.ExtendsNotPlaceholder | orchestrator/codebase_summarizer.py:72-82 | an `extends` line is never the placeholder |
| Controller.DiffTruncation | orchestrator/main.py:352-366 | the saved diff is the stripped diff when it fits, else its first 3000 characters and the truncation marker |
| Controller.DiffTruncationIdempotent | orchestrator/main.py:359-362 | truncating a saved diff again changes nothing |
| Controller.RestoreSpec | orchestrator/main.py:147-155 | restoring makes the game tree the source's and leaves everything outside it alone |
| Controller.RollbackAfterStagingKeepsChanges | orchestrator/main.py:128-161 | after a commit that failed once `git add` had staged, the as-written rollback restores the staged tree and undoes nothing |
| Controller.RollbackRestoresHead | orchestrator/main.py:144-161 | the corrected rollback restores the committed tree, unstages, and leaves the outside alone |
| Controller.GatherSpec | orchestrator/main.py:553-613 | pre-check clear ⇔ no report; headless crash ⇔ no result; headless success ⇔ the run exited 0 with no parsed error; smoke success ⇔ the OK marker was printed |
| Controller.DecideInOrder | orchestrator/main.py:564-659 | checks run in order: pre-validation, headless, smoke, intent; the first failure decides; a later stage runs only if all earlier ones passed |
| Controller.PassedIff | orchestrator/main.py:553-659 | the checks pass exactly when the pre-check is clear, the headless run is clean, and the enabled smoke test and intent check pass |
| Controller.PreexistingErrorFails | orchestrator/main.py:586 | no baseline is passed, so any parsed error, even one present before the change, fails the cycle at the headless stage |
| Controller.LaterStagesNeverRun | orchestrator/main.py:564-658 | once a stage fails, what the later stages would report cannot change the outcome |
| Controller.FailRollsBack | orchestrator/main.py:564-608 | a failed stage restores the committed tree and leaves the rest of the disk and the repository alone, appends the learning with result fail, saves the truncated diff when it is non-empty, and logs the failure record |
| Controller.ProposeWrites | orchestrator/main.py:549-551 | a proposal within budget is written, then validated on the written disk |
| Controller.WriteFailureKeepsEarlierWrites | orchestrator/main.py:112-125 | a write that raises ends the cycle: the earlier writes stay and nothing is logged or rolled back |
| Controller.CorrectedFailUndoes | orchestrator/main.py:564-658 | with the corrected guard and rollback, a failure restores disk and repository to their state before the cycle |
| Controller.CorrectedFailureLeavesNoTrace | orchestrator/main.py:549-608 | with the corrections, a cycle that writes successfully and then fails a check leaves disk and repository as they were |
| Controller.OutsideConfined | orchestrator/main.py:117-120 | with the segment guard, writes never reach outside the game tree |
| Controller.EscapedWriteSurvivesRollback | orchestrator/main.py:112-161 | a file outside the game tree survives the as-written rollback unchanged |
| Controller.CommittedIsClean | orchestrator/main.py:661-682 | a successful commit records the game tree as head, leaves nothing staged and drops the saved diff |
| Controller.CommitFailureKeepsChanges | orchestrator/main.py:679-682 | as written, a commit failing after staging leaves the disk as it was, with the new tree staged |
| Controller.CommitFailureRestoresHead | orchestrator/main.py:679-681 | with the corrected rollback, a failed commit or failed `git add` restores the committed tree, leaves the outside alone and unstages |
| Controller.FailLogsOnce | orchestrator/main.py:576-580 | a failed stage adds exactly one record, with the cycle's day and its result; earlier records are kept and the next number is one more |
| Controller.SucceedLogsOnce | orchestrator/main.py:673-677 | the success path adds exactly one record, with the cycle's day and its result, whether or not the commit succeeds |
| Controller.StopsBeforeWriting | orchestrator/main.py:529-547 | no files ends the cycle as `NoFiles`, an oversized change as `OverBudget`; only the log changes, nothing is written |
| Controller.StopLogsOnce | orchestrator/main.py:531-546 | such a stop logs exactly one failure |
| Controller.ProposeLogs | orchestrator/main.py:529-682 | after a reply the cycle reaches some end; the log is unchanged unless the end is recorded, and then it gains exactly one record |
| Controller.OneRecordPerCycle | orchestrator/main.py:415-682 | a cycle starts exactly when a number was found; the log is unchanged unless the cycle reaches a recorded end, and then it gains exactly one record for that day, keeps the earlier ones, and the next number is one more |
| Controller.LlmFailureLogs | orchestrator/main.py:511-520 | a raised model call logs exactly one `llm_call` failure |
| Controller.ReplyLogs | orchestrator/main.py:522-682 | after a reply the cycle starts, and logs once exactly when it reaches a recorded end |
| Controller.StartSpec | orchestrator/main.py:426-431 | a cycle starts exactly when every logged day parses and a strategy can be chosen, under the number `get_cycle_num` gives |

## Left out

- The engine, git and the language model are not run. Their answers are inputs:
  - the exit code and output of each engine run, or a timeout or crash;
  - the diff text;
  - the commit result;
  - the reply or the raised error;
  - the intent verdict.
- The regexes of the rule table are an abstract matcher parameter. What is modelled is the table order, the group arity, the record built from the groups and the "one match per line" rule. The smaller patterns are written out as deterministic token matchers: the `SCRIPT ERROR:` marker, the `at:` location, `preload(...)`, scene `path=` and the reply tags.
- Text.Lines: splits on '\n' only. Python's `splitlines` also splits on '\v', '\f', '\x1c'-'\x1e', '\x85', U+2028 and U+2029. '\r' and '\r\n' already arrive as '\n' because files and engine output are read with universal newlines.
- Learnings.LinesKeepEnds: keeps line ends at '\n' only. The learnings file is read with universal newlines, but the action and learning it appends come from the model's reply (orchestrator/llm.py:109, orchestrator/main.py:69-70) with no newline translation. The model assumes that reply text holds no '\r' and no other `splitlines` separator.
- Text.IsSpace: is the Latin-1 part of Python's `str.isspace`. Unicode spaces above U+00FF (U+2000-U+200A, U+3000 and others) are not whitespace here.
- Text.LowerChar: lower-cases ASCII letters only, where Python's `str.lower` is Unicode-wide. `Text.Upper` likewise.
- Text.IsDigit: accepts ASCII digits only. Python's `isdigit` also accepts characters such as '²', for which `int()` then raises. That raise is not modelled.
- CycleLog.ParseInt: accepts surrounding whitespace, one sign and ASCII digits. Python's `int()` also accepts digit-group underscores and non-ASCII digits; those are not accepted here.
- Strategy.DetermineStrategy: a record without a `result` attribute makes the source raise `KeyError` (`last["result"]`, `cycle["result"]`). The model returns None instead, and `Controller.Start` then does not start the cycle.
- CycleLog.CycleNum: a day that `int()` cannot read makes the source raise `ValueError` before the cycle begins. The model returns None, and the cycle ends `Unstarted` with nothing changed.
- Governor.CheckBudget: the new-file ratio limit is an exact fraction. The source compares floating-point numbers, and the two agree for limits that a binary float holds exactly, such as the default 0.75. Configuration loading is not modelled; the limits are a parameter.
- Controller.Rollback: never fails. A failing `git checkout` or `git clean` is ignored by `run_cycle`, so the model assumes both succeed.
- Controller.Restore: replaces the whole game tree. `git clean -fd` keeps ignored files, and the model has no ignore list.
- Controller.Gather: the smoke test writes `scripts/_smoke_test.gd` before running and deletes it afterwards. This would overwrite and then remove a game file of that name, and the model does not touch the file.
- Paths.Writable: models only the write errors a directory in the way causes. These are writing to a directory (including the game root) and a file standing where a parent directory must be. Permission errors, a full disk and other OS errors are not modelled.
- Controller.Commit: `AddFails` stages nothing. A partially successful `git add` is not modelled. `git add` also stages `lore/`, but the modelled repository holds only the game tree.
- XML encoding of the cycle log and the archive, and the indentation helper. A log is a sequence of attribute maps, and a missing file is `None`. A malformed file that makes the XML parser raise is not modelled.
- File-system walking (`rglob`) is left to the caller. `GameScan` takes the scripts' stems and contents and the scene names. The autoload scan of `project.godot` is not modelled.
- The prompt, the world-state chronicle, lore entries, the oracle exchange, recording and posting are outside the model. This includes the `finally` block that consults the oracle and the read of the saved diff into the next prompt.
- The legacy tuple unpacking of `TestResult` (`__iter__`) is not modelled.
- Precheck.FindGameRoot: is bounded by its `fuel` of 10 levels, as the source's loop is.
- Precheck.PreValidate: the record for an unreadable file names the path. The source's message carries the text of the operating system's exception, which is not modelled.
- Paths.Exists: a path exists when it is a file or a directory holding at least one file. An empty directory cannot be represented, although `Path.exists()` is true for one.

## Findings

| source | as written | input that shows it | evidently intended | confidence | as-written member | corrected member |
|---|---|---|---|---|---|---|
| orchestrator/main.py:117-118 | the path guard compares rendered strings with `startswith` | a file path `../game2/x.gd` with game root `/a/game` resolves to `/a/game2/x.gd`, which starts with `/a/game` and is written outside the game tree, where the rollback does not reach it | only targets strictly inside the game directory are written | high (not executed) | Paths.SiblingEscapes, Controller.EscapedWriteSurvivesRollback | Controller.OutsideConfined, Controller.CorrectedFailureLeavesNoTrace |
| orchestrator/main.py:679-681 | after a failed commit, `git_rollback` runs `git checkout -- game/`, which restores from the index | a commit that fails after `git add` succeeded (e.g. a pre-commit hook rejects it): the index already holds the new files, so the rollback leaves every change on disk | the rollback after a failed commit restores the last commit | high (not executed) | Controller.CommitFailureKeepsChanges, Controller.RollbackAfterStagingKeepsChanges | Controller.CommitFailureRestoresHead |
| orchestrator/main.py:220 | the new entry is appended to the existing text without first ending its last line | curated learnings "Keep scenes small." (no trailing newline) followed by a learning: the entry is glued onto the prose line and is no longer an entry | every appended learning starts a line of its own | high (not executed) | Learnings.GluedEntryLost, Learnings.AppendLearningAsWritten | Learnings.AppendLearning, Learnings.AppendedEntryIsNewest |
| orchestrator/strategy.py:79 | the scene stem is compared with the lower-cased room names without lower-casing the stem | a script room `Boss_Room` and a scene `Boss_Room.tscn`: `"Boss_Room" not in ["boss_room"]`, so the room is listed twice | a scene room already known, ignoring case, is not added again | high (not executed) | GameScan.SceneRoomDuplicated | GameScan.SceneRoomsDistinct |
