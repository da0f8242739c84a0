/** The diagnostic parser for runtime output (`parse_godot_errors`): an
    ordered rule table applied line by line (first matching rule wins), a
    two-line `SCRIPT ERROR:` / `at:` correlation pass with one pending slot,
    and a merge that deduplicates on (file, line).

    The seven rule regexes are not reimplemented: a `Matcher` stands for
    `pattern.search(line).groups()` of the rule of each kind. The two small
    regexes of the block pass are written out as token matchers. */
module OutputParser {
  import opened Opt
  import opened Text
  import opened Diagnostics

  // ---------------------------------------------------------------------------
  // Single-line rule table
  // ---------------------------------------------------------------------------

  /** One kind per entry of the rule table, in table order. */
  datatype RuleKind =
    | ParseErrorRule | NodeNotFoundRule | InvalidCallRule | NullInstanceRule
    | FailedLoadingRule | PackedSceneRule | FailedScriptRule

  /** An entry of the rule table; its suggestion template is `Hint(kind)`. */
  datatype Rule = Rule(kind: RuleKind, category: Category)

  /** The capture groups of the rule's regex on a line, or None when it does
      not match. */
  type Matcher = (RuleKind, string) -> Option<seq<string>>

  /** Number of capture groups of each rule's regex. */
  function GroupCount(k: RuleKind): nat {
    match k
    case ParseErrorRule => 3
    case NodeNotFoundRule => 3
    case InvalidCallRule => 3
    case NullInstanceRule => 2
    case FailedLoadingRule => 1
    case PackedSceneRule => 1
    case FailedScriptRule => 2
  }

  /** A matcher whose successful matches have as many groups as the regex. */
  ghost predicate RespectsArity(m: Matcher) {
    forall k, line :: m(k, line).Some? ==> |m(k, line).value| == GroupCount(k)
  }

  /** The rule table, in the order the rules are tried. */
  const ErrorPatterns: seq<Rule> := [
    Rule(ParseErrorRule, ParseError),
    Rule(NodeNotFoundRule, MissingNode),
    Rule(InvalidCallRule, MethodError),
    Rule(NullInstanceRule, NullAccess),
    Rule(FailedLoadingRule, MissingResource),
    Rule(PackedSceneRule, SceneError),
    Rule(FailedScriptRule, ScriptLoadError)
  ]

  /** The suggestion template of each rule. */
  function Hint(k: RuleKind): Template {
    match k
    case ParseErrorRule =>
      [Lit("Check syntax at line "), LineHole, Lit(". Common issues: missing colon, unmatched brackets, wrong indentation.")]
    case NodeNotFoundRule =>
      [Lit("Node '"), MessageHole, Lit("' doesn't exist in the scene tree. Check node names and paths.")]
    case InvalidCallRule =>
      [Lit("Function '"), MessageHole, Lit("' doesn't exist on this object. Check method name and class.")]
    case NullInstanceRule =>
      [Lit("Accessing a property/method on null. Ensure the node exists and is initialized.")]
    case FailedLoadingRule =>
      [Lit("Resource file doesn't exist on disk. Check the path and ensure the file was created.")]
    case PackedSceneRule =>
      [Lit("Scene file is malformed. Check .tscn format, ext_resource paths, and node structure.")]
    case FailedScriptRule =>
      [Lit("Script failed to load: "), MessageHole,
       Lit(". Fix parse errors in this file \U{2014} downstream scripts depending on its class_name will also break.")]
  }

  /** The record built from a rule's groups: group 1 is the file (under
      `res://`), group 2 the line when it is all digits, group 3 the message;
      a rule with fewer groups reports line 0 or the whole stripped line. */
  function RecordFromGroups(rule: Rule, groups: seq<string>, line: string): (d: Diagnostic)
    ensures d.category == rule.category
    ensures d.file == "res://" + (if |groups| > 0 then groups[0] else "unknown")
    ensures |groups| > 1 && IsDigits(groups[1]) ==> d.line == DigitsValue(groups[1])
    ensures !(|groups| > 1 && IsDigits(groups[1])) ==> d.line == 0
    ensures |groups| > 2 ==> d.message == groups[2]
    ensures |groups| <= 2 ==> d.message == Strip(line)
    ensures d.suggestion == Format(Hint(rule.kind), d.line, d.message)
  {
    var file := if |groups| > 0 then groups[0] else "unknown";
    var lineNum := if |groups| > 1 && IsDigits(groups[1]) then DigitsValue(groups[1]) else 0;
    var message := if |groups| > 2 then groups[2] else Strip(line);
    Diagnostic(rule.category, "res://" + file, lineNum, message, Format(Hint(rule.kind), lineNum, message))
  }

  /** Index of the first rule at or after `i` whose pattern matches `line`. */
  function FirstMatchFrom(rules: seq<Rule>, m: Matcher, line: string, i: nat): (r: Option<nat>)
    requires i <= |rules|
    decreases |rules| - i
    ensures r.Some? ==> i <= r.value < |rules| && m(rules[r.value].kind, line).Some?
    ensures r.Some? ==> forall j | i <= j < r.value :: m(rules[j].kind, line).None?
    ensures r.None? ==> forall j | i <= j < |rules| :: m(rules[j].kind, line).None?
  {
    if i == |rules| then None
    else if m(rules[i].kind, line).Some? then Some(i)
    else FirstMatchFrom(rules, m, line, i + 1)
  }

  /** The single-pass record of one output line, if any rule matches. */
  function ClassifyLine(rules: seq<Rule>, m: Matcher, line: string): Option<Diagnostic> {
    match FirstMatchFrom(rules, m, line, 0)
    case None => None
    case Some(i) => Some(RecordFromGroups(rules[i], m(rules[i].kind, line).value, line))
  }

  /** A line yields a record iff some rule matches it, and the record is the
      one built by the first matching rule in table order. */
  lemma FirstRuleWins(rules: seq<Rule>, m: Matcher, line: string)
    ensures ClassifyLine(rules, m, line).Some? <==> exists i | 0 <= i < |rules| :: m(rules[i].kind, line).Some?
    ensures forall i | 0 <= i < |rules| && m(rules[i].kind, line).Some? && (forall j | 0 <= j < i :: m(rules[j].kind, line).None?) ::
      ClassifyLine(rules, m, line) == Some(RecordFromGroups(rules[i], m(rules[i].kind, line).value, line))
  {
    var r := FirstMatchFrom(rules, m, line, 0);
    forall i | 0 <= i < |rules| && m(rules[i].kind, line).Some? && (forall j | 0 <= j < i :: m(rules[j].kind, line).None?)
      ensures ClassifyLine(rules, m, line) == Some(RecordFromGroups(rules[i], m(rules[i].kind, line).value, line))
    {
      assert r.Some?;
      assert r.value == i;
    }
  }

  /** A rule later in the table never classifies a line an earlier rule
      matches, even when its own pattern matches too: a "Parse Error" line
      that also mentions a null instance is reported as a parse error. */
  lemma EarlierRuleShadows(m: Matcher, line: string)
    requires m(ParseErrorRule, line).Some? && m(NullInstanceRule, line).Some?
    ensures ClassifyLine(ErrorPatterns, m, line).Some?
    ensures ClassifyLine(ErrorPatterns, m, line).value.category == ParseError
  {
    var r := FirstMatchFrom(ErrorPatterns, m, line, 0);
    assert ErrorPatterns[0].kind == ParseErrorRule;
    assert r.Some? && r.value == 0;
  }

  /** With a matcher faithful to the regexes' group counts, the three rules
      with fewer than three groups report the whole stripped line as the
      message, and the two with a single group report line 0. */
  lemma ShortRulesUseWholeLine(m: Matcher, line: string)
    requires RespectsArity(m)
    requires ClassifyLine(ErrorPatterns, m, line).Some?
    ensures var d := ClassifyLine(ErrorPatterns, m, line).value;
      && (d.category in {NullAccess, MissingResource, SceneError, ScriptLoadError} ==> d.message == Strip(line))
      && (d.category in {MissingResource, SceneError} ==> d.line == 0)
  {
    var i := FirstMatchFrom(ErrorPatterns, m, line, 0).value;
    var g := m(ErrorPatterns[i].kind, line).value;
    assert |g| == GroupCount(ErrorPatterns[i].kind);
    ShortRuleArity(i);
    var d := RecordFromGroups(ErrorPatterns[i], g, line);
    assert d.category == ErrorPatterns[i].category;
  }

  /** Which rules of the table have fewer than three groups, or only one. */
  lemma ShortRuleArity(i: nat)
    requires i < |ErrorPatterns|
    ensures var r := ErrorPatterns[i];
      && (r.category in {NullAccess, MissingResource, SceneError, ScriptLoadError} ==> GroupCount(r.kind) <= 2)
      && (r.category in {MissingResource, SceneError} ==> GroupCount(r.kind) <= 1)
  {
    if i == 0 {} else if i == 1 {} else if i == 2 {} else if i == 3 {}
    else if i == 4 {} else if i == 5 {} else {}
  }

  /** Pass one: at most one record per line, in line order. */
  function ParseSingle(rules: seq<Rule>, m: Matcher, lines: seq<string>): (r: seq<Diagnostic>)
    decreases |lines|
    ensures |r| <= |lines|
  {
    if lines == [] then []
    else LineRecords(rules, m, lines[0]) + ParseSingle(rules, m, lines[1..])
  }

  /** The records of one line: none or one. */
  function LineRecords(rules: seq<Rule>, m: Matcher, line: string): (r: seq<Diagnostic>)
    ensures |r| <= 1
  {
    match ClassifyLine(rules, m, line)
    case Some(d) => [d]
    case None => []
  }

  /** Pass one is line-local: parsing two chunks of output separately and
      concatenating gives the records of the whole. */
  lemma {:induction false} ParseSingleAppend(rules: seq<Rule>, m: Matcher, a: seq<string>, b: seq<string>)
    decreases |a|
    ensures ParseSingle(rules, m, a + b) == ParseSingle(rules, m, a) + ParseSingle(rules, m, b)
  {
    if a != [] {
      var h := LineRecords(rules, m, a[0]);
      assert (a + b)[1..] == a[1..] + b;
      assert (a + b)[0] == a[0];
      calc {
        ParseSingle(rules, m, a + b);
        h + ParseSingle(rules, m, a[1..] + b);
        { ParseSingleAppend(rules, m, a[1..], b); }
        h + (ParseSingle(rules, m, a[1..]) + ParseSingle(rules, m, b));
        (h + ParseSingle(rules, m, a[1..])) + ParseSingle(rules, m, b);
      }
    } else {
      assert a + b == b;
    }
  }

  /** A line no rule matches contributes nothing. */
  lemma UnmatchedLineYieldsNothing(rules: seq<Rule>, m: Matcher, line: string)
    requires forall i | 0 <= i < |rules| :: m(rules[i].kind, line).None?
    ensures ParseSingle(rules, m, [line]) == []
  {
  }

  // ---------------------------------------------------------------------------
  // Two-line SCRIPT ERROR blocks
  // ---------------------------------------------------------------------------

  const Marker: string := "SCRIPT ERROR:"

  /** `SCRIPT ERROR:\s*(.+)` searched in `line`, group stripped: the text
      after the first marker, which must be non-empty. */
  function ScriptErrorMarker(line: string): (r: Option<string>)
    ensures r.Some? ==> Contains(line, Marker)
    ensures !Contains(line, Marker) ==> r.None?
  {
    match FindFrom(line, Marker, 0)
    case None => None
    case Some(i) =>
      var rest := line[i + |Marker|..];
      if rest == [] then None else Some(Strip(rest))
  }

  /** `\(res://([^:)]+):(\d+)\)` anchored at `p`: the file and line number. */
  function LocationAt(line: string, p: nat): Option<(string, nat)>
    requires p <= |line|
  {
    if !OccursAt(line, "(res://", p) then None
    else
      var q := p + 7;
      var e := RunUntil(line, q, ':', ')');
      if e == q || e == |line| || line[e] != ':' then None
      else
        var d := RunDigits(line, e + 1);
        if d == e + 1 || d == |line| || line[d] != ')' then None
        else Some((line[q..e], DigitsValue(line[e + 1..d])))
  }

  /** The rightmost position in `lo..hi` where `LocationAt` matches: the
      greedy `.*` before the location takes as much as it can. */
  function LastLocation(line: string, lo: nat, hi: nat): Option<(string, nat)>
    requires lo <= hi <= |line|
    decreases hi - lo
  {
    match LocationAt(line, hi)
    case Some(x) => Some(x)
    case None => if hi == lo then None else LastLocation(line, lo, hi - 1)
  }

  /** `at:.*\(res://([^:)]+):(\d+)\)` searched in `line`. */
  function AtLocation(line: string): Option<(string, nat)> {
    match FindFrom(line, "at:", 0)
    case None => None
    case Some(a) => LastLocation(line, a + 3, |line|)
  }

  /** What the correlation pass sees in a line. The marker test comes first,
      so a line carrying both a marker and a location is a marker line. */
  datatype LineKind = MarkerLine(message: string) | AtLine(file: string, line: nat) | BlankLine | OtherLine

  function KindOf(line: string): (k: LineKind)
    ensures k.MarkerLine? <==> ScriptErrorMarker(line).Some?
    ensures k.BlankLine? ==> Strip(line) == ""
    ensures k.OtherLine? ==> Strip(line) != ""
  {
    match ScriptErrorMarker(line)
    case Some(msg) => MarkerLine(msg)
    case None =>
      match AtLocation(line)
      case Some((f, n)) => AtLine(f, n)
      case None => if Strip(line) != "" then OtherLine else BlankLine
  }

  /** The record a location line resolves a pending message into. */
  function ScriptRecord(file: string, line: nat, message: string): Diagnostic {
    Diagnostic(ScriptError, "res://" + file, line, message, "Fix: " + message)
  }

  /** One step of the correlation state machine: the new pending slot and
      the record emitted, if any. A location line only matters while a
      message is pending. */
  function BlockStep(pending: Option<string>, k: LineKind): (Option<string>, Option<Diagnostic>) {
    match k
    case MarkerLine(msg) => (Some(msg), None)
    case AtLine(f, n) => if pending.Some? then (None, Some(ScriptRecord(f, n, pending.value))) else (None, None)
    case OtherLine => (None, None)
    case BlankLine => (pending, None)
  }

  /** The kind of every line, in order. */
  function Kinds(lines: seq<string>): (ks: seq<LineKind>)
    ensures |ks| == |lines| && forall i | 0 <= i < |lines| :: ks[i] == KindOf(lines[i])
  {
    seq(|lines|, i requires 0 <= i < |lines| => KindOf(lines[i]))
  }

  /** The correlation pass over classified lines, from a given pending slot. */
  function BlockPassFrom(ks: seq<LineKind>, pending: Option<string>): seq<Diagnostic>
    decreases |ks|
  {
    if ks == [] then []
    else
      var step := BlockStep(pending, ks[0]);
      (if step.1.Some? then [step.1.value] else []) + BlockPassFrom(ks[1..], step.0)
  }

  /** Pass two: the lines of the output, starting with an empty pending slot. */
  function BlockPass(lines: seq<string>): seq<Diagnostic> {
    BlockPassFrom(Kinds(lines), None)
  }

  /** Number of marker lines. */
  function MarkerCount(ks: seq<LineKind>): nat
    decreases |ks|
  {
    if ks == [] then 0
    else (if ks[0].MarkerLine? then 1 else 0) + MarkerCount(ks[1..])
  }

  /** Each marker line resolves into at most one record: the pass emits no
      more records than there are marker lines (plus the one already pending). */
  lemma {:induction false} BlockRecordsBounded(ks: seq<LineKind>, pending: Option<string>)
    decreases |ks|
    ensures |BlockPassFrom(ks, pending)| <= MarkerCount(ks) + (if pending.Some? then 1 else 0)
  {
    if ks != [] {
      BlockRecordsBounded(ks[1..], BlockStep(pending, ks[0]).0);
    }
  }

  /** The message is either the one pending at the start or that of a marker line. */
  ghost predicate FromMarker(message: string, ks: seq<LineKind>, pending: Option<string>) {
    (pending.Some? && message == pending.value)
    || exists i | 0 <= i < |ks| :: ks[i] == MarkerLine(message)
  }

  /** Every block record is a `script_error` whose message is the text of a
      marker line of the output (or of the slot pending at the start). */
  lemma {:induction false} BlockRecordsComeFromMarkers(ks: seq<LineKind>, pending: Option<string>)
    decreases |ks|
    ensures forall d | d in BlockPassFrom(ks, pending) ::
      d.category == ScriptError && FromMarker(d.message, ks, pending)
  {
    if ks != [] {
      var k := ks[0];
      var step := BlockStep(pending, k);
      var rest := BlockPassFrom(ks[1..], step.0);
      assert BlockPassFrom(ks, pending) == (if step.1.Some? then [step.1.value] else []) + rest;
      BlockRecordsComeFromMarkers(ks[1..], step.0);
      forall d | d in BlockPassFrom(ks, pending)
        ensures d.category == ScriptError && FromMarker(d.message, ks, pending)
      {
        if step.1.Some? && d == step.1.value {
          assert k.AtLine? && pending.Some?;
        } else {
          assert d in rest;
          assert FromMarker(d.message, ks[1..], step.0);
          if step.0.Some? && d.message == step.0.value {
            if k.MarkerLine? {
              assert ks[0] == MarkerLine(d.message);
            } else {
              assert k.BlankLine? && step.0 == pending;
            }
          } else {
            var i :| 0 <= i < |ks[1..]| && ks[1..][i] == MarkerLine(d.message);
            assert ks[i + 1] == MarkerLine(d.message);
          }
        }
      }
    }
  }

  /** Blank lines between a marker and its location keep the pending
      message: pending message, blanks, location yields exactly one record. */
  lemma {:induction false} BlanksKeepPending(msg: string, blanks: seq<LineKind>, at: LineKind)
    requires forall i | 0 <= i < |blanks| :: blanks[i].BlankLine?
    requires at.AtLine?
    decreases |blanks|
    ensures BlockPassFrom(blanks + [at], Some(msg)) == [ScriptRecord(at.file, at.line, msg)]
  {
    if blanks == [] {
      assert blanks + [at] == [at];
    } else {
      assert (blanks + [at])[0] == blanks[0];
      assert (blanks + [at])[1..] == blanks[1..] + [at];
      BlanksKeepPending(msg, blanks[1..], at);
    }
  }

  /** Any other non-blank line between a marker and a location drops the
      pending message, so the location line yields nothing. */
  lemma InterruptionDropsPending(msg: string, at: LineKind)
    requires !at.MarkerLine?
    ensures BlockPassFrom([OtherLine, at], Some(msg)) == []
  {
    assert [OtherLine, at][1..] == [at];
    assert [at][1..] == [];
    assert BlockPassFrom([at], None) == [] + BlockPassFrom([], None);
    assert BlockPassFrom([OtherLine, at], Some(msg)) == [] + BlockPassFrom([at], None);
  }

  /** A later marker overwrites the pending message: the location line then
      resolves with the newer message. */
  lemma MarkerOverwritesPending(earlier: string, msg: string, at: LineKind)
    requires at.AtLine?
    ensures BlockPassFrom([MarkerLine(msg), at], Some(earlier)) == [ScriptRecord(at.file, at.line, msg)]
  {
    assert [MarkerLine(msg), at][1..] == [at];
    assert BlockPassFrom([MarkerLine(msg), at], Some(earlier)) == [] + BlockPassFrom([at], Some(msg));
    BlanksKeepPending(msg, [], at);
    assert [] + [at] == [at];
  }

  /** Output whose lines classify as a marker, blank lines and a location:
      the block pass reports the location with the marker's message. */
  lemma ScriptErrorBlock(lines: seq<string>, msg: string, blanks: seq<LineKind>, file: string, line: nat)
    requires Kinds(lines) == [MarkerLine(msg)] + blanks + [AtLine(file, line)]
    requires forall i | 0 <= i < |blanks| :: blanks[i].BlankLine?
    ensures BlockPass(lines) == [ScriptRecord(file, line, msg)]
  {
    var ks := Kinds(lines);
    assert ks[1..] == blanks + [AtLine(file, line)];
    BlanksKeepPending(msg, blanks, AtLine(file, line));
  }

  // ---------------------------------------------------------------------------
  // Merge
  // ---------------------------------------------------------------------------

  datatype Loc = Loc(file: string, line: nat)

  function LocOf(d: Diagnostic): Loc {
    Loc(d.file, d.line)
  }

  function LocsOf(ds: seq<Diagnostic>): set<Loc> {
    set d | d in ds :: LocOf(d)
  }

  /** The block records whose (file, line) is not yet seen, each location
      kept once, at its first occurrence. */
  function Dedup(seen: set<Loc>, block: seq<Diagnostic>): (r: seq<Diagnostic>)
    decreases |block|
    ensures forall d | d in r :: d in block && LocOf(d) !in seen
    ensures forall i, j | 0 <= i < j < |r| :: LocOf(r[i]) != LocOf(r[j])
    ensures forall d | d in block && LocOf(d) !in seen :: LocOf(d) in LocsOf(r)
  {
    if block == [] then []
    else if LocOf(block[0]) in seen then Dedup(seen, block[1..])
    else
      var rest := Dedup(seen + {LocOf(block[0])}, block[1..]);
      var r := [block[0]] + rest;
      assert LocOf(block[0]) in LocsOf(r);
      assert forall d | d in rest :: d in r;
      r
  }

  /** Single-pass records first, then the block records whose location is
      new. */
  function Merge(single: seq<Diagnostic>, block: seq<Diagnostic>): (r: seq<Diagnostic>)
    ensures |r| >= |single| && r[..|single|] == single
    ensures forall i | |single| <= i < |r| :: r[i] in block && LocOf(r[i]) !in LocsOf(single)
    ensures forall i, j | |single| <= i < j < |r| :: LocOf(r[i]) != LocOf(r[j])
    ensures LocsOf(r) == LocsOf(single) + LocsOf(block)
  {
    var extra := Dedup(LocsOf(single), block);
    var r := single + extra;
    assert r[..|single|] == single;
    forall i | |single| <= i < |r| ensures r[i] in block && LocOf(r[i]) !in LocsOf(single) {
      assert r[i] == extra[i - |single|];
    }
    forall i, j | |single| <= i < j < |r| ensures LocOf(r[i]) != LocOf(r[j]) {
      assert r[i] == extra[i - |single|] && r[j] == extra[j - |single|];
    }
    assert LocsOf(r) == LocsOf(single) + LocsOf(extra);
    r
  }

  /** Block record `i` is the first in the block at its location, and no
      single-line record holds that location. */
  predicate FirstNew(seen: set<Loc>, block: seq<Diagnostic>, i: nat)
    requires i < |block|
  {
    LocOf(block[i]) !in seen && forall j | 0 <= j < i :: LocOf(block[j]) != LocOf(block[i])
  }

  /** Reference filter: the block records from index `i` on that are first
      and new at their location, in block order. */
  function FirstsFrom(seen: set<Loc>, block: seq<Diagnostic>, i: nat): seq<Diagnostic>
    requires i <= |block|
    decreases |block| - i
  {
    if i == |block| then []
    else if FirstNew(seen, block, i) then [block[i]] + FirstsFrom(seen, block, i + 1)
    else FirstsFrom(seen, block, i + 1)
  }

  lemma LocsOfSnoc(ds: seq<Diagnostic>, i: nat)
    requires i < |ds|
    ensures LocsOf(ds[..i + 1]) == LocsOf(ds[..i]) + {LocOf(ds[i])}
  {
    assert ds[..i + 1] == ds[..i] + [ds[i]];
  }

  /** Deduplicating the rest of the block, having seen the locations before
      index `i`, keeps exactly the first new records from `i` on. */
  lemma {:induction false} DedupIsFirsts(seen: set<Loc>, block: seq<Diagnostic>, i: nat)
    requires i <= |block|
    decreases |block| - i
    ensures Dedup(seen + LocsOf(block[..i]), block[i..]) == FirstsFrom(seen, block, i)
  {
    if i < |block| {
      var x := block[i];
      var s := seen + LocsOf(block[..i]);
      assert block[i..][0] == x && block[i..][1..] == block[i + 1..];
      LocsOfSnoc(block, i);
      assert seen + LocsOf(block[..i + 1]) == s + {LocOf(x)};
      if FirstNew(seen, block, i) {
        assert LocOf(x) !in LocsOf(block[..i]);
        assert Dedup(s, block[i..]) == [x] + Dedup(s + {LocOf(x)}, block[i + 1..]);
      } else {
        if LocOf(x) !in seen {
          var j :| 0 <= j < i && LocOf(block[j]) == LocOf(x);
          assert block[..i][j] == block[j];
        }
        assert LocOf(x) in s;
        assert s + {LocOf(x)} == s;
        assert Dedup(s, block[i..]) == Dedup(s, block[i + 1..]);
      }
      DedupIsFirsts(seen, block, i + 1);
    } else {
      assert block[i..] == [];
    }
  }

  /** The merge keeps every single-line record, then, in block order, each
      block record that is the first at its location and whose location no
      single-line record holds. */
  lemma MergeKeepsFirstNew(single: seq<Diagnostic>, block: seq<Diagnostic>)
    ensures Merge(single, block) == single + FirstsFrom(LocsOf(single), block, 0)
  {
    assert block[..0] == [] && block[0..] == block;
    assert LocsOf(single) + LocsOf(block[..0]) == LocsOf(single);
    DedupIsFirsts(LocsOf(single), block, 0);
  }

  /** `parse_godot_errors`: both passes over the lines of the output, merged. */
  function ParseOutput(m: Matcher, output: string): seq<Diagnostic> {
    var ls := Lines(output);
    Merge(ParseSingle(ErrorPatterns, m, ls), BlockPass(ls))
  }

  /** The parsed output starts with every single-line record, in line
      order, and adds only script-error blocks at places no single-line
      record already covers. */
  lemma ParseOutputSpec(m: Matcher, output: string)
    ensures var r := ParseOutput(m, output);
      var single := ParseSingle(ErrorPatterns, m, Lines(output));
      && |r| >= |single| && r[..|single|] == single
      && forall i | |single| <= i < |r| :: r[i].category == ScriptError && LocOf(r[i]) !in LocsOf(single)
  {
    var ls := Lines(output);
    BlockRecordsComeFromMarkers(Kinds(ls), None);
  }
}
