/** Strategy selection (`strategy.py`): from the cycle history, choose to
    explore something new, retry the last target or pivot away from it,
    with advice text; plus what the game already has, the feature
    prerequisites and the domain nudge that feed into that advice. */
module Strategy {
  import opened Opt
  import opened Text
  import opened CycleLog

  /** `cycle.get(key, default)`. */
  function Get(rec: Record, key: string, default: string): (r: string)
    ensures key in rec ==> r == rec[key]
    ensures key !in rec ==> r == default
  {
    if key in rec then rec[key] else default
  }

  /** `xs[-n:]` for a positive `n`: the newest `n` elements, or all. */
  function Newest<T>(xs: seq<T>, n: nat): (r: seq<T>)
    ensures |r| == (if |xs| > n then n else |xs|)
    ensures r == xs[|xs| - |r|..]
  {
    if |xs| > n then xs[|xs| - n..] else xs
  }

  /** Taking the newest `k` of the newest `n` is taking the newest `k`. */
  lemma NewestOfNewest<T>(xs: seq<T>, n: nat, k: nat)
    requires k <= n
    ensures Newest(Newest(xs, n), k) == Newest(xs, k)
  {
  }

  predicate Failed(rec: Record) {
    "result" in rec && rec["result"] == "fail"
  }

  // ---------------------------------------------------------------------------
  // Error patterns
  // ---------------------------------------------------------------------------

  datatype Pattern = ComplexityBudget | IntentCheck | PreValidation | NoOutput

  /** The category of a failure message: the first test that matches. */
  function Classify(error: string): Option<Pattern> {
    if Contains(error, "Complexity budget") then Some(ComplexityBudget)
    else if Contains(error, "Intent check") then Some(IntentCheck)
    else if Contains(error, "Pre-validation") || Contains(Lower(error), "preload") then Some(PreValidation)
    else if Contains(error, "LLM returned no files") then Some(NoOutput)
    else None
  }

  /** The categories of the failed records, oldest first. */
  function FailurePatterns(recs: seq<Record>): (ps: seq<Pattern>)
    decreases |recs|
    ensures |ps| <= |recs|
  {
    if recs == [] then []
    else
      var here := if Failed(recs[0]) then Classify(Get(recs[0], "error", "")) else None;
      (if here.Some? then [here.value] else []) + FailurePatterns(recs[1..])
  }

  /** A dictionary of counts: its keys in insertion order and the counts. */
  datatype Tally = Tally(order: seq<Pattern>, counts: map<Pattern, nat>)

  /** `patterns[p] = patterns.get(p, 0) + 1`. */
  function Bump(t: Tally, p: Pattern): Tally {
    if p in t.counts then Tally(t.order, t.counts[p := t.counts[p] + 1])
    else Tally(t.order + [p], t.counts[p := 1])
  }

  /** `_analyze_error_patterns` over the categories, in the order met. */
  function TallyOf(ps: seq<Pattern>): Tally
    decreases |ps|
  {
    if ps == [] then Tally([], map[])
    else Bump(TallyOf(ps[..|ps| - 1]), ps[|ps| - 1])
  }

  /** Where a category first occurs. */
  function FirstIndex(ps: seq<Pattern>, p: Pattern): (i: nat)
    requires p in ps
    decreases |ps|
    ensures i < |ps|
  {
    if ps[0] == p then 0 else 1 + FirstIndex(ps[1..], p)
  }

  lemma {:induction false} FirstIndexAt(ps: seq<Pattern>, p: Pattern)
    requires p in ps
    decreases |ps|
    ensures ps[FirstIndex(ps, p)] == p
    ensures forall j | 0 <= j < FirstIndex(ps, p) :: ps[j] != p
  {
    if ps[0] != p {
      FirstIndexAt(ps[1..], p);
    }
  }

  lemma {:induction false} FirstIndexAppend(ps: seq<Pattern>, x: Pattern, p: Pattern)
    requires p in ps + [x]
    decreases |ps|
    ensures p in ps ==> FirstIndex(ps + [x], p) == FirstIndex(ps, p)
    ensures p !in ps ==> FirstIndex(ps + [x], p) == |ps|
  {
    if ps == [] {
    } else {
      assert (ps + [x])[0] == ps[0] && (ps + [x])[1..] == ps[1..] + [x];
      if ps[0] != p {
        FirstIndexAppend(ps[1..], x, p);
      }
    }
  }

  /** What the dictionary holds after counting `ps`: each category met,
      once, in the order first met, with the number of times it occurs. */
  ghost predicate Counted(t: Tally, ps: seq<Pattern>) {
    && (forall p :: p in t.counts <==> p in ps)
    && (forall p :: p in t.counts <==> p in t.order)
    && (forall p | p in t.counts :: t.counts[p] == multiset(ps)[p])
    && (forall i, j | 0 <= i < j < |t.order| :: FirstIndex(ps, t.order[i]) < FirstIndex(ps, t.order[j]))
  }

  lemma {:induction false} TallyCounts(ps: seq<Pattern>)
    decreases |ps|
    ensures Counted(TallyOf(ps), ps)
  {
    if ps != [] {
      var prev := ps[..|ps| - 1];
      var x := ps[|ps| - 1];
      assert ps == prev + [x];
      TallyCounts(prev);
      BumpCounts(TallyOf(prev), prev, x);
    }
  }

  lemma BumpCounts(t: Tally, ps: seq<Pattern>, x: Pattern)
    requires Counted(t, ps)
    ensures Counted(Bump(t, x), ps + [x])
  {
    BumpMembers(t, ps, x);
    BumpOrder(t, ps, x);
  }

  lemma BumpMembers(t: Tally, ps: seq<Pattern>, x: Pattern)
    requires Counted(t, ps)
    ensures var u := Bump(t, x);
      && (forall p :: p in u.counts <==> p in ps + [x])
      && (forall p :: p in u.counts <==> p in u.order)
      && (forall p | p in u.counts :: u.counts[p] == multiset(ps + [x])[p])
  {
    assert multiset(ps + [x]) == multiset(ps) + multiset{x};
  }

  lemma BumpOrder(t: Tally, ps: seq<Pattern>, x: Pattern)
    requires Counted(t, ps)
    ensures var u := Bump(t, x);
      forall i, j | 0 <= i < j < |u.order| :: FirstIndex(ps + [x], u.order[i]) < FirstIndex(ps + [x], u.order[j])
  {
    var u := Bump(t, x);
    var qs := ps + [x];
    forall i, j | 0 <= i < j < |u.order|
      ensures FirstIndex(qs, u.order[i]) < FirstIndex(qs, u.order[j])
    {
      assert u.order[i] == t.order[i];
      assert t.order[i] in ps;
      FirstIndexAppend(ps, x, t.order[i]);
      FirstIndexAppend(ps, x, u.order[j]);
      if j < |t.order| {
        assert u.order[j] == t.order[j];
      } else {
        assert u.order[j] == x && x !in ps;
      }
    }
  }

  /** The first category in insertion order counted at least twice. */
  function FirstFrequent(order: seq<Pattern>, counts: map<Pattern, nat>): Option<Pattern>
    decreases |order|
  {
    if order == [] then None
    else if order[0] in counts && counts[order[0]] >= 2 then Some(order[0])
    else FirstFrequent(order[1..], counts)
  }

  lemma {:induction false} FirstFrequentSpec(order: seq<Pattern>, counts: map<Pattern, nat>)
    decreases |order|
    ensures FirstFrequent(order, counts).None? ==>
      forall i | 0 <= i < |order| :: !(order[i] in counts && counts[order[i]] >= 2)
    ensures FirstFrequent(order, counts).Some? ==> exists i | 0 <= i < |order| :: FrequentAt(order, counts, i)
  {
    if order != [] && !(order[0] in counts && counts[order[0]] >= 2) {
      FirstFrequentSpec(order[1..], counts);
      if FirstFrequent(order, counts).Some? {
        var i :| 0 <= i < |order| - 1 && FrequentAt(order[1..], counts, i);
        assert FrequentAt(order, counts, i + 1);
      }
    } else if order != [] {
      assert FrequentAt(order, counts, 0);
    }
  }

  /** Entry `i` is the first one counted at least twice, and it is the
      pick. */
  ghost predicate FrequentAt(order: seq<Pattern>, counts: map<Pattern, nat>, i: nat)
    requires i < |order|
  {
    && FirstFrequent(order, counts) == Some(order[i])
    && order[i] in counts && counts[order[i]] >= 2
    && forall j | 0 <= j < i :: !(order[j] in counts && counts[order[j]] >= 2)
  }

  /** The advice category of a history: among the last five records. */
  function AdviceOf(cycles: seq<Record>): Option<Pattern> {
    var t := TallyOf(FailurePatterns(Newest(cycles, 5)));
    FirstFrequent(t.order, t.counts)
  }

  /** The advice goes to the category occurring at least twice whose
      first occurrence is earliest, not to the most frequent one; with no
      category occurring twice there is none. */
  lemma AdviceIsEarliestFrequent(ps: seq<Pattern>, p: Pattern)
    ensures var t := TallyOf(ps);
      FirstFrequent(t.order, t.counts) == Some(p) <==> EarliestFrequent(ps, p)
  {
    var t := TallyOf(ps);
    TallyCounts(ps);
    match FirstFrequent(t.order, t.counts)
    case None =>
      NoPickNoneFrequent(t, ps, p);
    case Some(w) =>
      PickIsEarliest(t, ps, w);
      if EarliestFrequent(ps, p) {
        EarliestUnique(ps, p, w);
      }
  }

  /** `p` occurs at least twice, and no other category occurring at least
      twice occurs first earlier. */
  ghost predicate EarliestFrequent(ps: seq<Pattern>, p: Pattern) {
    multiset(ps)[p] >= 2 && forall q | multiset(ps)[q] >= 2 :: FirstIndex(ps, p) <= FirstIndex(ps, q)
  }

  lemma PickIsEarliest(t: Tally, ps: seq<Pattern>, w: Pattern)
    requires Counted(t, ps) && FirstFrequent(t.order, t.counts) == Some(w)
    ensures EarliestFrequent(ps, w)
  {
    FirstFrequentSpec(t.order, t.counts);
    var i :| 0 <= i < |t.order| && FrequentAt(t.order, t.counts, i);
    assert t.order[i] == w;
    forall q | multiset(ps)[q] >= 2 ensures FirstIndex(ps, w) <= FirstIndex(ps, q) {
      assert q in t.counts;
      var j :| 0 <= j < |t.order| && t.order[j] == q;
      assert !(j < i);
    }
  }

  lemma NoPickNoneFrequent(t: Tally, ps: seq<Pattern>, p: Pattern)
    requires Counted(t, ps) && FirstFrequent(t.order, t.counts).None?
    ensures !EarliestFrequent(ps, p)
  {
    FirstFrequentSpec(t.order, t.counts);
    if p in t.order {
      var j :| 0 <= j < |t.order| && t.order[j] == p;
      assert t.counts[p] < 2;
    }
  }

  lemma EarliestUnique(ps: seq<Pattern>, p: Pattern, w: Pattern)
    requires EarliestFrequent(ps, p) && EarliestFrequent(ps, w)
    ensures p == w
  {
    FirstIndexAt(ps, p);
    FirstIndexAt(ps, w);
    assert FirstIndex(ps, p) <= FirstIndex(ps, w) <= FirstIndex(ps, p);
  }

  /** A concrete case: intent-check failures first and last, three
      budget failures between them; the intent advice is chosen although
      the budget failures are more frequent. */
  lemma FirstFrequentNotMostFrequent()
    ensures var ps := [IntentCheck, ComplexityBudget, ComplexityBudget, ComplexityBudget, IntentCheck];
      var t := TallyOf(ps);
      FirstFrequent(t.order, t.counts) == Some(IntentCheck)
      && multiset(ps)[ComplexityBudget] > multiset(ps)[IntentCheck]
  {
    var ps := [IntentCheck, ComplexityBudget, ComplexityBudget, ComplexityBudget, IntentCheck];
    assert multiset(ps)[IntentCheck] == 2 && multiset(ps)[ComplexityBudget] == 3;
    assert FirstIndex(ps, IntentCheck) == 0;
    AdviceIsEarliestFrequent(ps, IntentCheck);
  }

  function AdviceText(p: Pattern): string {
    match p
    case ComplexityBudget =>
      "PATTERN: Recent failures are hitting the complexity budget. "
      + "Keep it to 2 files max, under 300 lines total. "
      + "Edit existing files rather than creating new ones."
    case IntentCheck =>
      "PATTERN: Recent code didn't match the stated intent. "
      + "Be precise about what you're building and make sure the code actually does it."
    case PreValidation =>
      "PATTERN: Recent failures have bad resource paths or syntax errors. "
      + "Double-check all res:// paths and bracket matching."
    case NoOutput =>
      "PATTERN: Recent attempts produced no files. "
      + "Make sure to include concrete file changes, not just descriptions."
  }

  // ---------------------------------------------------------------------------
  // What the game has
  // ---------------------------------------------------------------------------

  /** `GameCapabilities`: the names found for each kind of content. */
  datatype Capabilities = Capabilities(
    enemies: seq<string>,
    items: seq<string>,
    rooms: seq<string>,
    mechanics: seq<string>,
    uiElements: seq<string>,
    autoloads: seq<string>)

  /** The kinds as the summary lists them: label and names. */
  function Kinds(c: Capabilities): seq<(string, seq<string>)> {
    [("Enemies", c.enemies), ("Items", c.items), ("Rooms", c.rooms),
     ("Mechanics", c.mechanics), ("UI", c.uiElements), ("Autoloads", c.autoloads)]
  }

  /** One line per kind that has names. */
  function KindLines(kinds: seq<(string, seq<string>)>): seq<string>
    decreases |kinds|
  {
    if kinds == [] then []
    else
      (if kinds[0].1 != [] then ["- **" + kinds[0].0 + "**: " + Join(kinds[0].1, ", ")] else [])
      + KindLines(kinds[1..])
  }

  function NonEmptyKinds(kinds: seq<(string, seq<string>)>): nat
    decreases |kinds|
  {
    if kinds == [] then 0 else (if kinds[0].1 != [] then 1 else 0) + NonEmptyKinds(kinds[1..])
  }

  lemma {:induction false} KindLinesSpec(kinds: seq<(string, seq<string>)>)
    decreases |kinds|
    ensures |KindLines(kinds)| == NonEmptyKinds(kinds)
    ensures forall i | 0 <= i < |KindLines(kinds)| :: |KindLines(kinds)[i]| > 0 && KindLines(kinds)[i][0] == '-'
  {
    if kinds != [] {
      KindLinesSpec(kinds[1..]);
    }
  }

  const EmptyGame: string := "(empty game \U{2014} nothing built yet)"

  /** `GameCapabilities.summary`. */
  function Summary(c: Capabilities): string {
    var lines := KindLines(Kinds(c));
    if lines == [] then EmptyGame else Join(lines, "\n")
  }

  /** One line per kind that has something, so the placeholder appears
      exactly when nothing has been found. */
  lemma SummaryCountsKinds(c: Capabilities)
    ensures |KindLines(Kinds(c))| ==
      (if c.enemies != [] then 1 else 0) + (if c.items != [] then 1 else 0) + (if c.rooms != [] then 1 else 0)
      + (if c.mechanics != [] then 1 else 0) + (if c.uiElements != [] then 1 else 0) + (if c.autoloads != [] then 1 else 0)
    ensures Summary(c) == EmptyGame <==> c == Capabilities([], [], [], [], [], [])
  {
    var k := Kinds(c);
    KindLinesSpec(k);
    KindCount(c);
    var lines := KindLines(k);
    if lines != [] {
      JoinStartsWithDash(lines);
      assert EmptyGame[0] == '(';
    }
  }

  lemma KindCount(c: Capabilities)
    ensures NonEmptyKinds(Kinds(c)) ==
      (if c.enemies != [] then 1 else 0) + (if c.items != [] then 1 else 0) + (if c.rooms != [] then 1 else 0)
      + (if c.mechanics != [] then 1 else 0) + (if c.uiElements != [] then 1 else 0) + (if c.autoloads != [] then 1 else 0)
  {
    var k := Kinds(c);
    assert NonEmptyKinds(k[5..]) == (if c.autoloads != [] then 1 else 0) by {
      assert k[5..][1..] == [];
    }
    assert NonEmptyKinds(k[4..]) == (if c.uiElements != [] then 1 else 0) + NonEmptyKinds(k[5..]) by {
      assert k[4..][1..] == k[5..];
    }
    assert NonEmptyKinds(k[3..]) == (if c.mechanics != [] then 1 else 0) + NonEmptyKinds(k[4..]) by {
      assert k[3..][1..] == k[4..];
    }
    assert NonEmptyKinds(k[2..]) == (if c.rooms != [] then 1 else 0) + NonEmptyKinds(k[3..]) by {
      assert k[2..][1..] == k[3..];
    }
    assert NonEmptyKinds(k[1..]) == (if c.items != [] then 1 else 0) + NonEmptyKinds(k[2..]) by {
      assert k[1..][1..] == k[2..];
    }
  }

  /** A joined summary starts with its first line's dash. */
  lemma JoinStartsWithDash(lines: seq<string>)
    requires lines != [] && |lines[0]| > 0 && lines[0][0] == '-'
    ensures |Join(lines, "\n")| > 0 && Join(lines, "\n")[0] == '-'
  {
  }

  /** `getattr(capabilities, dep, [])` for the attribute names the table
      uses and the others. */
  function CapList(c: Capabilities, name: string): seq<string> {
    if name == "enemies" then c.enemies
    else if name == "items" then c.items
    else if name == "rooms" then c.rooms
    else if name == "mechanics" then c.mechanics
    else if name == "ui_elements" then c.uiElements
    else if name == "autoloads" then c.autoloads
    else []
  }

  /** `FEATURE_DEPENDENCIES`, in its order. */
  const Dependencies: seq<(string, seq<string>)> := [
    ("boss", ["enemies"]),
    ("shop", ["items"]),
    ("inventory", ["items"]),
    ("quest", ["rooms", "items"]),
    ("npc_dialog", ["rooms"]),
    ("minimap", ["rooms"]),
    ("equipment", ["items"]),
    ("crafting", ["items"])
  ]

  /** The prerequisites listed for `key`, or none. */
  function Lookup(table: seq<(string, seq<string>)>, key: string): (r: seq<string>)
    decreases |table|
  {
    if table == [] then []
    else if table[0].0 == key then table[0].1
    else Lookup(table[1..], key)
  }

  lemma {:induction false} LookupSpec(table: seq<(string, seq<string>)>, key: string)
    decreases |table|
    ensures (forall i | 0 <= i < |table| :: table[i].0 != key) ==> Lookup(table, key) == []
    ensures forall i | 0 <= i < |table| && table[i].0 == key && (forall j | 0 <= j < i :: table[j].0 != key) ::
      Lookup(table, key) == table[i].1
  {
    if table != [] {
      LookupSpec(table[1..], key);
      forall i | 0 <= i < |table| && table[i].0 == key && (forall j | 0 <= j < i :: table[j].0 != key)
        ensures Lookup(table, key) == table[i].1
      {
        if i > 0 {
          assert table[0].0 != key;
          assert table[1..][i - 1] == table[i];
          forall j | 0 <= j < i - 1 ensures table[1..][j].0 != key {
            assert table[1..][j] == table[j + 1];
          }
        }
      }
    }
  }

  /** The prerequisites, in order, whose capability list is empty. */
  function Missing(deps: seq<string>, c: Capabilities): (r: seq<string>)
    decreases |deps|
  {
    if deps == [] then []
    else (if CapList(c, deps[0]) == [] then [deps[0]] else []) + Missing(deps[1..], c)
  }

  lemma {:induction false} MissingSpec(deps: seq<string>, c: Capabilities)
    decreases |deps|
    ensures forall d :: d in Missing(deps, c) <==> d in deps && CapList(c, d) == []
  {
    if deps != [] {
      MissingSpec(deps[1..], c);
      assert forall d :: d in deps <==> d == deps[0] || d in deps[1..];
    }
  }

  /** `check_dependencies`: the feature name is compared in lower case. */
  function CheckDependencies(feature: string, c: Capabilities): (missing: seq<string>)
    ensures |missing| <= |Lookup(Dependencies, Lower(feature))|
  {
    MissingLength(Lookup(Dependencies, Lower(feature)), c);
    Missing(Lookup(Dependencies, Lower(feature)), c)
  }

  lemma {:induction false} MissingLength(deps: seq<string>, c: Capabilities)
    decreases |deps|
    ensures |Missing(deps, c)| <= |deps|
  {
    if deps != [] {
      MissingLength(deps[1..], c);
    }
  }

  /** A missing prerequisite is one the table lists for the feature and
      the game has nothing of; a feature the table does not know needs
      nothing. */
  lemma CheckDependenciesSpec(feature: string, c: Capabilities)
    ensures forall d :: d in CheckDependencies(feature, c) <==> d in Lookup(Dependencies, Lower(feature)) && CapList(c, d) == []
    ensures (forall i | 0 <= i < |Dependencies| :: Dependencies[i].0 != Lower(feature)) ==> CheckDependencies(feature, c) == []
  {
    MissingSpec(Lookup(Dependencies, Lower(feature)), c);
    LookupSpec(Dependencies, Lower(feature));
  }

  /** A quest in a game with nothing yet needs rooms and items, in that
      order; with both present it needs nothing. */
  lemma QuestNeedsRoomsAndItems(c: Capabilities)
    ensures CheckDependencies("quest", Capabilities([], [], [], [], [], [])) == ["rooms", "items"]
    ensures c.rooms != [] && c.items != [] ==> CheckDependencies("quest", c) == []
  {
    assert Lower("quest") == "quest";
    assert Dependencies[3] == ("quest", ["rooms", "items"]);
    LookupSpec(Dependencies, "quest");
    assert Lookup(Dependencies, "quest") == ["rooms", "items"];
    var deps := ["rooms", "items"];
    assert deps[1..] == ["items"] && deps[1..][1..] == [];
  }

  // ---------------------------------------------------------------------------
  // Domain cooldown
  // ---------------------------------------------------------------------------

  /** `get_recent_domains` over records: the domain of each non-empty
      target, oldest first. `classify` stands for `classify_file_domain`,
      which is not part of this model. */
  function TargetDomains(recs: seq<Record>, classify: string -> string): (r: seq<string>)
    decreases |recs|
    ensures |r| <= |recs|
  {
    if recs == [] then []
    else
      var target := Get(recs[0], "target", "");
      (if target != "" then [classify(target)] else []) + TargetDomains(recs[1..], classify)
  }

  /** The domains of the newest five records' non-empty targets: every
      such target's domain is listed, and nothing else is. */
  function RecentDomains(cycles: seq<Record>, classify: string -> string): (r: seq<string>)
    ensures |r| <= 5
    ensures forall i | 0 <= i < |cycles| && |cycles| - 5 <= i && Get(cycles[i], "target", "") != "" ::
      classify(Get(cycles[i], "target", "")) in r
    ensures forall d | d in r :: exists i | 0 <= i < |cycles| && |cycles| - 5 <= i ::
      Get(cycles[i], "target", "") != "" && d == classify(Get(cycles[i], "target", ""))
  {
    var recent := Newest(cycles, 5);
    var skip := |cycles| - |recent|;
    TargetDomainsSpec(recent, classify);
    assert forall i | skip <= i < |cycles| :: cycles[i] == recent[i - skip];
    assert forall d | d in TargetDomains(recent, classify) :: exists i | 0 <= i < |cycles| && |cycles| - 5 <= i ::
      Get(cycles[i], "target", "") != "" && d == classify(Get(cycles[i], "target", "")) by {
      forall d | d in TargetDomains(recent, classify)
        ensures exists i | 0 <= i < |cycles| && |cycles| - 5 <= i ::
          Get(cycles[i], "target", "") != "" && d == classify(Get(cycles[i], "target", ""))
      {
        var j :| 0 <= j < |recent| && Get(recent[j], "target", "") != "" && d == classify(Get(recent[j], "target", ""));
        assert cycles[j + skip] == recent[j];
      }
    }
    TargetDomains(recent, classify)
  }

  /** The recent domains are exactly the domains of the non-empty targets. */
  lemma {:induction false} TargetDomainsSpec(recs: seq<Record>, classify: string -> string)
    decreases |recs|
    ensures forall d | d in TargetDomains(recs, classify) ::
      exists i | 0 <= i < |recs| :: Get(recs[i], "target", "") != "" && d == classify(Get(recs[i], "target", ""))
    ensures forall i | 0 <= i < |recs| && Get(recs[i], "target", "") != "" ::
      classify(Get(recs[i], "target", "")) in TargetDomains(recs, classify)
  {
    if recs != [] {
      TargetDomainsSpec(recs[1..], classify);
      forall d | d in TargetDomains(recs[1..], classify)
        ensures exists i | 0 <= i < |recs| :: Get(recs[i], "target", "") != "" && d == classify(Get(recs[i], "target", ""))
      {
        var i :| 0 <= i < |recs| - 1 && Get(recs[1..][i], "target", "") != "" && d == classify(Get(recs[1..][i], "target", ""));
        assert recs[1..][i] == recs[i + 1];
      }
      forall i | 1 <= i < |recs| && Get(recs[i], "target", "") != ""
        ensures classify(Get(recs[i], "target", "")) in TargetDomains(recs, classify)
      {
        assert recs[1..][i - 1] == recs[i];
      }
    }
  }

  /** The four domains in their fixed order, with how much of each the
      game has. */
  function DomainCounts(c: Capabilities): seq<(string, nat)> {
    [("enemies", |c.enemies|), ("items", |c.items|), ("rooms", |c.rooms|), ("ui", |c.uiElements|)]
  }

  /** The position of the untouched domain with the fewest entries, the
      earliest among equals, as a stable sort by count puts first. */
  function Fewest(ds: seq<(string, nat)>, recent: seq<string>): (r: Option<nat>)
    decreases |ds|
    ensures r.Some? ==> r.value < |ds|
  {
    if ds == [] then None
    else
      var rest := Fewest(ds[1..], recent);
      if ds[0].0 in recent then (if rest.Some? then Some(rest.value + 1) else None)
      else if rest.Some? && ds[rest.value + 1].1 < ds[0].1 then Some(rest.value + 1)
      else Some(0)
  }

  /** Entry `i` is untouched, has no more entries than any untouched one,
      and comes first among the untouched ones with as few. */
  ghost predicate FewestAt(ds: seq<(string, nat)>, recent: seq<string>, i: nat)
    requires i < |ds|
  {
    && ds[i].0 !in recent
    && forall j | 0 <= j < |ds| && ds[j].0 !in recent :: ds[i].1 < ds[j].1 || (ds[i].1 == ds[j].1 && i <= j)
  }

  lemma {:induction false} FewestSpec(ds: seq<(string, nat)>, recent: seq<string>)
    decreases |ds|
    ensures Fewest(ds, recent).None? <==> forall i | 0 <= i < |ds| :: ds[i].0 in recent
    ensures Fewest(ds, recent).Some? ==> FewestAt(ds, recent, Fewest(ds, recent).value)
  {
    if ds != [] {
      var tail := ds[1..];
      FewestSpec(tail, recent);
      assert forall j | 1 <= j < |ds| :: ds[j] == tail[j - 1];
      var rest := Fewest(tail, recent);
      if rest.Some? {
        var k := rest.value;
        assert FewestAt(tail, recent, k);
        assert ds[k + 1] == tail[k];
      }
    }
  }

  /** `suggest_underrepresented_domain`. */
  function Suggest(c: Capabilities, recent: seq<string>): Option<string> {
    var ds := DomainCounts(c);
    match Fewest(ds, recent)
    case None => None
    case Some(i) => Some(ds[i].0)
  }

  /** No suggestion exactly when all four domains were touched recently;
      otherwise an untouched domain with the fewest entries, the earliest
      in the order enemies, items, rooms, ui among equals. */
  lemma SuggestSpec(c: Capabilities, recent: seq<string>)
    ensures var ds := DomainCounts(c);
      && (Suggest(c, recent).None? <==> "enemies" in recent && "items" in recent && "rooms" in recent && "ui" in recent)
      && (Suggest(c, recent).Some? ==> exists i | 0 <= i < 4 :: Suggest(c, recent).value == ds[i].0 && FewestAt(ds, recent, i))
  {
    var ds := DomainCounts(c);
    FewestSpec(ds, recent);
    assert ds[0].0 == "enemies" && ds[1].0 == "items" && ds[2].0 == "rooms" && ds[3].0 == "ui";
    if Fewest(ds, recent).Some? {
      var i := Fewest(ds, recent).value;
      assert Suggest(c, recent).value == ds[i].0 && FewestAt(ds, recent, i);
    }
  }

  /** A game with no rooms and no recent room work is nudged towards
      rooms when the other empty domains were touched. */
  lemma RoomsSuggested(c: Capabilities)
    requires c.rooms == [] && c.enemies == [] && c.uiElements != []
    ensures Suggest(c, ["enemies"]) == Some("rooms") || Suggest(c, ["enemies"]) == Some("items")
    ensures c.items != [] ==> Suggest(c, ["enemies"]) == Some("rooms")
  {
    var recent := ["enemies"];
    var ds := DomainCounts(c);
    SuggestSpec(c, recent);
    assert ds[2].0 !in recent && ds[1].0 !in recent;
    assert "items" != "enemies" && "rooms" != "enemies" && "ui" != "enemies";
  }

  // ---------------------------------------------------------------------------
  // Strategy
  // ---------------------------------------------------------------------------

  datatype Label = Explore | Retry | Pivot

  datatype Decision = Decision(strategy: Label, explanation: string)

  /** The run of failures on `target` at the end of `recent`, newest
      first; a record on the target without a result stops the choice
      with a missing-key error (None). */
  function Consecutive(recent: seq<Record>, target: string): (r: Option<nat>)
    decreases |recent|
    ensures r.Some? ==> r.value <= |recent|
  {
    if recent == [] then Some(0)
    else
      var c := recent[|recent| - 1];
      if !("target" in c && c["target"] == target) then Some(0)
      else if "result" !in c then None
      else if c["result"] != "fail" then Some(0)
      else match Consecutive(recent[..|recent| - 1], target)
        case None => None
        case Some(n) => Some(n + 1)
  }

  /** A record on `target` that failed. */
  predicate FailedOn(rec: Record, target: string) {
    "target" in rec && rec["target"] == target && Failed(rec)
  }

  /** With every record carrying a result, the count is the length of the
      run of failures on the target at the end, and the record before
      that run, if any, is not one. */
  lemma {:induction false} ConsecutiveSpec(recent: seq<Record>, target: string)
    requires forall i | 0 <= i < |recent| :: "result" in recent[i]
    decreases |recent|
    ensures Consecutive(recent, target).Some?
    ensures var n := Consecutive(recent, target).value;
      && (forall k | |recent| - n <= k < |recent| :: FailedOn(recent[k], target))
      && (n < |recent| ==> !FailedOn(recent[|recent| - n - 1], target))
  {
    if recent != [] {
      var prev := recent[..|recent| - 1];
      ConsecutiveSpec(prev, target);
    }
  }

  /** The number of failed records. */
  function FailCount(recs: seq<Record>): (n: nat)
    decreases |recs|
    ensures n <= |recs|
  {
    if recs == [] then 0 else (if Failed(recs[0]) then 1 else 0) + FailCount(recs[1..])
  }

  /** The advice, after a space, when there is any. */
  function AdviceSuffix(cycles: seq<Record>): string {
    match AdviceOf(cycles)
    case None => ""
    case Some(p) => " " + AdviceText(p)
  }

  /** At most the first 200 characters. */
  function Prefix(s: string, n: nat): (r: string)
    ensures |r| <= n && StartsWith(s, r)
  {
    if |s| <= n then s else s[..n]
  }

  function SoulSuffix(soul: string): string {
    if soul == "" then "" else " Your soul whispers: " + Prefix(soul, 200)
  }

  function NudgeSuffix(caps: Option<Capabilities>, cycles: seq<Record>, classify: string -> string): string {
    if caps.None? then ""
    else match Suggest(caps.value, RecentDomains(cycles, classify))
      case None => ""
      case Some(d) => " Consider adding something in the '" + d + "' domain \U{2014} it's underrepresented."
  }

  function DependencyWarning(target: string, c: Capabilities): string {
    var missing := CheckDependencies(target, c);
    if missing == [] then "" else " WARNING: '" + target + "' may need [" + Join(missing, ", ") + "] first."
  }

  function RetryText(target: string, error: string): string {
    "Last attempt at '" + target + "' failed: " + error + ". Try a different approach to the same thing."
  }

  function StreakText(target: string, n: nat): string {
    "Failed at '" + target + "' " + NatToString(n) + " times. Abandon it and try something completely different."
  }

  function ManyFailuresText(fails: nat): string {
    "Too many recent failures (" + NatToString(fails) + "/5). Pick something simple and small that's likely to succeed."
  }

  const NoHistory: string := "No history yet \U{2014} start building."
  const Succeeded: string := "Last cycle succeeded. Try something new and ambitious."

  /** `determine_strategy`. None stands for the missing-key error raised
      when the newest record, or a record of the final run on its target,
      has no result. */
  function DetermineStrategy(cycles: seq<Record>, caps: Option<Capabilities>, soul: string, classify: string -> string): (r: Option<Decision>)
    ensures cycles == [] ==> r == Some(Decision(Explore, NoHistory))
  {
    if cycles == [] then Some(Decision(Explore, NoHistory))
    else Choose(Newest(cycles, 3), FailCount(Newest(cycles, 5)), AdviceSuffix(cycles), NudgeSuffix(caps, cycles, classify), caps, soul)
  }

  /** What the newest records show. */
  datatype Situation =
    | AfterSuccess
    | Streak(target: string, n: nat)
    | ManyFailures(fails: nat)
    | Failure(target: string, error: string)

  /** The situation of a non-empty history, from its newest three records
      and the failures among its newest five; None for a missing result. */
  function SituationOf(recent: seq<Record>, fails: nat): Option<Situation>
    requires recent != []
  {
    var last := recent[|recent| - 1];
    if "result" !in last then None
    else if last["result"] == "success" then Some(AfterSuccess)
    else
      var target := Get(last, "target", "");
      match Consecutive(recent, target)
      case None => None
      case Some(n) =>
        if n >= 3 then Some(Streak(target, n))
        else if fails >= 4 then Some(ManyFailures(fails))
        else Some(Failure(target, Get(last, "error", "unknown")))
  }

  function LabelOf(s: Situation): Label {
    match s
    case AfterSuccess => Explore
    case Streak(_, _) => Pivot
    case ManyFailures(_) => Pivot
    case Failure(_, _) => Retry
  }

  /** The explanation: the situation's own sentence, then the nudge, the
      advice, the inner voice or the dependency warning as the situation
      allows. */
  function Explain(s: Situation, advice: string, nudge: string, caps: Option<Capabilities>, soul: string): string {
    match s
    case AfterSuccess => Succeeded + nudge + advice + SoulSuffix(soul)
    case Streak(target, n) => StreakText(target, n) + advice
    case ManyFailures(fails) => ManyFailuresText(fails) + advice
    case Failure(target, error) =>
      RetryText(target, error) + advice + (if caps.Some? then DependencyWarning(target, caps.value) else "")
  }

  function Choose(recent: seq<Record>, fails: nat, advice: string, nudge: string, caps: Option<Capabilities>, soul: string): Option<Decision>
    requires recent != []
  {
    match SituationOf(recent, fails)
    case None => None
    case Some(s) => Some(Decision(LabelOf(s), Explain(s, advice, nudge, caps, soul)))
  }

  /** Every one of the newest five records carries a result. */
  predicate ResultsPresent(cycles: seq<Record>) {
    forall i | 0 <= i < |Newest(cycles, 5)| :: "result" in Newest(cycles, 5)[i]
  }

  /** The newest three records failed on the newest record's target. */
  predicate StreakOfThree(cycles: seq<Record>) {
    |cycles| >= 3 && forall k | |cycles| - 3 <= k < |cycles| :: FailedOn(cycles[k], Get(cycles[|cycles| - 1], "target", ""))
  }

  /** With results present, the choice is made, and it is: explore after a
      success; pivot after three failures in a row on the same target or
      four failures among the newest five; retry otherwise. */
  lemma LabelRule(cycles: seq<Record>, caps: Option<Capabilities>, soul: string, classify: string -> string)
    requires cycles != [] && ResultsPresent(cycles)
    ensures var r := DetermineStrategy(cycles, caps, soul, classify);
      var last := cycles[|cycles| - 1];
      && r.Some?
      && (r.value.strategy == Explore <==> last["result"] == "success")
      && (r.value.strategy == Pivot <==>
            last["result"] != "success" && (StreakOfThree(cycles) || FailCount(Newest(cycles, 5)) >= 4))
  {
    var recent := Newest(cycles, 3);
    var last := cycles[|cycles| - 1];
    RecentResults(cycles);
    assert recent[|recent| - 1] == last;
    var target := Get(last, "target", "");
    ConsecutiveSpec(recent, target);
    var n := Consecutive(recent, target).value;
    StreakIff(cycles, target, n);
    var fails := FailCount(Newest(cycles, 5));
    SituationLabel(recent, fails);
    ChooseLabelOf(recent, fails, AdviceSuffix(cycles), NudgeSuffix(caps, cycles, classify), caps, soul);
  }

  /** `Choose` labels by the situation alone. */
  lemma ChooseLabelOf(recent: seq<Record>, fails: nat, advice: string, nudge: string, caps: Option<Capabilities>, soul: string)
    requires recent != []
    ensures var r := Choose(recent, fails, advice, nudge, caps, soul);
      var s := SituationOf(recent, fails);
      && (r.Some? <==> s.Some?)
      && (r.Some? ==> r.value.strategy == LabelOf(s.value))
  {
  }

  lemma SituationLabel(recent: seq<Record>, fails: nat)
    requires recent != [] && "result" in recent[|recent| - 1]
    requires Consecutive(recent, Get(recent[|recent| - 1], "target", "")).Some?
    ensures var last := recent[|recent| - 1];
      var n := Consecutive(recent, Get(last, "target", "")).value;
      var s := SituationOf(recent, fails);
      && s.Some?
      && (LabelOf(s.value) == Explore <==> last["result"] == "success")
      && (LabelOf(s.value) == Pivot <==> last["result"] != "success" && (n >= 3 || fails >= 4))
  {
  }

  lemma RecentResults(cycles: seq<Record>)
    requires cycles != [] && ResultsPresent(cycles)
    ensures forall i | 0 <= i < |Newest(cycles, 3)| :: "result" in Newest(cycles, 3)[i]
    ensures "result" in cycles[|cycles| - 1]
  {
    var recent := Newest(cycles, 3);
    var five := Newest(cycles, 5);
    forall i | 0 <= i < |recent| ensures "result" in recent[i] {
      assert recent[i] == five[i + |five| - |recent|];
    }
    assert cycles[|cycles| - 1] == five[|five| - 1];
  }

  lemma StreakIff(cycles: seq<Record>, target: string, n: nat)
    requires cycles != [] && target == Get(cycles[|cycles| - 1], "target", "")
    requires n <= |Newest(cycles, 3)|
    requires forall k | |Newest(cycles, 3)| - n <= k < |Newest(cycles, 3)| :: FailedOn(Newest(cycles, 3)[k], target)
    requires n < |Newest(cycles, 3)| ==> !FailedOn(Newest(cycles, 3)[|Newest(cycles, 3)| - n - 1], target)
    ensures n >= 3 <==> StreakOfThree(cycles)
  {
    var recent := Newest(cycles, 3);
    if n >= 3 {
      assert |recent| == 3 && recent == cycles[|cycles| - 3..];
      StreakFromRun(cycles, recent, target);
    } else if |cycles| >= 3 {
      RunBroken(cycles, recent, target, n);
    }
  }

  lemma StreakFromRun(cycles: seq<Record>, recent: seq<Record>, target: string)
    requires cycles != [] && target == Get(cycles[|cycles| - 1], "target", "")
    requires |cycles| >= 3 && recent == cycles[|cycles| - 3..]
    requires forall k | 0 <= k < 3 :: FailedOn(recent[k], target)
    ensures StreakOfThree(cycles)
  {
    var m := |cycles|;
    forall k | m - 3 <= k < m ensures FailedOn(cycles[k], target) {
      assert cycles[k] == recent[k - (m - 3)];
    }
  }

  lemma RunBroken(cycles: seq<Record>, recent: seq<Record>, target: string, n: nat)
    requires |cycles| >= 3 && target == Get(cycles[|cycles| - 1], "target", "")
    requires recent == Newest(cycles, 3) && n < 3
    requires !FailedOn(recent[|recent| - n - 1], target)
    ensures !StreakOfThree(cycles)
  {
    var m := |cycles|;
    assert recent[2 - n] == cycles[m - n - 1];
  }

  /** The choice depends only on the newest five records. */
  lemma NewestFiveDecide(cycles: seq<Record>, caps: Option<Capabilities>, soul: string, classify: string -> string)
    ensures DetermineStrategy(cycles, caps, soul, classify) == DetermineStrategy(Newest(cycles, 5), caps, soul, classify)
  {
    NewestOfNewest(cycles, 5, 3);
    NewestOfNewest(cycles, 5, 5);
    AdviceFromNewestFive(cycles);
    NudgeFromNewestFive(caps, cycles, classify);
  }

  lemma AdviceFromNewestFive(cycles: seq<Record>)
    ensures AdviceSuffix(cycles) == AdviceSuffix(Newest(cycles, 5))
  {
    NewestOfNewest(cycles, 5, 5);
    assert AdviceOf(cycles) == AdviceOf(Newest(cycles, 5));
  }

  lemma NudgeFromNewestFive(caps: Option<Capabilities>, cycles: seq<Record>, classify: string -> string)
    ensures NudgeSuffix(caps, cycles, classify) == NudgeSuffix(caps, Newest(cycles, 5), classify)
  {
    NewestOfNewest(cycles, 5, 5);
    assert RecentDomains(cycles, classify) == RecentDomains(Newest(cycles, 5), classify);
  }

  /** After a failure that leads neither to a pivot nor to an error, the
      explanation says what failed, adds the advice, and ends with the
      dependency warning, which is there exactly when the target has
      missing prerequisites. */
  lemma WarningIffMissing(cycles: seq<Record>, c: Capabilities, soul: string, classify: string -> string)
    requires DetermineStrategy(cycles, Some(c), soul, classify).Some?
    requires DetermineStrategy(cycles, Some(c), soul, classify).value.strategy == Retry
    ensures var last := cycles[|cycles| - 1]; var target := Get(last, "target", "");
      && DetermineStrategy(cycles, Some(c), soul, classify).value.explanation ==
           RetryText(target, Get(last, "error", "unknown")) + AdviceSuffix(cycles) + DependencyWarning(target, c)
      && (DependencyWarning(target, c) != "" <==> CheckDependencies(target, c) != [])
  {
    var recent := Newest(cycles, 3);
    assert recent[|recent| - 1] == cycles[|cycles| - 1];
    var target := Get(cycles[|cycles| - 1], "target", "");
    ChooseRetry(recent, FailCount(Newest(cycles, 5)), AdviceSuffix(cycles), NudgeSuffix(Some(c), cycles, classify), c, soul);
    WarningPresent(target, c);
  }

  lemma ChooseRetry(recent: seq<Record>, fails: nat, advice: string, nudge: string, c: Capabilities, soul: string)
    requires recent != []
    requires Choose(recent, fails, advice, nudge, Some(c), soul).Some?
    requires Choose(recent, fails, advice, nudge, Some(c), soul).value.strategy == Retry
    ensures var last := recent[|recent| - 1]; var target := Get(last, "target", "");
      Choose(recent, fails, advice, nudge, Some(c), soul).value.explanation ==
        RetryText(target, Get(last, "error", "unknown")) + advice + DependencyWarning(target, c)
  {
    var s := SituationOf(recent, fails).value;
    assert s.Failure?;
    RetrySituation(recent, fails);
  }

  lemma RetrySituation(recent: seq<Record>, fails: nat)
    requires recent != [] && SituationOf(recent, fails).Some? && SituationOf(recent, fails).value.Failure?
    ensures var last := recent[|recent| - 1];
      SituationOf(recent, fails) == Some(Failure(Get(last, "target", ""), Get(last, "error", "unknown")))
  {
  }

  lemma WarningPresent(target: string, c: Capabilities)
    ensures DependencyWarning(target, c) != "" <==> CheckDependencies(target, c) != []
  {
    if CheckDependencies(target, c) != [] {
      assert DependencyWarning(target, c)[0] == ' ';
    }
  }
}
