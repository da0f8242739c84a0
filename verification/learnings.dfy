/** The learnings log: a markdown file with a fixed title and one bullet
    line per lesson, trimmed to the newest `MaxLearnings` bullets
    (`read_learnings`, `append_learning`, `replace_learnings`). The file is
    an optional text: None is a file that does not exist. */
module Learnings {
  import opened Opt
  import opened Text

  const Title: string := "# GODMACHINE Learnings"
  const Header: string := "# GODMACHINE Learnings\n\n"
  /** How every bullet line begins. */
  const EntryStart: string := "- **Cycle"
  const MaxLearnings: nat := 50

  /** `read_learnings`: the text, or nothing for a missing file. */
  function ReadLearnings(file: Option<string>): (r: string)
    ensures file.None? ==> r == ""
    ensures file.Some? ==> r == file.value
  {
    file.GetOr("")
  }

  // ---------------------------------------------------------------------------
  // Lines with their terminators
  // ---------------------------------------------------------------------------

  /** `s.splitlines(True)` for text whose only line terminator is '\n':
      every piece keeps its terminator. */
  function LinesKeepEnds(s: string): seq<string>
    decreases |s|
  {
    if s == [] then []
    else
      var k := RunUntil(s, 0, '\n', '\n');
      if k == |s| then [s] else [s[..k + 1]] + LinesKeepEnds(s[k + 1..])
  }

  /** Joining the pieces gives the text back. */
  lemma {:induction false} LinesKeepEndsJoin(s: string)
    decreases |s|
    ensures Concat(LinesKeepEnds(s)) == s
  {
    if s != [] {
      var k := RunUntil(s, 0, '\n', '\n');
      if k == |s| {
        assert Concat([s]) == s + Concat([]);
      } else {
        LinesKeepEndsJoin(s[k + 1..]);
        assert s == s[..k + 1] + s[k + 1..];
      }
    }
  }

  /** A whole line: non-empty, its only '\n' at the end. */
  predicate Line(l: string) {
    l != [] && l[|l| - 1] == '\n' && forall i | 0 <= i < |l| - 1 :: l[i] != '\n'
  }

  predicate EndsLine(s: string) {
    s == [] || s[|s| - 1] == '\n'
  }

  /** The first piece of a text is its first line. */
  lemma FirstLine(l: string, rest: string)
    requires Line(l)
    ensures LinesKeepEnds(l + rest) == [l] + LinesKeepEnds(rest)
  {
    var s := l + rest;
    RunUntilStops(s, 0, |l| - 1, '\n');
    assert s[..|l|] == l && s[|l|..] == rest;
  }

  /** Non-empty text that ends a line starts with a whole line. */
  lemma SplitFirstLine(a: string) returns (l: string, rest: string)
    requires a != [] && EndsLine(a)
    ensures Line(l) && a == l + rest && EndsLine(rest)
  {
    var k := RunUntil(a, 0, '\n', '\n');
    RunUntilSpec(a, 0, '\n', '\n');
    l, rest := a[..k + 1], a[k + 1..];
    assert a == l + rest;
  }

  /** Text that ends a line splits independently of what follows. */
  lemma {:induction false} LinesKeepEndsAppend(a: string, b: string)
    requires EndsLine(a)
    decreases |a|
    ensures LinesKeepEnds(a + b) == LinesKeepEnds(a) + LinesKeepEnds(b)
  {
    if a == [] {
      assert a + b == b;
    } else {
      var l, rest := SplitFirstLine(a);
      LinesKeepEndsAppend(rest, b);
      AppendStep(l, rest, b);
    }
  }

  lemma AppendStep(l: string, rest: string, b: string)
    requires Line(l)
    requires LinesKeepEnds(rest + b) == LinesKeepEnds(rest) + LinesKeepEnds(b)
    ensures LinesKeepEnds(l + rest + b) == LinesKeepEnds(l + rest) + LinesKeepEnds(b)
  {
    var y := rest + b;
    FirstLine(l, rest);
    FirstLine(l, y);
    Assoc(l, rest, b);
    Assoc([l], LinesKeepEnds(rest), LinesKeepEnds(b));
  }

  /** Every piece of a text that ends a line is a whole line. */
  lemma {:induction false} PiecesAreLines(s: string)
    requires EndsLine(s)
    decreases |s|
    ensures forall i | 0 <= i < |LinesKeepEnds(s)| :: Line(LinesKeepEnds(s)[i])
  {
    if s != [] {
      var l, rest := SplitFirstLine(s);
      PiecesAreLines(rest);
      FirstLine(l, rest);
    }
  }

  /** Whole lines joined split back into the same lines. */
  lemma {:induction false} SplitJoined(xs: seq<string>)
    requires forall i | 0 <= i < |xs| :: Line(xs[i])
    decreases |xs|
    ensures LinesKeepEnds(Concat(xs)) == xs
  {
    if xs != [] {
      SplitJoined(xs[1..]);
      FirstLine(xs[0], Concat(xs[1..]));
    }
  }

  // ---------------------------------------------------------------------------
  // Entries
  // ---------------------------------------------------------------------------

  /** The bullet lines, in order. */
  function Entries(lines: seq<string>): (r: seq<string>)
    decreases |lines|
  {
    if lines == [] then []
    else (if StartsWith(lines[0], EntryStart) then [lines[0]] else []) + Entries(lines[1..])
  }

  lemma {:induction false} EntriesAppend(a: seq<string>, b: seq<string>)
    decreases |a|
    ensures Entries(a + b) == Entries(a) + Entries(b)
  {
    if a == [] {
      assert a + b == b;
    } else {
      assert (a + b)[0] == a[0] && (a + b)[1..] == a[1..] + b;
      EntriesAppend(a[1..], b);
    }
  }

  /** The bullet lines are lines of the input, and only bullets. */
  lemma {:induction false} EntriesFrom(lines: seq<string>)
    decreases |lines|
    ensures forall i | 0 <= i < |Entries(lines)| :: Entries(lines)[i] in lines && StartsWith(Entries(lines)[i], EntryStart)
  {
    if lines != [] {
      EntriesFrom(lines[1..]);
    }
  }

  /** A list of bullets is its own list of bullets. */
  lemma {:induction false} EntriesOfEntries(xs: seq<string>)
    requires forall i | 0 <= i < |xs| :: StartsWith(xs[i], EntryStart)
    decreases |xs|
    ensures Entries(xs) == xs
  {
    if xs != [] {
      EntriesOfEntries(xs[1..]);
    }
  }

  /** The newest `n` elements. */
  function Newest(xs: seq<string>, n: nat): (r: seq<string>)
    ensures |r| == (if |xs| > n then n else |xs|)
    ensures r == xs[|xs| - |r|..]
    ensures |xs| <= n ==> r == xs
  {
    if |xs| > n then xs[|xs| - n..] else xs
  }

  /** Keeps the header and the newest `MaxLearnings` bullet lines when
      there are more; other lines go. */
  function Trim(existing: string): string {
    var entries := Entries(LinesKeepEnds(existing));
    if |entries| > MaxLearnings then Header + Concat(Newest(entries, MaxLearnings)) else existing
  }

  /** Trimming leaves at most `MaxLearnings` bullets, and they are the
      newest ones, in order. */
  lemma TrimKeepsNewest(existing: string)
    requires EndsLine(existing)
    ensures var kept := Entries(LinesKeepEnds(Trim(existing)));
      kept == Newest(Entries(LinesKeepEnds(existing)), MaxLearnings) && |kept| <= MaxLearnings
  {
    var lines := LinesKeepEnds(existing);
    var entries := Entries(lines);
    if |entries| > MaxLearnings {
      var tail := Newest(entries, MaxLearnings);
      PiecesAreLines(existing);
      EntriesFrom(lines);
      forall i | 0 <= i < |tail| ensures Line(tail[i]) && StartsWith(tail[i], EntryStart) {
        assert tail[i] == entries[|entries| - MaxLearnings + i];
      }
      HeaderLines();
      LinesKeepEndsAppend(Header, Concat(tail));
      SplitJoined(tail);
      EntriesAppend(LinesKeepEnds(Header), tail);
      EntriesOfEntries(tail);
    }
  }

  /** The header is two lines, neither of them a bullet. */
  lemma HeaderLines()
    ensures EndsLine(Header) && Entries(LinesKeepEnds(Header)) == []
  {
    var t := Title + "\n";
    Terminated(Title);
    OneLine(t);
    assert !StartsWith(t, EntryStart) by {
      assert t[0] != EntryStart[0];
    }
    assert Entries([t]) == [] + Entries([]);
    NoBulletAfter(t, "\n");
    assert Header == t + "\n";
  }

  // ---------------------------------------------------------------------------
  // Appending and replacing
  // ---------------------------------------------------------------------------

  /** Success is a discovery, anything else a correction. */
  function Tag(result: string): string {
    if result == "success" then "discovery" else "correction"
  }

  /** The bullet line `- **Cycle N** [tag] (action): learning`. */
  function Entry(cycleNum: int, action: string, result: string, learning: string): string {
    EntryStart + EntryTail(cycleNum, action, result, learning) + "\n"
  }

  function EntryTail(cycleNum: int, action: string, result: string, learning: string): string {
    " " + IntToString(cycleNum) + "** [" + Tag(result) + "] (" + action + "): " + learning
  }

  /** `append_learning` as written: the entry is added to the end of the
      text as it stands, then the log is trimmed. An empty learning leaves
      the file alone. */
  function AppendLearningAsWritten(file: Option<string>, learning: string, cycleNum: int, action: string, result: string): (r: Option<string>)
    ensures learning == "" ==> r == file
    ensures learning != "" ==> r.Some? && |Entries(LinesKeepEnds(r.value))| <= MaxLearnings
    ensures EndsLine(file.GetOr(Header)) ==> r == AppendLearning(file, learning, cycleNum, action, result)
  {
    if learning == "" then file
    else
      var existing := file.GetOr(Header) + Entry(cycleNum, action, result, learning);
      TrimKeepsNewest(existing);
      Some(Trim(existing))
  }

  /** Text that ends a line, with a terminator added when it does not. */
  function Terminate(s: string): (r: string)
    ensures EndsLine(r) && StartsWith(r, s)
  {
    if EndsLine(s) then s else s + "\n"
  }

  /** `append_learning` with the entry always starting a line of its own. */
  function AppendLearning(file: Option<string>, learning: string, cycleNum: int, action: string, result: string): (r: Option<string>)
    ensures learning == "" ==> r == file
    ensures learning != "" ==> r.Some? && |Entries(LinesKeepEnds(r.value))| <= MaxLearnings
  {
    if learning == "" then file
    else
      var existing := Terminate(file.GetOr(Header)) + Entry(cycleNum, action, result, learning);
      TrimKeepsNewest(existing);
      Some(Trim(existing))
  }

  /** A one-line learning becomes the newest bullet, and at most
      `MaxLearnings` bullets remain, the newest ones. */
  lemma AppendedEntryIsNewest(file: Option<string>, learning: string, cycleNum: int, action: string, result: string)
    requires learning != "" && '\n' !in learning && '\n' !in action
    ensures var before := Entries(LinesKeepEnds(Terminate(file.GetOr(Header))));
      var after := Entries(LinesKeepEnds(AppendLearning(file, learning, cycleNum, action, result).value));
      after == Newest(before + [Entry(cycleNum, action, result, learning)], MaxLearnings)
      && after[|after| - 1] == Entry(cycleNum, action, result, learning)
  {
    var base := Terminate(file.GetOr(Header));
    var e := Entry(cycleNum, action, result, learning);
    EntryIsLine(cycleNum, action, result, learning);
    LineIsNewest(base, e);
  }

  /** A bullet line added to text that ends a line is the newest bullet
      after trimming. */
  lemma LineIsNewest(base: string, e: string)
    requires EndsLine(base) && Line(e) && StartsWith(e, EntryStart)
    ensures var after := Entries(LinesKeepEnds(Trim(base + e)));
      after == Newest(Entries(LinesKeepEnds(base)) + [e], MaxLearnings) && after[|after| - 1] == e
  {
    EntriesWithLine(base, e);
    assert EndsLine(base + e);
    TrimKeepsNewest(base + e);
  }

  lemma EntriesWithLine(base: string, e: string)
    requires EndsLine(base) && Line(e) && StartsWith(e, EntryStart)
    ensures Entries(LinesKeepEnds(base + e)) == Entries(LinesKeepEnds(base)) + [e]
  {
    LinesKeepEndsAppend(base, e);
    OneLine(e);
    EntriesAppend(LinesKeepEnds(base), [e]);
    assert Entries([e]) == [e] + Entries([]);
  }

  lemma OneLine(e: string)
    requires Line(e)
    ensures LinesKeepEnds(e) == [e]
  {
    assert e == e + "";
    FirstLine(e, "");
  }

  /** A one-line entry is a whole bullet line. */
  lemma EntryIsLine(cycleNum: int, action: string, result: string, learning: string)
    requires '\n' !in learning && '\n' !in action
    ensures var e := Entry(cycleNum, action, result, learning); Line(e) && StartsWith(e, EntryStart)
  {
    var tail := EntryTail(cycleNum, action, result, learning);
    TailOnOneLine(cycleNum, action, result, learning);
    Terminated(EntryStart + tail);
    Assoc(EntryStart, tail, "\n");
    PrefixOfAppend(EntryStart, tail + "\n");
  }

  lemma TailOnOneLine(cycleNum: int, action: string, result: string, learning: string)
    requires '\n' !in learning && '\n' !in action
    ensures '\n' !in EntryTail(cycleNum, action, result, learning)
  {
    var n := IntToString(cycleNum);
    var t := Tag(result);
    NumberOnOneLine(cycleNum);
    assert '\n' !in t;
    var p1 := " " + n;
    var p2 := p1 + "** [";
    var p3 := p2 + t;
    var p4 := p3 + "] (";
    var p5 := p4 + action;
    var p6 := p5 + "): ";
    assert EntryTail(cycleNum, action, result, learning) == p6 + learning;
  }

  lemma NumberOnOneLine(i: int)
    ensures '\n' !in IntToString(i)
  {
    var n := IntToString(i);
    if i < 0 {
      var d := NatToString(-i);
      assert n == "-" + d;
      assert forall k | 0 <= k < |d| :: IsDigit(d[k]);
    } else {
      assert forall k | 0 <= k < |n| :: IsDigit(n[k]);
    }
  }

  /** Text without a '\n', ended by one, is a whole line. */
  lemma Terminated(body: string)
    requires '\n' !in body
    ensures Line(body + "\n")
  {
    var l := body + "\n";
    forall i | 0 <= i < |l| - 1 ensures l[i] != '\n' {
      assert l[i] == body[i];
    }
  }

  /** Curated text whose last line is prose, the way a stripped rewrite
      ends: appending to it as written glues the entry onto that line, so
      it is not recognised as a bullet and a later trim drops it. With the
      line ended first, the entry is the one bullet. */
  lemma GluedEntryLost(prose: string, learning: string, cycleNum: int, action: string, result: string)
    requires prose != [] && '\n' !in prose && prose[0] != '-' && prose[0] != '#'
    requires learning != "" && '\n' !in learning && '\n' !in action
    ensures ReplaceLearnings(None, prose) == Some(Header + prose)
    ensures var file := Some(Header + prose);
      && Entries(LinesKeepEnds(AppendLearningAsWritten(file, learning, cycleNum, action, result).value)) == []
      && Entries(LinesKeepEnds(AppendLearning(file, learning, cycleNum, action, result).value)) == [Entry(cycleNum, action, result, learning)]
  {
    assert !StartsWith(prose, Title) by {
      assert prose[0] != Title[0];
    }
    EntryIsLine(cycleNum, action, result, learning);
    GluedAsWritten(prose, Entry(cycleNum, action, result, learning));
    EndedFirst(prose, Entry(cycleNum, action, result, learning));
  }

  lemma GluedAsWritten(prose: string, e: string)
    requires prose != [] && '\n' !in prose && prose[0] != '-'
    requires Line(e)
    ensures var t := Header + prose + e; Trim(t) == t && Entries(LinesKeepEnds(t)) == []
  {
    var glued := prose + e;
    assert Line(glued) by {
      forall i | 0 <= i < |glued| - 1 ensures glued[i] != '\n' {
        if i >= |prose| {
          assert glued[i] == e[i - |prose|];
        }
      }
    }
    assert Header + prose + e == Header + glued;
    ProseNoEntry(glued);
  }

  lemma EndedFirst(prose: string, e: string)
    requires prose != [] && '\n' !in prose && prose[0] != '-'
    requires Line(e) && StartsWith(e, EntryStart)
    ensures Entries(LinesKeepEnds(Trim(Terminate(Header + prose) + e))) == [e]
  {
    var ended := prose + "\n";
    assert Terminate(Header + prose) == Header + ended;
    ProseNoEntry(ended);
    LineIsNewest(Header + ended, e);
  }

  /** The header followed by a line that is not a bullet has no bullets. */
  lemma ProseNoEntry(p: string)
    requires Line(p) && p[0] != '-'
    ensures Trim(Header + p) == Header + p && Entries(LinesKeepEnds(Header + p)) == []
  {
    HeaderLines();
    assert !StartsWith(p, EntryStart) by {
      assert p[0] != EntryStart[0];
    }
    NoBulletAfter(Header, p);
  }

  /** Text without bullets, followed by one line that is not a bullet,
      still has none. */
  lemma NoBulletAfter(h: string, p: string)
    requires EndsLine(h) && Entries(LinesKeepEnds(h)) == []
    requires Line(p) && !StartsWith(p, EntryStart)
    ensures Entries(LinesKeepEnds(h + p)) == []
  {
    LinesKeepEndsAppend(h, p);
    OneLine(p);
    EntriesAppend(LinesKeepEnds(h), [p]);
    assert Entries([p]) == [] + Entries([]);
  }

  /** The concrete case: a curated file ending in "Keep scenes small.". */
  lemma GluedEntryExample()
    ensures var file := ReplaceLearnings(None, "Keep scenes small.");
      && Entries(LinesKeepEnds(AppendLearningAsWritten(file, "y", 2, "a", "success").value)) == []
      && Entries(LinesKeepEnds(AppendLearning(file, "y", 2, "a", "success").value)) == [Entry(2, "a", "success", "y")]
  {
    GluedEntryLost("Keep scenes small.", "y", 2, "a", "success");
  }

  /** `replace_learnings`: non-empty curated text replaces the file, with
      the header put in front unless it already starts with the title. */
  function ReplaceLearnings(file: Option<string>, curated: string): (r: Option<string>)
    ensures curated == "" ==> r == file
    ensures curated != "" ==> r.Some? && StartsWith(r.value, Title) && EndsWith(r.value, curated)
    ensures curated != "" && StartsWith(curated, Title) ==> r == Some(curated)
    ensures curated != "" && !StartsWith(curated, Title) ==> r == Some(Header + curated)
  {
    if curated == "" then file
    else if StartsWith(curated, Title) then Some(curated)
    else
      var r := Header + curated;
      assert r[..|Title|] == Title;
      assert r[|r| - |curated|..] == curated;
      Some(r)
  }

  /** Replacing with text that already went through a replacement changes
      nothing more. */
  lemma ReplaceIdempotent(file: Option<string>, other: Option<string>, curated: string)
    requires curated != ""
    ensures ReplaceLearnings(other, ReplaceLearnings(file, curated).value) == ReplaceLearnings(file, curated)
  {
  }
}
