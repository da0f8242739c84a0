/** The cycle log: one record per cycle, the newest `MaxActive` in the
    active log and every older one moved, in order, to the archive
    (`read_cycles`, `append_cycle`, `_archive_cycles`), and the number of the
    next cycle (`get_cycle_num`). The XML encoding is not modelled: a log is
    the sequence of its records. */
module CycleLog {
  import opened Opt
  import opened Text

  /** One logged cycle: its attributes by name. */
  type Record = map<string, string>

  /** How many records the active log keeps. */
  const MaxActive: nat := 20

  /** The two log files; None is a file that does not exist. */
  datatype Logs = Logs(active: Option<seq<Record>>, archive: Option<seq<Record>>)

  /** `read_cycles`: the records of a log file, none when it is missing. */
  function ReadCycles(file: Option<seq<Record>>): (r: seq<Record>)
    ensures file.None? ==> r == []
    ensures file.Some? ==> r == file.value
  {
    match file
    case None => []
    case Some(rs) => rs
  }

  /** The attributes of a new entry: day, action, target and result always,
      error and note only when non-empty. */
  function NewRecord(day: int, action: string, target: string, result: string, error: string, note: string): (r: Record)
    ensures "day" in r && r["day"] == IntToString(day)
    ensures "action" in r && r["action"] == action
    ensures "target" in r && r["target"] == target
    ensures "result" in r && r["result"] == result
    ensures ("error" in r <==> error != "") && (error != "" ==> r["error"] == error)
    ensures ("note" in r <==> note != "") && (note != "" ==> r["note"] == note)
    ensures r.Keys <= {"day", "action", "target", "result", "error", "note"}
  {
    var base := map["day" := IntToString(day), "action" := action, "target" := target, "result" := result];
    var withError := if error != "" then base["error" := error] else base;
    if note != "" then withError["note" := note] else withError
  }

  /** `append_cycle`: the record goes last; when the active log then holds
      more than `MaxActive` records, the oldest ones move to the end of the
      archive. The archive file is only written when something moves. */
  function AppendCycle(logs: Logs, rec: Record): (r: Logs)
    ensures r.active.Some?
    ensures var n := |ReadCycles(logs.active)|;
      |ReadCycles(r.active)| == (if n + 1 <= MaxActive then n + 1 else MaxActive)
    ensures ReadCycles(r.active)[|ReadCycles(r.active)| - 1] == rec
    ensures |ReadCycles(logs.active)| + 1 <= MaxActive ==> r.archive == logs.archive
    ensures ReadCycles(logs.archive) + ReadCycles(logs.active) + [rec] == ReadCycles(r.archive) + ReadCycles(r.active)
  {
    var all := ReadCycles(logs.active) + [rec];
    if |all| > MaxActive then
      var cut := |all| - MaxActive;
      assert all == all[..cut] + all[cut..];
      var archive := ReadCycles(logs.archive) + all[..cut];
      assert archive + all[cut..] == ReadCycles(logs.archive) + all;
      Logs(Some(all[cut..]), Some(archive))
    else Logs(Some(all), logs.archive)
  }

  /** The records moved to the archive by one append are exactly the oldest
      ones beyond the limit, in their original order. */
  lemma OverflowArchived(logs: Logs, rec: Record)
    requires |ReadCycles(logs.active)| + 1 > MaxActive
    ensures var all := ReadCycles(logs.active) + [rec];
      ReadCycles(AppendCycle(logs, rec).archive) == ReadCycles(logs.archive) + all[..|all| - MaxActive]
      && ReadCycles(AppendCycle(logs, rec).active) == all[|all| - MaxActive..]
  {
  }

  /** Appending records one after another. */
  function AppendAll(logs: Logs, recs: seq<Record>): Logs
    decreases |recs|
  {
    if recs == [] then logs else AppendAll(AppendCycle(logs, recs[0]), recs[1..])
  }

  /** Over any run of appends no record is lost or reordered: the archive
      followed by the active log is everything ever logged, and the active
      log never grows beyond `MaxActive`. */
  lemma {:induction false} AppendAllConserves(logs: Logs, recs: seq<Record>)
    requires |ReadCycles(logs.active)| <= MaxActive
    decreases |recs|
    ensures var r := AppendAll(logs, recs);
      ReadCycles(r.archive) + ReadCycles(r.active) == ReadCycles(logs.archive) + ReadCycles(logs.active) + recs
      && |ReadCycles(r.active)| <= MaxActive
  {
    if recs == [] {
      assert ReadCycles(logs.archive) + ReadCycles(logs.active) + recs == ReadCycles(logs.archive) + ReadCycles(logs.active);
    } else {
      var next := AppendCycle(logs, recs[0]);
      AppendAllConserves(next, recs[1..]);
      var r := AppendAll(next, recs[1..]);
      assert AppendAll(logs, recs) == r;
      ChainSteps(ReadCycles(logs.archive) + ReadCycles(logs.active), recs[0],
        ReadCycles(next.archive) + ReadCycles(next.active), recs[1..], ReadCycles(r.archive) + ReadCycles(r.active));
      assert recs == [recs[0]] + recs[1..];
    }
  }

  /** Two conserving steps chain. */
  lemma ChainSteps<T>(start: seq<T>, x: T, mid: seq<T>, rest: seq<T>, end: seq<T>)
    requires start + [x] == mid && end == mid + rest
    ensures end == start + ([x] + rest)
  {
  }

  /** Starting from missing files, the active log holds the newest records,
      as many as fit. */
  lemma FromNothing(recs: seq<Record>)
    ensures var r := AppendAll(Logs(None, None), recs);
      ReadCycles(r.archive) + ReadCycles(r.active) == recs && |ReadCycles(r.active)| <= MaxActive
  {
    AppendAllConserves(Logs(None, None), recs);
  }

  // ---------------------------------------------------------------------------
  // Cycle numbers
  // ---------------------------------------------------------------------------

  /** `int(s)` on a decimal numeral: surrounding whitespace and one sign are
      allowed; anything else raises, here None. Digit-group underscores are
      not accepted by this model. */
  function ParseInt(s: string): (r: Option<int>)
  {
    var t := Strip(s);
    if t != [] && (t[0] == '-' || t[0] == '+') then
      if IsDigits(t[1..]) then Some(if t[0] == '-' then -(DigitsValue(t[1..]) as int) else DigitsValue(t[1..]) as int) else None
    else if IsDigits(t) then Some(DigitsValue(t))
    else None
  }

  /** A rendered integer reads back as itself. */
  lemma ParseIntRoundTrip(n: int)
    ensures ParseInt(IntToString(n)) == Some(n)
  {
    var s := IntToString(n);
    NoSpaceStrip(s);
    if n < 0 {
      var d := NatToString(-n);
      assert s == "-" + d && s[0] == '-' && s[1..] == d;
      assert ParseInt(s) == Some(-(DigitsValue(d) as int));
    } else {
      assert s == NatToString(n) && s[0] != '-' && s[0] != '+';
      assert ParseInt(s) == Some(DigitsValue(s));
    }
  }

  /** Text without whitespace is its own strip. */
  lemma NoSpaceStrip(s: string)
    requires forall i | 0 <= i < |s| :: !IsSpace(s[i])
    ensures Strip(s) == s
  {
    if s != [] {
      assert RTrim(s, IsSpace) == s;
      assert LTrim(s, IsSpace) == s;
    }
  }

  /** `int(c.get("day", 0))`: a record without a day counts as day 0. */
  function DayOf(rec: Record): Option<int> {
    if "day" in rec then ParseInt(rec["day"]) else Some(0)
  }

  predicate AllDaysRead(cycles: seq<Record>) {
    forall i | 0 <= i < |cycles| :: DayOf(cycles[i]).Some?
  }

  /** The largest day, or None when some day is not a number. */
  function MaxDay(cycles: seq<Record>): (r: Option<int>)
    requires cycles != []
    decreases |cycles|
  {
    var d := DayOf(cycles[|cycles| - 1]);
    if |cycles| == 1 then d
    else match MaxDay(cycles[..|cycles| - 1])
      case None => None
      case Some(m) => if d.None? then None else Some(if d.value > m then d.value else m)
  }

  /** `MaxDay` is the maximum: every day is at most it, and some day equals it. */
  lemma MaxDaySpec(cycles: seq<Record>)
    requires cycles != []
    ensures MaxDay(cycles).Some? <==> AllDaysRead(cycles)
    ensures MaxDay(cycles).Some? ==>
      (forall i | 0 <= i < |cycles| :: DayOf(cycles[i]).value <= MaxDay(cycles).value)
      && exists i | 0 <= i < |cycles| :: DayOf(cycles[i]) == MaxDay(cycles)
  {
    MaxDayDefined(cycles);
    if MaxDay(cycles).Some? {
      MaxDayBounds(cycles);
      MaxDayAttained(cycles);
    }
  }

  lemma {:induction false} MaxDayDefined(cycles: seq<Record>)
    requires cycles != []
    decreases |cycles|
    ensures MaxDay(cycles).Some? <==> AllDaysRead(cycles)
  {
    var n := |cycles|;
    if n > 1 {
      var init := cycles[..n - 1];
      MaxDayDefined(init);
      assert MaxDay(cycles).Some? <==> MaxDay(init).Some? && DayOf(cycles[n - 1]).Some?;
      AllDaysReadSnoc(cycles);
    } else {
      assert MaxDay(cycles) == DayOf(cycles[0]);
    }
  }

  lemma AllDaysReadSnoc(cycles: seq<Record>)
    requires |cycles| > 1
    ensures AllDaysRead(cycles) <==> AllDaysRead(cycles[..|cycles| - 1]) && DayOf(cycles[|cycles| - 1]).Some?
  {
    var init := cycles[..|cycles| - 1];
    assert forall i | 0 <= i < |init| :: init[i] == cycles[i];
  }

  lemma {:induction false} MaxDayBounds(cycles: seq<Record>)
    requires cycles != [] && MaxDay(cycles).Some?
    decreases |cycles|
    ensures forall i | 0 <= i < |cycles| :: DayOf(cycles[i]).Some? && DayOf(cycles[i]).value <= MaxDay(cycles).value
  {
    var n := |cycles|;
    if n > 1 {
      var init := cycles[..n - 1];
      MaxDayBounds(init);
      assert forall i | 0 <= i < n - 1 :: init[i] == cycles[i];
    }
  }

  lemma {:induction false} MaxDayAttained(cycles: seq<Record>)
    requires cycles != [] && MaxDay(cycles).Some?
    decreases |cycles|
    ensures exists i | 0 <= i < |cycles| :: DayOf(cycles[i]) == MaxDay(cycles)
  {
    var n := |cycles|;
    if n == 1 {
      assert DayOf(cycles[0]) == MaxDay(cycles);
    } else {
      var init := cycles[..n - 1];
      var m := MaxDay(init).value;
      if DayOf(cycles[n - 1]).value <= m {
        MaxDayAttained(init);
        var i :| 0 <= i < n - 1 && DayOf(init[i]) == Some(m);
        assert init[i] == cycles[i];
        assert DayOf(cycles[i]) == MaxDay(cycles);
      } else {
        assert DayOf(cycles[n - 1]) == MaxDay(cycles);
      }
    }
  }

  /** `get_cycle_num`: 1 for an empty history, otherwise one past the
      largest logged day; None when a day cannot be read. */
  function CycleNum(cycles: seq<Record>): (r: Option<int>)
  {
    if cycles == [] then Some(1)
    else match MaxDay(cycles)
      case None => None
      case Some(m) => Some(m + 1)
  }

  /** The next cycle number is greater than every logged day, one past the
      latest of them, and exists exactly when every day can be read. */
  lemma CycleNumSpec(cycles: seq<Record>)
    ensures CycleNum(cycles).Some? <==> AllDaysRead(cycles)
    ensures cycles == [] ==> CycleNum(cycles) == Some(1)
    ensures CycleNum(cycles).Some? ==> forall i | 0 <= i < |cycles| :: DayOf(cycles[i]).value < CycleNum(cycles).value
    ensures CycleNum(cycles).Some? && cycles != [] ==>
      exists i | 0 <= i < |cycles| :: DayOf(cycles[i]) == Some(CycleNum(cycles).value - 1)
  {
    if cycles != [] {
      MaxDaySpec(cycles);
    }
  }

  /** Logging cycle `n` under the number the log itself gave makes the next
      number `n + 1`, also once older records have moved to the archive. */
  lemma NextCycleNumber(logs: Logs, action: string, target: string, result: string, error: string, note: string)
    requires CycleNum(ReadCycles(logs.active)).Some?
    ensures var n := CycleNum(ReadCycles(logs.active)).value;
      var r := AppendCycle(logs, NewRecord(n, action, target, result, error, note));
      CycleNum(ReadCycles(r.active)) == Some(n + 1)
  {
    var prev := ReadCycles(logs.active);
    var n := CycleNum(prev).value;
    var rec := NewRecord(n, action, target, result, error, note);
    CycleNumSpec(prev);
    NewRecordDay(n, action, target, result, error, note);
    DaysUpTo(prev, rec, n);
    AppendedIsMax(logs, rec, n);
  }

  /** A new record carries its cycle number as its day. */
  lemma NewRecordDay(n: int, action: string, target: string, result: string, error: string, note: string)
    ensures DayOf(NewRecord(n, action, target, result, error, note)) == Some(n)
  {
    ParseIntRoundTrip(n);
  }

  /** Appending a record whose day is the largest makes it the maximum of
      what stays active. */
  lemma AppendedIsMax(logs: Logs, rec: Record, n: int)
    requires DayOf(rec) == Some(n)
    requires DaysAtMost(ReadCycles(logs.active) + [rec], n)
    ensures CycleNum(ReadCycles(AppendCycle(logs, rec).active)) == Some(n + 1)
  {
    var all := ReadCycles(logs.active) + [rec];
    var now := ReadCycles(AppendCycle(logs, rec).active);
    SuffixDaysUpTo(all, |all| - |now|, n);
    assert now == all[|all| - |now|..];
    LastIsMax(now, n);
  }

  /** Every day of the history, and the new one, is at most `n`. */
  predicate DaysAtMost(cycles: seq<Record>, n: int) {
    forall i | 0 <= i < |cycles| :: DayOf(cycles[i]).Some? && DayOf(cycles[i]).value <= n
  }

  lemma DaysUpTo(prev: seq<Record>, rec: Record, n: int)
    requires forall i | 0 <= i < |prev| :: DayOf(prev[i]).Some? && DayOf(prev[i]).value < n
    requires DayOf(rec) == Some(n)
    ensures DaysAtMost(prev + [rec], n)
  {
    var all := prev + [rec];
    forall i | 0 <= i < |all| ensures DayOf(all[i]).Some? && DayOf(all[i]).value <= n {
      if i < |prev| {
        assert all[i] == prev[i];
      }
    }
  }

  lemma SuffixDaysUpTo(all: seq<Record>, cut: nat, n: int)
    requires cut <= |all| && DaysAtMost(all, n)
    ensures DaysAtMost(all[cut..], n)
  {
    var now := all[cut..];
    forall i | 0 <= i < |now| ensures DayOf(now[i]).Some? && DayOf(now[i]).value <= n {
      assert now[i] == all[cut + i];
    }
  }

  /** When the last day is `n` and none is larger, the next number is `n + 1`. */
  lemma LastIsMax(cycles: seq<Record>, n: int)
    requires cycles != [] && DaysAtMost(cycles, n) && DayOf(cycles[|cycles| - 1]) == Some(n)
    ensures CycleNum(cycles) == Some(n + 1)
  {
    MaxDaySpec(cycles);
  }
}
