/** String helpers shared by every component: the subset of Python's `str`
    behaviour the orchestrator relies on (strip, startswith, find, splitlines,
    join, int/str conversion), stated over `seq<char>`. */
module Text {
  import opened Opt

  /** Whitespace as Python's `str.isspace` sees it, restricted to the
      ASCII and Latin-1 range. */
  predicate IsSpace(c: char) {
    ('\t' <= c <= '\r') || ('\U{1C}' <= c <= '\U{1F}') || c == ' ' || c == '\U{85}' || c == '\U{A0}'
  }

  predicate IsDigit(c: char) {
    '0' <= c <= '9'
  }

  // ---------------------------------------------------------------------------
  // Trimming
  // ---------------------------------------------------------------------------

  predicate IsNewline(c: char) {
    c == '\n'
  }

  /** Drops the longest prefix of characters satisfying `drop` (`str.lstrip(chars)`). */
  function LTrim(s: string, drop: char -> bool): (r: string)
    decreases |s|
    ensures |r| <= |s|
    ensures r == [] || !drop(r[0])
  {
    if s != [] && drop(s[0]) then LTrim(s[1..], drop) else s
  }

  /** `LTrim` keeps a suffix. */
  lemma {:induction false} LTrimSuffix(s: string, drop: char -> bool)
    decreases |s|
    ensures LTrim(s, drop) == s[|s| - |LTrim(s, drop)|..]
  {
    if s != [] && drop(s[0]) {
      LTrimSuffix(s[1..], drop);
    }
  }

  /** `LTrim` drops only characters satisfying `drop`. */
  lemma {:induction false} LTrimDrops(s: string, drop: char -> bool)
    decreases |s|
    ensures forall i | 0 <= i < |s| - |LTrim(s, drop)| :: drop(s[i])
  {
    if s != [] && drop(s[0]) {
      LTrimDrops(s[1..], drop);
      forall i | 1 <= i < |s| - |LTrim(s, drop)| ensures drop(s[i]) {
        assert s[i] == s[1..][i - 1];
      }
    }
  }

  /** Drops the longest suffix of characters satisfying `drop` (`str.rstrip(chars)`). */
  function RTrim(s: string, drop: char -> bool): (r: string)
    decreases |s|
    ensures |r| <= |s|
    ensures r == [] || !drop(r[|r| - 1])
  {
    if s != [] && drop(s[|s| - 1]) then RTrim(s[..|s| - 1], drop) else s
  }

  /** `RTrim` keeps a prefix. */
  lemma {:induction false} RTrimPrefix(s: string, drop: char -> bool)
    decreases |s|
    ensures RTrim(s, drop) == s[..|RTrim(s, drop)|]
  {
    if s != [] && drop(s[|s| - 1]) {
      RTrimPrefix(s[..|s| - 1], drop);
    }
  }

  /** `RTrim` drops only characters satisfying `drop`. */
  lemma {:induction false} RTrimDrops(s: string, drop: char -> bool)
    decreases |s|
    ensures forall i | |RTrim(s, drop)| <= i < |s| :: drop(s[i])
  {
    if s != [] && drop(s[|s| - 1]) {
      RTrimDrops(s[..|s| - 1], drop);
    }
  }

  /** `str.strip()`. */
  function Strip(s: string): string {
    LTrim(RTrim(s, IsSpace), IsSpace)
  }

  /** `str.strip("\n")`. */
  function StripNewlines(s: string): string {
    LTrim(RTrim(s, IsNewline), IsNewline)
  }

  /** A stripped string has no whitespace at either end. */
  lemma StripEnds(s: string)
    ensures var r := Strip(s); r == [] || (!IsSpace(r[0]) && !IsSpace(r[|r| - 1]))
  {
    var m := RTrim(s, IsSpace);
    var r := LTrim(m, IsSpace);
    if r != [] {
      LTrimSuffix(m, IsSpace);
      assert r == m[|m| - |r|..];
      assert r[|r| - 1] == m[|m| - 1];
    }
  }

  /** Text with no whitespace at either end is its own strip. */
  lemma StripFixed(s: string)
    requires s == [] || (!IsSpace(s[0]) && !IsSpace(s[|s| - 1]))
    ensures Strip(s) == s
  {
    if s != [] {
      assert RTrim(s, IsSpace) == s;
      assert LTrim(s, IsSpace) == s;
    }
  }

  /** Stripping undoes one added leading space on stripped text. */
  lemma StripLeadingSpace(m: string)
    requires Strip(m) == m
    ensures Strip(" " + m) == m
  {
    StripEnds(m);
    var s := " " + m;
    if m == [] {
      assert RTrim(s, IsSpace) == RTrim(s[..0], IsSpace);
    } else {
      assert s[|s| - 1] == m[|m| - 1];
      assert RTrim(s, IsSpace) == s;
      assert s[1..] == m;
      assert LTrim(s, IsSpace) == LTrim(m, IsSpace) == m;
    }
  }

  // ---------------------------------------------------------------------------
  // Prefixes, suffixes and search
  // ---------------------------------------------------------------------------

  predicate StartsWith(s: string, p: string) {
    |p| <= |s| && s[..|p|] == p
  }

  predicate EndsWith(s: string, p: string) {
    |p| <= |s| && s[|s| - |p|..] == p
  }

  /** `str.removeprefix(p)`. */
  function RemovePrefix(s: string, p: string): (r: string)
    ensures StartsWith(s, p) ==> p + r == s
    ensures !StartsWith(s, p) ==> r == s
  {
    if StartsWith(s, p) then s[|p|..] else s
  }

  /** `sub` occurs in `s` starting at index `i`. */
  predicate OccursAt(s: string, sub: string, i: nat) {
    i + |sub| <= |s| && forall j | 0 <= j < |sub| :: s[i + j] == sub[j]
  }

  /** `s.find(sub, from)`: the first index at or after `from` where `sub` occurs. */
  function FindFrom(s: string, sub: string, from: nat): (r: Option<nat>)
    decreases |s| - from
    ensures r.Some? ==> from <= r.value && r.value + |sub| <= |s|
  {
    if from + |sub| > |s| then None
    else if OccursAt(s, sub, from) then Some(from)
    else FindFrom(s, sub, from + 1)
  }

  /** What `FindFrom` finds: an occurrence with none before it, or none at
      all. */
  lemma {:induction false} FindFromSpec(s: string, sub: string, from: nat)
    decreases |s| - from
    ensures var r := FindFrom(s, sub, from);
      && (r.Some? ==> OccursAt(s, sub, r.value))
      && (r.Some? ==> forall j | from <= j < r.value :: !OccursAt(s, sub, j))
      && (r.None? ==> forall j | from <= j :: !OccursAt(s, sub, j))
  {
    if from + |sub| <= |s| && !OccursAt(s, sub, from) {
      FindFromSpec(s, sub, from + 1);
    }
  }

  /** `FindFrom` returns an occurrence with none before it. */
  lemma {:induction false} FindFromIs(s: string, sub: string, from: nat, i: nat)
    requires from <= i && OccursAt(s, sub, i)
    requires forall k | from <= k < i :: !OccursAt(s, sub, k)
    decreases i - from
    ensures FindFrom(s, sub, from) == Some(i)
  {
    if from < i {
      FindFromIs(s, sub, from + 1, i);
    }
  }

  /** Concatenation is associative. */
  lemma Assoc<T>(a: seq<T>, b: seq<T>, c: seq<T>)
    ensures a + (b + c) == a + b + c
  {
  }

  /** A sequence is the prefix of itself followed by anything. */
  lemma PrefixOfAppend<T>(a: seq<T>, b: seq<T>)
    ensures (a + b)[..|a|] == a && (a + b)[|a|..] == b
  {
  }

  /** A slice of a slice is a slice of the whole. */
  lemma SliceOfSlice(s: string, a: nat, b: nat, k: nat, n: nat)
    requires a <= b <= |s| && k + n <= b - a
    ensures s[a..b][k..k + n] == s[a + k..a + k + n]
  {
    var x := s[a..b][k..k + n];
    var y := s[a + k..a + k + n];
    assert |x| == |y| == n;
    forall t | 0 <= t < n ensures x[t] == y[t] {
      assert x[t] == s[a..b][k + t] == s[a + k + t];
    }
  }

  // ---------------------------------------------------------------------------
  // Text assembled from parts
  // ---------------------------------------------------------------------------

  /** `"".join(parts)`. */
  function Concat(parts: seq<string>): string
    decreases |parts|
  {
    if parts == [] then [] else parts[0] + Concat(parts[1..])
  }

  /** Where part `i` begins in `Concat(parts)`: the total length of the
      parts before it. */
  function Offset(parts: seq<string>, i: nat): nat
    requires i <= |parts|
    decreases i
  {
    if i == 0 then 0 else Offset(parts, i - 1) + |parts[i - 1]|
  }

  lemma OffsetNext(parts: seq<string>, i: nat)
    requires i < |parts|
    ensures Offset(parts, i + 1) == Offset(parts, i) + |parts[i]|
  {
  }

  /** Offsets past the first part are offsets in the rest, shifted by its
      length. */
  lemma {:induction false} OffsetTail(parts: seq<string>, i: nat)
    requires 0 < i <= |parts|
    decreases i
    ensures Offset(parts, i) == |parts[0]| + Offset(parts[1..], i - 1)
  {
    if i > 1 {
      OffsetTail(parts, i - 1);
      assert parts[1..][i - 2] == parts[i - 1];
    }
  }

  lemma {:induction false} ConcatLength(parts: seq<string>)
    decreases |parts|
    ensures |Concat(parts)| == Offset(parts, |parts|)
  {
    if parts != [] {
      ConcatLength(parts[1..]);
      OffsetTail(parts, |parts|);
    }
  }

  /** Each character of a part sits at the part's offset in the whole. */
  lemma {:induction false} PartChar(parts: seq<string>, i: nat, j: nat)
    requires i < |parts| && j < |parts[i]|
    decreases i
    ensures Offset(parts, i) + j < |Concat(parts)|
    ensures Concat(parts)[Offset(parts, i) + j] == parts[i][j]
  {
    if i > 0 {
      PartChar(parts[1..], i - 1, j);
      OffsetTail(parts, i);
    }
  }

  /** Each part occurs at its offset. */
  lemma PartOccurs(parts: seq<string>, i: nat)
    requires i < |parts|
    ensures OccursAt(Concat(parts), parts[i], Offset(parts, i))
  {
    OffsetNext(parts, i);
    ConcatLength(parts);
    assert Offset(parts, i + 1) <= Offset(parts, |parts|) by {
      OffsetMonotone(parts, i + 1, |parts|);
    }
    forall j | 0 <= j < |parts[i]| ensures Concat(parts)[Offset(parts, i) + j] == parts[i][j] {
      PartChar(parts, i, j);
    }
  }

  /** Each part is the slice between its offset and the next. */
  lemma PartSlice(parts: seq<string>, i: nat)
    requires i < |parts|
    ensures Offset(parts, i) <= Offset(parts, i + 1) <= |Concat(parts)|
    ensures Concat(parts)[Offset(parts, i)..Offset(parts, i + 1)] == parts[i]
  {
    PartOccurs(parts, i);
    OffsetNext(parts, i);
  }

  /** The same, with the offset of part `i` given as `lo`. */
  lemma PartSliceFrom(parts: seq<string>, i: nat, lo: nat)
    requires i < |parts| && lo == Offset(parts, i)
    ensures lo <= Offset(parts, i + 1) <= |Concat(parts)|
    ensures Concat(parts)[lo..Offset(parts, i + 1)] == parts[i]
  {
    PartSlice(parts, i);
  }

  lemma {:induction false} OffsetMonotone(parts: seq<string>, i: nat, j: nat)
    requires i <= j <= |parts|
    decreases j
    ensures Offset(parts, i) <= Offset(parts, j)
  {
    if i < j {
      OffsetMonotone(parts, i, j - 1);
      OffsetNext(parts, j - 1);
    }
  }

  /** `c` is the last character of `sub` and occurs nowhere before it, as
      with a closing `>` of a tag. Such a `sub` cannot overlap itself. */
  predicate EndsOnlyWith(sub: string, c: char) {
    sub != [] && sub[|sub| - 1] == c && forall j | 0 <= j < |sub| - 1 :: sub[j] != c
  }

  /** Searching from the start of part `i` finds part `i + 1` when part `i`
      does not contain it and it ends with a character found nowhere else in
      it: no occurrence can start inside part `i`, wholly or straddling. */
  lemma FindNextPart(parts: seq<string>, i: nat, c: char, sub: string, o: nat, o1: nat)
    requires i + 1 < |parts| && sub == parts[i + 1] && o == Offset(parts, i) && o1 == Offset(parts, i + 1)
    requires EndsOnlyWith(sub, c) && !Contains(parts[i], sub)
    ensures FindFrom(Concat(parts), sub, o) == Some(o1)
  {
    var s := Concat(parts);
    var n := |sub|;
    OffsetNext(parts, i);
    PartOccurs(parts, i + 1);
    forall k | o <= k < o1 ensures !OccursAt(s, sub, k) {
      if OccursAt(s, sub, k) {
        if k + n <= o1 {
          WithinPart(parts, i, sub, k - o);
          ContainsIff(parts[i], sub);
          assert false;
        } else {
          PartChar(parts, i + 1, k + n - 1 - o1);
          assert false;
        }
      }
    }
    FindFromIs(s, sub, o, o1);
  }

  /** An occurrence lying wholly inside part `i` of the whole is an
      occurrence in that part. */
  lemma WithinPart(parts: seq<string>, i: nat, sub: string, k: nat)
    requires i < |parts| && k + |sub| <= |parts[i]|
    requires OccursAt(Concat(parts), sub, Offset(parts, i) + k)
    ensures OccursAt(parts[i], sub, k)
  {
    forall j | 0 <= j < |sub| ensures parts[i][k + j] == sub[j] {
      PartChar(parts, i, k + j);
    }
  }

  /** A slice that no occurrence starts in contains no occurrence. */
  lemma NotInSlice(s: string, sub: string, from: nat, j: nat)
    requires from <= j <= |s| && |sub| > 0
    requires forall k | from <= k < j :: !OccursAt(s, sub, k)
    ensures !Contains(s[from..j], sub)
  {
    var g := s[from..j];
    ContainsIff(g, sub);
    forall k: nat | k + |sub| <= |g| ensures !OccursAt(g, sub, k) {
      SliceOfSlice(s, from, j, k, |sub|);
      assert !OccursAt(s, sub, from + k);
    }
  }

  /** Python's `sub in s`. */
  predicate Contains(s: string, sub: string) {
    FindFrom(s, sub, 0).Some?
  }

  /** `Contains` is exactly "occurs somewhere". */
  lemma ContainsIff(s: string, sub: string)
    ensures Contains(s, sub) <==> exists i: nat :: OccursAt(s, sub, i)
  {
    FindFromSpec(s, sub, 0);
    if Contains(s, sub) {
      var i := FindFrom(s, sub, 0).value;
      assert OccursAt(s, sub, i);
    }
  }

  /** A string always contains each of its own slices. */
  lemma ContainsSlice(s: string, i: nat, j: nat)
    requires i <= j <= |s|
    ensures Contains(s, s[i..j])
  {
    assert OccursAt(s, s[i..j], i) by {
      forall t | 0 <= t < j - i ensures s[i + t] == s[i..j][t] {
      }
    }
    ContainsIff(s, s[i..j]);
  }

  /** The index just past the run of whitespace that starts at `i`. */
  function SkipSpace(s: string, i: nat): (r: nat)
    requires i <= |s|
    decreases |s| - i
    ensures i <= r <= |s|
    ensures r == |s| || !IsSpace(s[r])
  {
    if i < |s| && IsSpace(s[i]) then SkipSpace(s, i + 1) else i
  }

  /** Everything `SkipSpace` passes over is whitespace. */
  lemma {:induction false} SkipSpaceSpec(s: string, i: nat)
    requires i <= |s|
    decreases |s| - i
    ensures forall j | i <= j < SkipSpace(s, i) :: IsSpace(s[j])
  {
    if i < |s| && IsSpace(s[i]) {
      SkipSpaceSpec(s, i + 1);
    }
  }

  /** The index just past the run of characters other than `stop1`, `stop2`
      that starts at `i` (the end of a greedy `[^xy]*`). */
  function RunUntil(s: string, i: nat, stop1: char, stop2: char): (r: nat)
    requires i <= |s|
    decreases |s| - i
    ensures i <= r <= |s|
    ensures r == |s| || s[r] == stop1 || s[r] == stop2
  {
    if i < |s| && s[i] != stop1 && s[i] != stop2 then RunUntil(s, i + 1, stop1, stop2) else i
  }

  /** Nothing `RunUntil` passes over is a stop character. */
  lemma {:induction false} RunUntilSpec(s: string, i: nat, stop1: char, stop2: char)
    requires i <= |s|
    decreases |s| - i
    ensures forall j | i <= j < RunUntil(s, i, stop1, stop2) :: s[j] != stop1 && s[j] != stop2
  {
    if i < |s| && s[i] != stop1 && s[i] != stop2 {
      RunUntilSpec(s, i + 1, stop1, stop2);
    }
  }

  /** A run that meets `c` at `e` and nowhere before stops at `e`. */
  lemma {:induction false} RunUntilStops(s: string, i: nat, e: nat, c: char)
    requires i <= e < |s| && s[e] == c
    requires forall x | i <= x < e :: s[x] != c
    decreases e - i
    ensures RunUntil(s, i, c, c) == e
  {
    if i < e {
      RunUntilStops(s, i + 1, e, c);
    }
  }

  /** The index just past the run of decimal digits that starts at `i`. */
  function RunDigits(s: string, i: nat): (r: nat)
    requires i <= |s|
    decreases |s| - i
    ensures i <= r <= |s|
    ensures forall j | i <= j < r :: IsDigit(s[j])
    ensures r == |s| || !IsDigit(s[r])
  {
    if i < |s| && IsDigit(s[i]) then RunDigits(s, i + 1) else i
  }

  // ---------------------------------------------------------------------------
  // Case mapping and counting
  // ---------------------------------------------------------------------------

  function LowerChar(c: char): char {
    if 'A' <= c <= 'Z' then (c as int + 32) as char else c
  }

  function UpperChar(c: char): char {
    if 'a' <= c <= 'z' then (c as int - 32) as char else c
  }

  /** `str.lower()` on ASCII letters. */
  function Lower(s: string): (r: string)
    ensures |r| == |s| && forall i | 0 <= i < |s| :: r[i] == LowerChar(s[i])
  {
    seq(|s|, i requires 0 <= i < |s| => LowerChar(s[i]))
  }

  /** `str.upper()` on ASCII letters. */
  function Upper(s: string): (r: string)
    ensures |r| == |s| && forall i | 0 <= i < |s| :: r[i] == UpperChar(s[i])
  {
    seq(|s|, i requires 0 <= i < |s| => UpperChar(s[i]))
  }

  /** `s.count(c)` for a single character. */
  function CountChar(s: string, c: char): (n: nat)
    ensures n <= |s|
    ensures n == |s| <==> forall i | 0 <= i < |s| :: s[i] == c
  {
    if s == [] then 0 else (if s[0] == c then 1 else 0) + CountChar(s[1..], c)
  }

  // ---------------------------------------------------------------------------
  // Lines
  // ---------------------------------------------------------------------------

  /** `s.find(c, from)` for a single character. */
  function FindChar(s: string, c: char, from: nat): (r: Option<nat>)
    decreases |s| - from
    ensures r.Some? ==> from <= r.value < |s| && s[r.value] == c
    ensures r.Some? ==> forall j | from <= j < r.value :: s[j] != c
    ensures r.None? ==> forall j | from <= j < |s| :: s[j] != c
  {
    if from >= |s| then None
    else if s[from] == c then Some(from)
    else FindChar(s, c, from + 1)
  }

  /** `s.splitlines()` for text whose only line terminator is '\n'. */
  function Lines(s: string): (r: seq<string>)
    decreases |s|
    ensures forall i | 0 <= i < |r| :: '\n' !in r[i]
    ensures r == [] <==> s == []
  {
    if s == [] then []
    else match FindChar(s, '\n', 0)
      case None => [s]
      case Some(k) => [s[..k]] + Lines(s[k + 1..])
  }

  /** A text without a line break is a single line. */
  lemma LinesOfLine(a: string)
    requires a != [] && '\n' !in a
    ensures Lines(a) == [a]
  {
    assert FindChar(a, '\n', 0).None?;
  }

  /** Two lines joined by a line break split back into the two. */
  lemma LinesOfTwo(a: string, b: string)
    requires '\n' !in a && b != [] && '\n' !in b
    ensures Lines(a + "\n" + b) == [a, b]
  {
    var s := a + "\n" + b;
    assert s[|a|] == '\n';
    assert forall j | 0 <= j < |a| :: s[j] == a[j];
    assert FindChar(s, '\n', 0) == Some(|a|);
    assert s[..|a|] == a && s[|a| + 1..] == b;
    LinesOfLine(b);
  }

  /** `sep.join(ls)`. */
  function Join(ls: seq<string>, sep: string): string
    decreases |ls|
  {
    if ls == [] then ""
    else if |ls| == 1 then ls[0]
    else ls[0] + sep + Join(ls[1..], sep)
  }

  /** Splitting into lines and joining them back with '\n' restores the
      text, up to one final line terminator. */
  lemma {:induction false} LinesJoin(s: string)
    decreases |s|
    ensures Join(Lines(s), "\n") + (if s != [] && s[|s| - 1] == '\n' then "\n" else "") == s
  {
    if s != [] {
      match FindChar(s, '\n', 0)
      case None =>
      case Some(k) =>
        var rest := s[k + 1..];
        LinesJoin(rest);
        LinesJoinStep(s, k);
    }
  }

  /** One line split off before the first terminator at `k`. */
  lemma LinesJoinStep(s: string, k: nat)
    requires FindChar(s, '\n', 0) == Some(k)
    requires var rest := s[k + 1..];
      Join(Lines(rest), "\n") + (if rest != [] && rest[|rest| - 1] == '\n' then "\n" else "") == rest
    ensures Join(Lines(s), "\n") + (if s[|s| - 1] == '\n' then "\n" else "") == s
  {
    var rest := s[k + 1..];
    var line := s[..k];
    assert s == line + "\n" + rest;
    assert Lines(s) == [line] + Lines(rest);
    if rest == [] {
      assert Lines(s) == [line];
    } else {
      JoinCons(line, Lines(rest), "\n");
      var tail := if rest[|rest| - 1] == '\n' then "\n" else "";
      assert s[|s| - 1] == rest[|rest| - 1];
      Assoc(line + "\n", Join(Lines(rest), "\n"), tail);
    }
  }

  /** Joining a line in front of a non-empty list. */
  lemma JoinCons(line: string, ls: seq<string>, sep: string)
    requires ls != []
    ensures Join([line] + ls, sep) == line + sep + Join(ls, sep)
  {
    assert ([line] + ls)[1..] == ls;
  }

  /** The first line that, once stripped, starts with `p`; the stripped line. */
  function FirstStripped(lines: seq<string>, p: string): Option<string>
    decreases |lines|
  {
    if lines == [] then None
    else if StartsWith(Strip(lines[0]), p) then Some(Strip(lines[0]))
    else FirstStripped(lines[1..], p)
  }

  /** `FirstStripped` finds the earliest such line, and none when there is none. */
  lemma {:induction false} FirstStrippedSpec(lines: seq<string>, p: string)
    decreases |lines|
    ensures FirstStripped(lines, p).None? <==> forall i | 0 <= i < |lines| :: !StartsWith(Strip(lines[i]), p)
    ensures FirstStripped(lines, p).Some? ==>
      exists i | 0 <= i < |lines| ::
        && FirstStripped(lines, p).value == Strip(lines[i])
        && StartsWith(Strip(lines[i]), p)
        && forall j | 0 <= j < i :: !StartsWith(Strip(lines[j]), p)
  {
    if lines != [] && !StartsWith(Strip(lines[0]), p) {
      var rest := lines[1..];
      FirstStrippedSpec(rest, p);
      assert forall i | 1 <= i < |lines| :: lines[i] == rest[i - 1];
      if FirstStripped(rest, p).Some? {
        var i :| 0 <= i < |rest| && FirstStripped(rest, p).value == Strip(rest[i])
          && StartsWith(Strip(rest[i]), p) && forall j | 0 <= j < i :: !StartsWith(Strip(rest[j]), p);
        assert forall j | 1 <= j < i + 1 :: lines[j] == rest[j - 1];
        assert FirstStripped(lines, p).value == Strip(lines[i + 1]);
      }
    } else if lines != [] {
      assert FirstStripped(lines, p).value == Strip(lines[0]);
    }
  }

  // ---------------------------------------------------------------------------
  // Numbers
  // ---------------------------------------------------------------------------

  /** `s.isdigit()` for ASCII digits: non-empty and all digits. */
  predicate IsDigits(s: string) {
    |s| > 0 && forall i | 0 <= i < |s| :: IsDigit(s[i])
  }

  function DigitValue(c: char): nat
    requires IsDigit(c)
  {
    c as int - '0' as int
  }

  function DigitChar(d: nat): (c: char)
    requires d < 10
    ensures IsDigit(c) && DigitValue(c) == d
  {
    ('0' as int + d) as char
  }

  /** `int(s)` for a string of ASCII digits. */
  function DigitsValue(s: string): nat
    requires forall i | 0 <= i < |s| :: IsDigit(s[i])
    decreases |s|
  {
    if s == [] then 0 else DigitsValue(s[..|s| - 1]) * 10 + DigitValue(s[|s| - 1])
  }

  /** `str(n)` for a natural number: decimal digits, no leading zero, and
      reading the digits back yields `n`. */
  function NatToString(n: nat): (r: string)
    ensures IsDigits(r) && DigitsValue(r) == n
    ensures r[0] != '0' || r == "0"
  {
    if n < 10 then [DigitChar(n)]
    else
      var hi := NatToString(n / 10);
      var r := hi + [DigitChar(n % 10)];
      assert r[..|r| - 1] == hi;
      r
  }

  /** `str(i)` for an integer. */
  function IntToString(i: int): (r: string)
    ensures i >= 0 ==> r == NatToString(i)
    ensures i < 0 ==> r == "-" + NatToString(-i)
  {
    if i < 0 then "-" + NatToString(-i) else NatToString(i)
  }

  /** Two naturals with the same decimal rendering are equal. */
  lemma NatToStringInjective(a: nat, b: nat)
    requires NatToString(a) == NatToString(b)
    ensures a == b
  {
  }
}
