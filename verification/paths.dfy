/** File-system paths as sequences of segments, resolution of a relative
    path against a directory (`Path.__truediv__` followed by `resolve()`,
    without symbolic links), and the path-traversal guard of `apply_files`. */
module Paths {
  import opened Opt
  import opened Text
  import opened Response

  /** An absolute path, as its segments below the file-system root. */
  type Path = seq<string>

  /** A resolved path has no empty, "." or ".." segment. */
  predicate Normal(p: Path) {
    forall i | 0 <= i < |p| :: p[i] != "" && p[i] != "." && p[i] != ".."
  }

  /** `s.split(c)`. */
  function SplitOn(s: string, c: char): (r: seq<string>)
    decreases |s|
    ensures |r| >= 1
    ensures forall i | 0 <= i < |r| :: c !in r[i]
  {
    match FindChar(s, c, 0)
    case None => [s]
    case Some(k) =>
      [s[..k]] + SplitOn(s[k + 1..], c)
  }

  /** Walks `segs` from `base`: empty and "." segments stay put, ".." goes
      to the parent (the root is its own parent), a name goes down. */
  function Normalize(base: Path, segs: seq<string>): (r: Path)
    decreases |segs|
    ensures Normal(base) ==> Normal(r)
  {
    if segs == [] then base
    else if segs[0] == "" || segs[0] == "." then Normalize(base, segs[1..])
    else if segs[0] == ".." then Normalize(if base == [] then [] else base[..|base| - 1], segs[1..])
    else Normalize(base + [segs[0]], segs[1..])
  }

  /** `(base / raw).resolve()`: an absolute `raw` replaces `base`. */
  function Resolve(base: Path, raw: string): (r: Path)
    ensures Normal(base) || StartsWith(raw, "/") ==> Normal(r)
  {
    if StartsWith(raw, "/") then Normalize([], SplitOn(raw, '/'))
    else Normalize(base, SplitOn(raw, '/'))
  }

  /** `str(path)`. */
  function PathString(p: Path): string {
    "/" + Join(p, "/")
  }

  /** `path.parent`; the root is its own parent. */
  function Parent(p: Path): Path {
    if p == [] then [] else p[..|p| - 1]
  }

  /** `path.name`. */
  function Name(p: Path): string {
    if p == [] then "" else p[|p| - 1]
  }

  /** The files of the file system and their text. */
  type Disk = map<Path, string>

  /** `path.exists()`: a file, or a directory holding at least one file. */
  predicate Exists(disk: Disk, p: Path) {
    exists k | k in disk :: |p| <= |k| && k[..|p|] == p
  }

  /** `p` lies strictly below directory `root`. */
  predicate Under(root: Path, p: Path) {
    |root| < |p| && p[..|root|] == root
  }

  /** Without ".." segments, resolution only descends: the result lies
      below the base whenever at least one name segment is followed. */
  lemma {:induction false} NormalizeDescends(base: Path, segs: seq<string>)
    requires forall i | 0 <= i < |segs| :: segs[i] != ".."
    decreases |segs|
    ensures |base| <= |Normalize(base, segs)| && Normalize(base, segs)[..|base|] == base
  {
    if segs != [] {
      var next := if segs[0] == "" || segs[0] == "." then base else base + [segs[0]];
      assert next[..|base|] == base;
      NormalizeDescends(next, segs[1..]);
      var r := Normalize(next, segs[1..]);
      assert r[..|base|] == r[..|next|][..|base|];
    }
  }

  // ---------------------------------------------------------------------------
  // Path-traversal guard
  // ---------------------------------------------------------------------------

  /** Where a proposed file lands: its path, with a leading "game/" dropped,
      resolved against the game root. */
  function Target(root: Path, raw: string): Path
  {
    Resolve(root, RemovePrefix(raw, "game/"))
  }

  /** The guard as the source writes it: the rendered target must start with
      the rendered root, as a string. */
  predicate GuardAsWritten(root: Path, raw: string)
  {
    StartsWith(PathString(Target(root, raw)), PathString(root))
  }

  /** The guard compared segment-wise: the target must lie strictly below
      the root. Returns the target when the file may be written. */
  function Guard(root: Path, raw: string): (r: Option<Path>)
    ensures r.Some? <==> Under(root, Target(root, raw))
    ensures r.Some? ==> r.value == Target(root, raw)
  {
    var t := Target(root, raw);
    if Under(root, t) then Some(t) else None
  }

  /** A relative path without ".." segments that names something passes the
      corrected guard. */
  lemma PlainRelativePathAccepted(root: Path, raw: string)
    requires !StartsWith(RemovePrefix(raw, "game/"), "/")
    requires var segs := SplitOn(RemovePrefix(raw, "game/"), '/');
      (forall i | 0 <= i < |segs| :: segs[i] != "..")
      && (exists i | 0 <= i < |segs| :: segs[i] != "" && segs[i] != ".")
    ensures Guard(root, raw).Some?
  {
    var segs := SplitOn(RemovePrefix(raw, "game/"), '/');
    NormalizeDescends(root, segs);
    NormalizeGrows(root, segs);
  }

  /** Following a name segment makes the path strictly longer than the base
      when no ".." can shorten it again. */
  lemma {:induction false} NormalizeGrows(base: Path, segs: seq<string>)
    requires forall i | 0 <= i < |segs| :: segs[i] != ".."
    requires exists i | 0 <= i < |segs| :: segs[i] != "" && segs[i] != "."
    decreases |segs|
    ensures |Normalize(base, segs)| > |base|
  {
    if segs[0] == "" || segs[0] == "." {
      var i :| 0 <= i < |segs| && segs[i] != "" && segs[i] != ".";
      assert segs[1..][i - 1] == segs[i];
      NormalizeGrows(base, segs[1..]);
    } else {
      NormalizeDescends(base + [segs[0]], segs[1..]);
    }
  }

  // ---------------------------------------------------------------------------
  // Writing the proposed files
  // ---------------------------------------------------------------------------

  /** Which guard admits a file: the source's string-prefix comparison, or
      the segment-wise one. */
  datatype GuardKind = StringPrefix | Segments

  /** The target a file is written to, if the guard admits it. */
  function Admit(kind: GuardKind, root: Path, raw: string): (r: Option<Path>)
    ensures kind == Segments ==> r == Guard(root, raw)
    ensures kind == StringPrefix ==> (r.Some? <==> GuardAsWritten(root, raw))
    ensures r.Some? ==> r.value == Target(root, raw)
  {
    match kind
    case Segments => Guard(root, raw)
    case StringPrefix => if GuardAsWritten(root, raw) then Some(Target(root, raw)) else None
  }

  /** A path that is a directory: the game root and its ancestors, and any
      path with a file below it. */
  predicate IsDir(disk: Disk, root: Path, p: Path) {
    (|p| <= |root| && root[..|p|] == p) || exists k | k in disk :: |p| < |k| && k[..|p|] == p
  }

  /** Some ancestor of `p` is a file, so `mkdir(parents=True)` fails. */
  predicate BlockedByFile(disk: Disk, p: Path) {
    exists i | 0 < i < |p| :: p[..i] in disk
  }

  /** `target.parent.mkdir(parents=True, exist_ok=True)` followed by
      `target.write_text` succeeds: the target is not a directory and no
      ancestor of it is a file. Otherwise the call raises. */
  predicate Writable(disk: Disk, root: Path, p: Path) {
    !IsDir(disk, root, p) && !BlockedByFile(disk, p)
  }

  /** The disk after writing, the paths written, in order, and whether a
      write raised, which ends `apply_files` with the earlier writes in
      place. */
  datatype Applied = Applied(disk: Disk, written: seq<Path>, raised: bool)

  /** `apply_files`: each proposed file in turn is written to its target
      when the guard admits it and skipped otherwise. The mode plays no
      part; a later file with the same target overwrites an earlier one. */
  function ApplyFiles(kind: GuardKind, disk: Disk, root: Path, files: seq<FileEdit>): (r: Applied)
    decreases |files|
    ensures |r.written| <= |files|
  {
    if files == [] then Applied(disk, [], false)
    else match Admit(kind, root, files[0].path)
      case None => ApplyFiles(kind, disk, root, files[1..])
      case Some(t) =>
        if !Writable(disk, root, t) then Applied(disk, [], true)
        else
          var rest := ApplyFiles(kind, disk[t := files[0].content], root, files[1..]);
          Applied(rest.disk, [t] + rest.written, rest.raised)
  }

  /** The targets of the admitted files, in input order. */
  function AdmittedTargets(kind: GuardKind, root: Path, files: seq<FileEdit>): seq<Path>
    decreases |files|
  {
    if files == [] then []
    else match Admit(kind, root, files[0].path)
      case None => AdmittedTargets(kind, root, files[1..])
      case Some(t) => [t] + AdmittedTargets(kind, root, files[1..])
  }

  /** When no write raises, the reported paths are the admitted targets,
      in input order. */
  lemma {:induction false} ApplyReportsAdmitted(kind: GuardKind, disk: Disk, root: Path, files: seq<FileEdit>)
    decreases |files|
    ensures var r := ApplyFiles(kind, disk, root, files);
      !r.raised ==> r.written == AdmittedTargets(kind, root, files)
  {
    if files != [] {
      match Admit(kind, root, files[0].path)
      case None =>
        ApplyReportsAdmitted(kind, disk, root, files[1..]);
      case Some(t) =>
        if Writable(disk, root, t) {
          ApplyReportsAdmitted(kind, disk[t := files[0].content], root, files[1..]);
        }
    }
  }

  /** When a write raises, the reported paths are the admitted targets
      before it, and the next admitted target is one that cannot be
      written. */
  lemma {:induction false} ApplyRaisedStopsEarly(kind: GuardKind, disk: Disk, root: Path, files: seq<FileEdit>)
    decreases |files|
    ensures var r := ApplyFiles(kind, disk, root, files); var all := AdmittedTargets(kind, root, files);
      r.raised ==> |r.written| < |all| && r.written == all[..|r.written|] && !Writable(r.disk, root, all[|r.written|])
  {
    if files != [] {
      match Admit(kind, root, files[0].path)
      case None =>
        ApplyRaisedStopsEarly(kind, disk, root, files[1..]);
      case Some(t) =>
        var all := AdmittedTargets(kind, root, files[1..]);
        assert AdmittedTargets(kind, root, files) == [t] + all;
        if Writable(disk, root, t) {
          var next := disk[t := files[0].content];
          ApplyRaisedStopsEarly(kind, next, root, files[1..]);
          var rest := ApplyFiles(kind, next, root, files[1..]);
          assert ApplyFiles(kind, disk, root, files) == Applied(rest.disk, [t] + rest.written, rest.raised);
          if rest.raised {
            ConsPrefix(t, all, rest.written);
          }
        }
    }
  }

  /** Putting the same element in front keeps a proper prefix proper. */
  lemma ConsPrefix<T>(t: T, all: seq<T>, w: seq<T>)
    requires |w| < |all| && w == all[..|w|]
    ensures var w' := [t] + w; var all' := [t] + all;
      |w'| < |all'| && w' == all'[..|w'|] && all'[|w'|] == all[|w|]
  {
  }

  /** The disk gains exactly the reported paths and keeps every other file
      as it was. */
  lemma {:induction false} ApplyTouchesWritten(kind: GuardKind, disk: Disk, root: Path, files: seq<FileEdit>)
    decreases |files|
    ensures var r := ApplyFiles(kind, disk, root, files);
      && r.disk.Keys == disk.Keys + (set t | t in r.written)
      && (forall q | q in disk && q !in r.written :: r.disk[q] == disk[q])
  {
    if files != [] {
      match Admit(kind, root, files[0].path)
      case None =>
        ApplyTouchesWritten(kind, disk, root, files[1..]);
      case Some(t) =>
        if Writable(disk, root, t) {
          var next := disk[t := files[0].content];
          ApplyTouchesWritten(kind, next, root, files[1..]);
        }
    }
  }

  /** With the segment-wise guard nothing outside the root is created,
      changed or removed. */
  lemma {:induction false} ApplyConfined(disk: Disk, root: Path, files: seq<FileEdit>, p: Path)
    requires !Under(root, p)
    decreases |files|
    ensures var after := ApplyFiles(Segments, disk, root, files).disk;
      (p in after <==> p in disk) && (p in disk ==> after[p] == disk[p])
  {
    if files != [] {
      match Guard(root, files[0].path)
      case None =>
        ApplyConfined(disk, root, files[1..], p);
      case Some(t) =>
        if Writable(disk, root, t) {
          ApplyConfined(disk[t := files[0].content], root, files[1..], p);
        }
    }
  }

  /** When no write raises, an admitted file that no later file overwrites
      ends up on disk with its content. */
  lemma {:induction false} ApplyWrites(kind: GuardKind, disk: Disk, root: Path, files: seq<FileEdit>, i: nat)
    requires i < |files| && Admit(kind, root, files[i].path).Some?
    requires forall j | i < j < |files| :: Target(root, files[j].path) != Target(root, files[i].path)
    requires !ApplyFiles(kind, disk, root, files).raised
    decreases |files|, 1
    ensures var r := ApplyFiles(kind, disk, root, files); var t := Target(root, files[i].path);
      t in r.disk && r.disk[t] == files[i].content
  {
    if i == 0 {
      ApplyWritesFirst(kind, disk, root, files);
    } else {
      ApplyWritesLater(kind, disk, root, files, i);
    }
  }

  lemma ApplyWritesFirst(kind: GuardKind, disk: Disk, root: Path, files: seq<FileEdit>)
    requires files != [] && Admit(kind, root, files[0].path).Some?
    requires forall j | 0 < j < |files| :: Target(root, files[j].path) != Target(root, files[0].path)
    requires !ApplyFiles(kind, disk, root, files).raised
    ensures var r := ApplyFiles(kind, disk, root, files); var t := Target(root, files[0].path);
      t in r.disk && r.disk[t] == files[0].content
  {
    var t := Target(root, files[0].path);
    var next := disk[t := files[0].content];
    assert ApplyFiles(kind, disk, root, files).disk == ApplyFiles(kind, next, root, files[1..]).disk;
    forall j | 0 <= j < |files[1..]| ensures Target(root, files[1..][j].path) != t {
      assert files[1..][j] == files[j + 1];
    }
    KeptUntouched(kind, next, root, files[1..], t);
  }

  lemma {:induction false} ApplyWritesLater(kind: GuardKind, disk: Disk, root: Path, files: seq<FileEdit>, i: nat)
    requires 0 < i < |files| && Admit(kind, root, files[i].path).Some?
    requires forall j | i < j < |files| :: Target(root, files[j].path) != Target(root, files[i].path)
    requires !ApplyFiles(kind, disk, root, files).raised
    decreases |files|, 0
    ensures var r := ApplyFiles(kind, disk, root, files); var t := Target(root, files[i].path);
      t in r.disk && r.disk[t] == files[i].content
  {
    var next := ApplyStep(kind, disk, root, files);
    Shift(files, i);
    ApplyWrites(kind, next, root, files[1..], i - 1);
  }

  /** One step of `apply_files` that does not raise: the disk after the first
      file, from which the remaining files carry on. */
  lemma ApplyStep(kind: GuardKind, disk: Disk, root: Path, files: seq<FileEdit>) returns (next: Disk)
    requires files != [] && !ApplyFiles(kind, disk, root, files).raised
    ensures ApplyFiles(kind, disk, root, files).disk == ApplyFiles(kind, next, root, files[1..]).disk
    ensures !ApplyFiles(kind, next, root, files[1..]).raised
  {
    match Admit(kind, root, files[0].path)
    case None =>
      next := disk;
    case Some(u) =>
      next := disk[u := files[0].content];
  }

  /** Dropping the first file shifts the later ones down by one. */
  lemma Shift(files: seq<FileEdit>, i: nat)
    requires 0 < i < |files|
    ensures files[1..][i - 1] == files[i]
    ensures forall j | i - 1 < j < |files| - 1 :: files[1..][j] == files[j + 1]
  {
  }

  /** A path no file targets keeps what it held. */
  lemma {:induction false} KeptUntouched(kind: GuardKind, disk: Disk, root: Path, files: seq<FileEdit>, t: Path)
    requires forall j | 0 <= j < |files| :: Target(root, files[j].path) != t
    decreases |files|
    ensures var after := ApplyFiles(kind, disk, root, files).disk;
      (t in after <==> t in disk) && (t in disk ==> after[t] == disk[t])
  {
    if files != [] {
      match Admit(kind, root, files[0].path)
      case None =>
        KeptUntouched(kind, disk, root, files[1..], t);
      case Some(u) =>
        if Writable(disk, root, u) {
          KeptUntouched(kind, disk[u := files[0].content], root, files[1..], t);
        }
    }
  }

  /** A file the guard rejects is neither written nor reported. */
  lemma RejectedSkipped(kind: GuardKind, disk: Disk, root: Path, f: FileEdit, rest: seq<FileEdit>)
    requires Admit(kind, root, f.path).None?
    ensures ApplyFiles(kind, disk, root, [f] + rest) == ApplyFiles(kind, disk, root, rest)
  {
    assert ([f] + rest)[1..] == rest;
  }

  /** A file aimed at the game root itself passes the string-prefix guard,
      and writing it raises, since the root is a directory: nothing is
      written and the run stops. The segment-wise guard rejects it. */
  lemma RootTargetRaises(disk: Disk, root: Path, f: FileEdit)
    requires f.path == "game/"
    ensures Target(root, f.path) == root
    ensures ApplyFiles(StringPrefix, disk, root, [f]) == Applied(disk, [], true)
    ensures ApplyFiles(Segments, disk, root, [f]) == Applied(disk, [], false)
  {
    assert StartsWith(f.path, "game/");
    assert RemovePrefix(f.path, "game/") == "";
    assert !StartsWith("", "/");
    assert SplitOn("", '/') == [""];
    assert Normalize(root, [""]) == Normalize(root, []) by {
      assert [""][1..] == [];
    }
    assert Target(root, f.path) == root;
    assert GuardAsWritten(root, f.path) by {
      assert PathString(root)[..|PathString(root)|] == PathString(root);
    }
    assert root[..|root|] == root;
    assert [f][1..] == [];
  }

  /** A sibling directory whose name starts with the root's name passes
      the string-prefix guard. From root /a/g, the path "../" + g + suffix +
      "/" + name (say "../game2/x.gd" from /srv/game) lands in /a/(g + suffix),
      outside the root, and the source writes it there. The segment-wise
      guard rejects it and leaves the disk alone. */
  lemma SiblingEscapes(disk: Disk, a: string, g: string, suffix: string, name: string)
    requires suffix != [] && '/' !in g + suffix && '/' !in name
    requires Normal([g + suffix, name])
    ensures var root := [a, g]; var raw := "../" + g + suffix + "/" + name;
      var t := [a, g + suffix, name];
      && Target(root, raw) == t
      && GuardAsWritten(root, raw) && !Under(root, t)
      && (Writable(disk, root, t) ==>
            ApplyFiles(StringPrefix, disk, root, [FileEdit(raw, "create", "")]) == Applied(disk[t := ""], [t], false))
      && ApplyFiles(Segments, disk, root, [FileEdit(raw, "create", "")]) == Applied(disk, [], false)
  {
    var root := [a, g];
    var raw := "../" + g + suffix + "/" + name;
    var t := [a, g + suffix, name];
    SiblingTarget(a, g, suffix, name);
    SiblingRendered(a, g, suffix, name);
    assert t[..|root|] != root by {
      assert |t[1]| != |root[1]|;
    }
    var files := [FileEdit(raw, "create", "")];
    assert files[1..] == [];
  }

  lemma SiblingTarget(a: string, g: string, suffix: string, name: string)
    requires '/' !in g + suffix && '/' !in name
    requires Normal([g + suffix, name])
    ensures Target([a, g], "../" + g + suffix + "/" + name) == [a, g + suffix, name]
  {
    var raw := "../" + g + suffix + "/" + name;
    SiblingSplit(g + suffix, name);
    Assoc("../", g, suffix);
    DotRelative([a, g], raw);
    UpThenDown(a, g, g + suffix, name);
  }

  lemma SiblingSplit(sib: string, name: string)
    requires '/' !in sib && '/' !in name
    ensures var raw := "../" + sib + "/" + name; raw[0] == '.' && SplitOn(raw, '/') == ["..", sib, name]
  {
    var raw := "../" + sib + "/" + name;
    assert raw == ".." + "/" + (sib + "/" + name) by {
      assert "../" == ".." + "/";
      Assoc("../", sib, "/");
      Assoc("../" + sib, "/", name);
    }
    assert '/' !in "..";
    SplitCons("..", sib + "/" + name);
    SplitCons(sib, name);
    SplitNone(name);
  }

  /** Splitting at the first separator. */
  lemma SplitCons(x: string, rest: string)
    requires '/' !in x
    ensures SplitOn(x + "/" + rest, '/') == [x] + SplitOn(rest, '/')
  {
    var s := x + "/" + rest;
    assert s[|x|] == '/';
    assert forall j | 0 <= j < |x| :: s[j] == x[j];
    assert FindChar(s, '/', 0) == Some(|x|);
    assert s[..|x|] == x && s[|x| + 1..] == rest;
  }

  lemma SplitNone(x: string)
    requires '/' !in x
    ensures SplitOn(x, '/') == [x]
  {
  }

  /** The rendered target extends the rendered root. */
  lemma SiblingRendered(a: string, g: string, suffix: string, name: string)
    ensures PathString([a, g + suffix, name]) == PathString([a, g]) + (suffix + "/" + name)
    ensures GuardAsWritten([a, g], "../" + g + suffix + "/" + name) <==>
      StartsWith(PathString(Target([a, g], "../" + g + suffix + "/" + name)), PathString([a, g]))
    ensures StartsWith(PathString([a, g + suffix, name]), PathString([a, g]))
  {
    var head := "/" + a + "/";
    JoinTwo(a, g);
    JoinThree(a, g + suffix, name);
    assert PathString([a, g]) == head + g;
    assert PathString([a, g + suffix, name]) == head + (g + suffix) + "/" + name;
    Assoc(head, g, suffix);
    Assoc(head + g, suffix, "/");
    Assoc(head + g, suffix + "/", name);
    PrefixOfAppend(PathString([a, g]), suffix + "/" + name);
  }

  lemma JoinTwo(x: string, y: string)
    ensures Join([x, y], "/") == x + "/" + y
  {
    assert [x, y][1..] == [y];
  }

  lemma JoinThree(x: string, y: string, z: string)
    ensures Join([x, y, z], "/") == x + "/" + (y + "/" + z)
  {
    assert [x, y, z][1..] == [y, z];
    JoinTwo(y, z);
  }

  /** A path starting with a dot is relative and has no "game/" prefix. */
  lemma DotRelative(root: Path, raw: string)
    requires raw != [] && raw[0] == '.'
    ensures Target(root, raw) == Normalize(root, SplitOn(raw, '/'))
  {
    assert !StartsWith(raw, "game/") by {
      assert "game/"[0] == 'g';
    }
    assert !StartsWith(raw, "/") by {
      assert "/"[0] == '/';
    }
  }

  /** From /a/b, going up one level and then down two names. */
  lemma UpThenDown(a: string, b: string, x: string, y: string)
    requires Normal([x, y])
    ensures Normalize([a, b], ["..", x, y]) == [a, x, y]
  {
    var segs := ["..", x, y];
    assert [x, y][0] == x && [x, y][1] == y;
    NormalizeStep([a, b], segs);
    assert Parent([a, b]) == [a];
    assert segs[1..] == [x, y] && [x, y][1..] == [y] && [y][1..] == [];
    NormalizeStep([a], [x, y]);
    NormalizeStep([a, x], [y]);
    assert [a, x] + [y] == [a, x, y];
  }

  /** One step of resolution. */
  lemma NormalizeStep(base: Path, segs: seq<string>)
    requires segs != []
    ensures segs[0] == ".." ==> Normalize(base, segs) == Normalize(Parent(base), segs[1..])
    ensures segs[0] != ".." && segs[0] != "" && segs[0] != "." ==> Normalize(base, segs) == Normalize(base + [segs[0]], segs[1..])
  {
  }
}
