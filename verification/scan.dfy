/** How `scan_capabilities` sorts the game's scripts and scenes into the
    kinds of content the strategy knows about. Walking the directories and
    reading files are left to the caller: a script arrives as its file stem
    and its text, or no text when it could not be read. */
module GameScan {
  import opened Opt
  import opened Text
  import opened Strategy

  /** The list of `Capabilities` a script can be filed under. */
  datatype Kind = Enemy | Item | Room | Ui | Mechanic

  /** A script found under `scripts/`: its file stem and its text, if readable. */
  datatype Script = Script(stem: string, content: Option<string>)

  const ItemWords: seq<string> := ["pickup", "item", "loot", "potion", "shrine", "key"]
  const UiWords: seq<string> := ["hud", "menu", "ui", "health_bar", "dialog"]
  const CoreNames: seq<string> := ["player", "game_manager", "main"]

  /** `any(kw in name for kw in words)`. */
  predicate AnyIn(name: string, words: seq<string>)
    decreases |words|
  {
    words != [] && (Contains(name, words[0]) || AnyIn(name, words[1..]))
  }

  lemma {:induction false} AnyInSpec(name: string, words: seq<string>)
    decreases |words|
    ensures AnyIn(name, words) <==> exists i | 0 <= i < |words| :: Contains(name, words[i])
  {
    if words != [] {
      AnyInSpec(name, words[1..]);
      assert forall i | 1 <= i < |words| :: words[i] == words[1..][i - 1];
      if AnyIn(name, words[1..]) {
        var i :| 0 <= i < |words[1..]| && Contains(name, words[1..][i]);
        assert Contains(name, words[i + 1]);
      }
    }
  }

  /** The script's first `extends` line, stripped and lower-cased; empty
      when it has none. */
  function ExtendsLine(content: string): string {
    match FirstStripped(Lines(content), "extends")
    case None => ""
    case Some(l) => Lower(l)
  }

  /** The kind a script is filed under, by the first rule that matches its
      lower-cased stem: an enemy by name or by extending the enemy base
      class (the base class itself is filed nowhere), then items, rooms and
      doors, interface elements, and last projectiles and cameras. */
  function ScriptKind(stem: string, content: string): Option<Kind> {
    var name := Lower(stem);
    if Contains(name, "enemy") || Contains(ExtendsLine(content), "enemy_base") then
      if name != "enemy_base" then Some(Enemy) else None
    else if AnyIn(name, ItemWords) then Some(Item)
    else if Contains(name, "room") || Contains(name, "door") then Some(Room)
    else if AnyIn(name, UiWords) then Some(Ui)
    else if name !in CoreNames && (Contains(name, "projectile") || Contains(name, "camera")) then Some(Mechanic)
    else None
  }

  /** The list a kind is filed under. */
  function ListOf(c: Capabilities, k: Kind): seq<string> {
    match k
    case Enemy => c.enemies
    case Item => c.items
    case Room => c.rooms
    case Ui => c.uiElements
    case Mechanic => c.mechanics
  }

  /** Appends a stem to the list of its kind. */
  function File(c: Capabilities, stem: string, k: Kind): Capabilities {
    match k
    case Enemy => c.(enemies := c.enemies + [stem])
    case Item => c.(items := c.items + [stem])
    case Room => c.(rooms := c.rooms + [stem])
    case Ui => c.(uiElements := c.uiElements + [stem])
    case Mechanic => c.(mechanics := c.mechanics + [stem])
  }

  /** One script: skipped when unreadable or of no kind. */
  function ScanOne(c: Capabilities, s: Script): Capabilities {
    if s.content.None? then c
    else match ScriptKind(s.stem, s.content.value)
      case None => c
      case Some(k) => File(c, s.stem, k)
  }

  /** The script loop of `scan_capabilities`, in the order the walk yields. */
  function ScanScripts(c: Capabilities, scripts: seq<Script>): Capabilities
    decreases |scripts|
  {
    if scripts == [] then c else ScanScripts(ScanOne(c, scripts[0]), scripts[1..])
  }

  /** The stems of the readable scripts of kind `k`, in order: the reference
      the scan is measured against. */
  function Found(scripts: seq<Script>, k: Kind): seq<string>
    decreases |scripts|
  {
    if scripts == [] then []
    else
      var s := scripts[0];
      (if s.content.Some? && ScriptKind(s.stem, s.content.value) == Some(k) then [s.stem] else [])
      + Found(scripts[1..], k)
  }

  // ---------------------------------------------------------------------------
  // Scene rooms
  // ---------------------------------------------------------------------------

  function LowerAll(names: seq<string>): (r: seq<string>)
    ensures |r| == |names| && forall i | 0 <= i < |names| :: r[i] == Lower(names[i])
  {
    seq(|names|, i requires 0 <= i < |names| => Lower(names[i]))
  }

  /** The scene loop as written: a scene whose lower-cased stem mentions a
      room is added unless its stem, in its original case, is among the
      lower-cased names already listed. */
  function AddSceneRoomsAsWritten(c: Capabilities, scenes: seq<string>): Capabilities
    decreases |scenes|
  {
    if scenes == [] then c
    else
      var stem := scenes[0];
      var c' := if Contains(Lower(stem), "room") && stem !in LowerAll(c.rooms) then c.(rooms := c.rooms + [stem]) else c;
      AddSceneRoomsAsWritten(c', scenes[1..])
  }

  /** The scene loop with both sides of the comparison lower-cased. */
  function AddSceneRooms(c: Capabilities, scenes: seq<string>): Capabilities
    decreases |scenes|
  {
    if scenes == [] then c
    else
      var stem := scenes[0];
      var c' := if Contains(Lower(stem), "room") && Lower(stem) !in LowerAll(c.rooms) then c.(rooms := c.rooms + [stem]) else c;
      AddSceneRooms(c', scenes[1..])
  }

  /** No two listed rooms share a lower-cased name. */
  predicate DistinctRooms(rooms: seq<string>) {
    forall i, j | 0 <= i < j < |rooms| :: Lower(rooms[i]) != Lower(rooms[j])
  }

  // ---------------------------------------------------------------------------
  // Properties
  // ---------------------------------------------------------------------------

  lemma ListOfFile(c: Capabilities, stem: string, k: Kind, k': Kind)
    ensures ListOf(File(c, stem, k), k') == ListOf(c, k') + (if k == k' then [stem] else [])
    ensures File(c, stem, k).autoloads == c.autoloads
  {
  }

  /** Scanning appends to each list exactly the stems of that kind, in walk
      order, and leaves the autoloads alone. */
  lemma {:induction false} ScanFilesByKind(c: Capabilities, scripts: seq<Script>, k: Kind)
    decreases |scripts|
    ensures ListOf(ScanScripts(c, scripts), k) == ListOf(c, k) + Found(scripts, k)
    ensures ScanScripts(c, scripts).autoloads == c.autoloads
  {
    if scripts != [] {
      var s := scripts[0];
      var c1 := ScanOne(c, s);
      ScanFilesByKind(c1, scripts[1..], k);
      var here := if s.content.Some? && ScriptKind(s.stem, s.content.value) == Some(k) then [s.stem] else [];
      assert ListOf(c1, k) == ListOf(c, k) + here && c1.autoloads == c.autoloads by {
        if s.content.Some? && ScriptKind(s.stem, s.content.value).Some? {
          ListOfFile(c, s.stem, ScriptKind(s.stem, s.content.value).value, k);
        }
      }
      Assoc(ListOf(c, k), here, Found(scripts[1..], k));
    }
  }

  /** The base class is never filed, whatever it extends. */
  lemma EnemyBaseNotCounted(stem: string, content: string)
    requires Lower(stem) == "enemy_base"
    ensures ScriptKind(stem, content) == None
  {
    ContainsIff(Lower(stem), "enemy");
    assert OccursAt(Lower(stem), "enemy", 0);
  }

  /** Extending the enemy base class makes a script an enemy before any
      other rule is tried, so a key or a door that extends it is an enemy. */
  lemma ExtendsEnemyBaseWins(stem: string, content: string)
    requires Lower(stem) != "enemy_base"
    requires exists i | 0 <= i < |Lines(content)| ::
      StartsWith(Strip(Lines(content)[i]), "extends") && Contains(Lower(Strip(Lines(content)[i])), "enemy_base")
      && forall j | 0 <= j < i :: !StartsWith(Strip(Lines(content)[j]), "extends")
    ensures ScriptKind(stem, content) == Some(Enemy)
  {
    var ls := Lines(content);
    var i :| 0 <= i < |ls| && StartsWith(Strip(ls[i]), "extends") && Contains(Lower(Strip(ls[i])), "enemy_base")
      && forall j | 0 <= j < i :: !StartsWith(Strip(ls[j]), "extends");
    FirstStrippedSpec(ls, "extends");
    var i' :| 0 <= i' < |ls| && FirstStripped(ls, "extends").value == Strip(ls[i'])
      && StartsWith(Strip(ls[i']), "extends") && forall j | 0 <= j < i' :: !StartsWith(Strip(ls[j]), "extends");
    assert i' == i;
  }

  /** Only the extends line that comes first counts: an enemy-base
      `extends` after another `extends` line does not make an enemy. */
  lemma OnlyFirstExtends(content: string)
    requires FirstStripped(Lines(content), "extends").Some?
    ensures ExtendsLine(content) == Lower(FirstStripped(Lines(content), "extends").value)
    ensures |ExtendsLine(content)| >= 7
  {
  }

  /** A mechanic is a non-core script named after a projectile or a
      camera, and nothing else. */
  lemma MechanicNamed(stem: string, content: string)
    ensures ScriptKind(stem, content) == Some(Mechanic) <==>
      && !Contains(Lower(stem), "enemy") && !Contains(ExtendsLine(content), "enemy_base")
      && !(exists i | 0 <= i < |ItemWords| :: Contains(Lower(stem), ItemWords[i]))
      && !Contains(Lower(stem), "room") && !Contains(Lower(stem), "door")
      && !(exists i | 0 <= i < |UiWords| :: Contains(Lower(stem), UiWords[i]))
      && Lower(stem) !in CoreNames
      && (Contains(Lower(stem), "projectile") || Contains(Lower(stem), "camera"))
  {
    AnyInSpec(Lower(stem), ItemWords);
    AnyInSpec(Lower(stem), UiWords);
  }

  /** An item keyword files a script as an item unless an enemy rule fires. */
  lemma ItemByKeyword(stem: string, content: string, w: nat)
    requires w < |ItemWords| && Contains(Lower(stem), ItemWords[w])
    requires !Contains(Lower(stem), "enemy") && !Contains(ExtendsLine(content), "enemy_base")
    ensures ScriptKind(stem, content) == Some(Item)
  {
    AnyInSpec(Lower(stem), ItemWords);
  }

  /** The corrected scene loop keeps room names distinct, ignoring case. */
  lemma {:induction false} SceneRoomsDistinct(c: Capabilities, scenes: seq<string>)
    requires DistinctRooms(c.rooms)
    decreases |scenes|
    ensures DistinctRooms(AddSceneRooms(c, scenes).rooms)
  {
    if scenes != [] {
      var stem := scenes[0];
      if Contains(Lower(stem), "room") && Lower(stem) !in LowerAll(c.rooms) {
        var rs := c.rooms + [stem];
        assert forall i | 0 <= i < |c.rooms| :: Lower(rs[i]) == LowerAll(c.rooms)[i];
        SceneRoomsDistinct(c.(rooms := rs), scenes[1..]);
      } else {
        SceneRoomsDistinct(c, scenes[1..]);
      }
    }
  }

  /** Every scene that names a room ends up listed, up to case. */
  lemma {:induction false} SceneRoomsListed(c: Capabilities, scenes: seq<string>, k: nat)
    requires k < |scenes| && Contains(Lower(scenes[k]), "room")
    decreases |scenes|
    ensures Lower(scenes[k]) in LowerAll(AddSceneRooms(c, scenes).rooms)
  {
    var stem := scenes[0];
    var c' := if Contains(Lower(stem), "room") && Lower(stem) !in LowerAll(c.rooms) then c.(rooms := c.rooms + [stem]) else c;
    if k == 0 {
      assert Lower(stem) in LowerAll(c'.rooms) by {
        if Lower(stem) !in LowerAll(c.rooms) {
          assert LowerAll(c'.rooms)[|c.rooms|] == Lower(stem);
        }
      }
      SceneRoomsKept(c', scenes[1..], Lower(stem));
    } else {
      SceneRoomsListed(c', scenes[1..], k - 1);
    }
  }

  /** The scene loop only appends. */
  lemma {:induction false} SceneRoomsKept(c: Capabilities, scenes: seq<string>, name: string)
    requires name in LowerAll(c.rooms)
    decreases |scenes|
    ensures name in LowerAll(AddSceneRooms(c, scenes).rooms)
  {
    if scenes != [] {
      var stem := scenes[0];
      var c' := if Contains(Lower(stem), "room") && Lower(stem) !in LowerAll(c.rooms) then c.(rooms := c.rooms + [stem]) else c;
      var i :| 0 <= i < |c.rooms| && LowerAll(c.rooms)[i] == name;
      assert LowerAll(c'.rooms)[i] == name;
      SceneRoomsKept(c', scenes[1..], name);
    }
  }

  /** As written, a script room whose stem has capitals is listed a second
      time by the scene of the same name. */
  lemma SceneRoomDuplicated(c: Capabilities, stem: string)
    requires c.rooms == [stem] && Contains(Lower(stem), "room") && Lower(stem) != stem
    ensures AddSceneRoomsAsWritten(c, [stem]).rooms == [stem, stem]
    ensures !DistinctRooms(AddSceneRoomsAsWritten(c, [stem]).rooms)
  {
    assert LowerAll(c.rooms) == [Lower(stem)];
    var c' := c.(rooms := [stem, stem]);
    assert [stem][1..] == [];
    assert AddSceneRoomsAsWritten(c, [stem]) == AddSceneRoomsAsWritten(c', []);
    assert Lower(c'.rooms[0]) == Lower(c'.rooms[1]);
  }
}
