/**
 Settings told by places: what stands where, when two files can be merged, and which of several files
 decides a value. A merge, a fold and a projection are each determined by this.
 */
module SettingValues {
  import opened Wrappers
  import Toml
  import opened CargoToolSettings

  /** A place in a document, from the section inwards: `["env", "PATH"]`. */
  type Place = seq<string>

  /** What stands at a place: a table, or a value and the file it came from. */
  datatype Node = Branch | Value(value: Toml.Value, origin: Path)

  ghost function NodeAt(setting: Setting, place: Place): Option<Node> {
    match setting
    case Leaf(value, origin) => if place == [] then Some(Value(value, origin)) else None
    case Table(entries, _) =>
      if place == [] then Some(Branch)
      else if place[0] in entries then NodeAt(entries[place[0]], place[1..])
      else None
  }

  ghost function EntryAt(entries: Entries, place: Place): Option<Node> {
    if place != [] && place[0] in entries then NodeAt(entries[place[0]], place[1..]) else None
  }

  ghost function SettingAt(s: Settings, place: Place): Option<Node> {
    if place == [] then None
    else if place[0] == "build" then EntryAt(s.build, place[1..])
    else if place[0] == "env" then EntryAt(s.environment, place[1..])
    else None
  }

  /** Where both files have something, tables meet tables and values meet values, and no value is an array. */
  ghost predicate Meets(a: Option<Node>, b: Option<Node>) {
    a.Some? && b.Some? ==>
      (a.value.Branch? && b.value.Branch?) ||
      (a.value.Value? && b.value.Value? && !a.value.value.Array? && !b.value.value.Array?)
  }

  // ---------------------------------------------------------------- one merge

  ghost predicate MeetAt(a: Setting, b: Setting, place: Place) {
    Meets(NodeAt(a, place), NodeAt(b, place))
  }

  lemma {:induction false} CompatibleExactly(a: Setting, b: Setting)
    ensures Compatible(a, b) <==> forall place :: MeetAt(a, b, place)
    decreases a
  {
    if a.Table? && b.Table? {
      forall key | key in a.entries && key in b.entries
        ensures Compatible(a.entries[key], b.entries[key]) <==>
                forall place :: MeetAt(a.entries[key], b.entries[key], place)
      {
        CompatibleExactly(a.entries[key], b.entries[key]);
      }
      forall key, place | key in a.entries && key in b.entries
        ensures NodeAt(a, [key] + place) == NodeAt(a.entries[key], place)
        ensures NodeAt(b, [key] + place) == NodeAt(b.entries[key], place)
      {
        assert ([key] + place)[1..] == place;
      }
      hide Meets;
      if Compatible(a, b) {
        forall place
          ensures MeetAt(a, b, place)
        {
          if place != [] && place[0] in a.entries && place[0] in b.entries {
            assert MeetAt(a.entries[place[0]], b.entries[place[0]], place[1..]);
          }
          MeetsElsewhere(a, b, place);
        }
      } else {
        var key :| key in a.entries && key in b.entries && !Compatible(a.entries[key], b.entries[key]);
        var place :| !MeetAt(a.entries[key], b.entries[key], place);
        var longer: Place := [key] + place;
        assert NodeAt(a, longer) == NodeAt(a.entries[key], place);
        assert NodeAt(b, longer) == NodeAt(b.entries[key], place);
        assert !MeetAt(a, b, longer);
      }
    } else {
      var here: Place := [];
      assert Compatible(a, b) <==> MeetAt(a, b, here);
      forall place
        ensures place != [] ==> MeetAt(a, b, place)
      {
      }
    }
  }

  lemma MeetsElsewhere(a: Setting, b: Setting, place: Place)
    requires a.Table? && b.Table?
    requires place != [] && place[0] in a.entries && place[0] in b.entries ==>
               Meets(NodeAt(a.entries[place[0]], place[1..]), NodeAt(b.entries[place[0]], place[1..]))
    ensures Meets(NodeAt(a, place), NodeAt(b, place))
  {
  }

  /** Of what two trees have at one place, the later one's is kept, or the receiver's, as the merge prefers. */
  ghost function Kept(a: Option<Node>, b: Option<Node>, preferNew: bool): Option<Node> {
    if a.None? then b
    else if b.None? then a
    else if preferNew then b else a
  }

  lemma {:induction false} CombinedNode(a: Setting, b: Setting, preferNew: bool, place: Place)
    requires Compatible(a, b)
    ensures NodeAt(Combined(a, b, preferNew), place) == Kept(NodeAt(a, place), NodeAt(b, place), preferNew)
    decreases |place|
  {
    if a.Table? && place != [] && place[0] in a.entries && place[0] in b.entries {
      CombinedNode(a.entries[place[0]], b.entries[place[0]], preferNew, place[1..]);
    }
  }

  lemma EntriesNode(a: Entries, b: Entries, preferNew: bool, place: Place)
    requires CompatibleEntries(a, b)
    ensures EntryAt(CombinedEntries(a, b, preferNew), place) == Kept(EntryAt(a, place), EntryAt(b, place), preferNew)
  {
    if place != [] {
      CombinedNode(Table(a, ""), Table(b, ""), preferNew, place);
    }
  }

  lemma EntriesExactly(a: Entries, b: Entries)
    ensures CompatibleEntries(a, b) <==> forall place :: Meets(EntryAt(a, place), EntryAt(b, place))
  {
    CompatibleExactly(Table(a, ""), Table(b, ""));
    hide Meets, NodeAt, EntryAt, Compatible;
    if forall place :: Meets(EntryAt(a, place), EntryAt(b, place)) {
      forall place
        ensures MeetAt(Table(a, ""), Table(b, ""), place)
      {
        assert Meets(EntryAt(a, place), EntryAt(b, place));
        SamePlaces(a, b, place);
      }
    } else {
      var place :| !Meets(EntryAt(a, place), EntryAt(b, place));
      SamePlaces(a, b, place);
      assert !MeetAt(Table(a, ""), Table(b, ""), place);
    }
  }

  lemma SamePlaces(a: Entries, b: Entries, place: Place)
    ensures Meets(NodeAt(Table(a, ""), place), NodeAt(Table(b, ""), place)) <==>
            Meets(EntryAt(a, place), EntryAt(b, place))
  {
  }

  ghost predicate MeetEverywhere(a: Settings, b: Settings) {
    forall place :: Meets(SettingAt(a, place), SettingAt(b, place))
  }

  /** Two files can be merged exactly if what they have in common meets, place by place. */
  lemma AcceptsExactly(a: Settings, b: Settings)
    ensures Accepts(a, b) <==> MeetEverywhere(a, b)
  {
    EntriesExactly(a.build, b.build);
    EntriesExactly(a.environment, b.environment);
    forall place
      ensures SettingAt(a, ["build"] + place) == EntryAt(a.build, place)
      ensures SettingAt(b, ["build"] + place) == EntryAt(b.build, place)
      ensures SettingAt(a, ["env"] + place) == EntryAt(a.environment, place)
      ensures SettingAt(b, ["env"] + place) == EntryAt(b.environment, place)
    {
      assert (["build"] + place)[1..] == place == (["env"] + place)[1..];
    }
    hide EntryAt, CompatibleEntries;
    if MeetEverywhere(a, b) {
      forall place
        ensures Meets(EntryAt(a.build, place), EntryAt(b.build, place))
        ensures Meets(EntryAt(a.environment, place), EntryAt(b.environment, place))
      {
        assert Meets(SettingAt(a, ["build"] + place), SettingAt(b, ["build"] + place));
        assert Meets(SettingAt(a, ["env"] + place), SettingAt(b, ["env"] + place));
      }
    }
  }

  lemma JoinedNode(a: Settings, b: Settings, preferNew: bool, place: Place)
    requires Accepts(a, b)
    ensures SettingAt(Joined(a, b, preferNew), place) == Kept(SettingAt(a, place), SettingAt(b, place), preferNew)
  {
    hide EntryAt, CombinedEntries, CompatibleEntries;
    if place != [] {
      EntriesNode(a.build, b.build, preferNew, place[1..]);
      EntriesNode(a.environment, b.environment, preferNew, place[1..]);
    }
  }

  // ---------------------------------------------------------------- lists of files

  /** `files[k]` has something at the place, and no file behind it does. */
  ghost predicate LastToSet(files: seq<Settings>, place: Place, k: nat) {
    && k < |files| && SettingAt(files[k], place).Some?
    && forall j | k < j < |files| :: SettingAt(files[j], place).None?
  }

  ghost predicate NobodySets(files: seq<Settings>, place: Place) {
    forall k | 0 <= k < |files| :: SettingAt(files[k], place).None?
  }

  /** Every place holds what the last file that sets it puts there. */
  ghost predicate LastWins(files: seq<Settings>, s: Settings, place: Place) {
    && (NobodySets(files, place) ==> SettingAt(s, place).None?)
    && forall k: nat | LastToSet(files, place, k) :: SettingAt(s, place) == SettingAt(files[k], place)
  }

  lemma LastWinsNext(init: seq<Settings>, last: Settings, before: Settings, after: Settings, place: Place)
    requires LastWins(init, before, place)
    requires SettingAt(after, place) ==
             if SettingAt(last, place).Some? then SettingAt(last, place) else SettingAt(before, place)
    ensures LastWins(init + [last], after, place)
  {
    hide SettingAt;
    var files := init + [last];
    assert files[|init|] == last && forall i | 0 <= i < |init| :: files[i] == init[i];
    if NobodySets(files, place) {
      assert SettingAt(files[|init|], place).None?;
      assert forall k | 0 <= k < |init| :: SettingAt(files[k], place).None?;
    }
    forall k: nat | LastToSet(files, place, k)
      ensures SettingAt(after, place) == SettingAt(files[k], place)
    {
      if k < |init| {
        assert SettingAt(files[|init|], place).None?;
        assert LastToSet(init, place, k);
      }
    }
  }

  lemma {:induction false} FoldLastWins(files: seq<Settings>, place: Place)
    requires Fold(files).Some?
    ensures LastWins(files, Fold(files).value, place)
    decreases |files|
  {
    hide SettingAt, Joined, Accepts, Fits, CargoToolSettings.Names, LastWins;
    if files == [] {
      NothingSet(place);
    } else {
      var init, last := files[..|files| - 1], files[|files| - 1];
      assert files == init + [last];
      FoldLastWins(init, place);
      JoinedNode(Fold(init).value, last, true, place);
      LastWinsNext(init, last, Fold(init).value, Fold(files).value, place);
    }
  }

  /** Roots are given farthest first, so the nearest is the last. */
  lemma {:induction false} RootsLastWins(roots: seq<Settings>, place: Place)
    requires FoldRoots(roots).Some?
    ensures LastWins(roots, FoldRoots(roots).value, place)
    decreases |roots|
  {
    hide SettingAt, Joined, Accepts, Fits, CargoToolSettings.Names, LastWins;
    if roots == [] {
      NothingSet(place);
    } else {
      var init, last := roots[..|roots| - 1], roots[|roots| - 1];
      assert roots == init + [last];
      RootsLastWins(init, place);
      JoinedNode(last, FoldRoots(init).value, false, place);
      LastWinsNext(init, last, FoldRoots(init).value, FoldRoots(roots).value, place);
    }
  }

  lemma NothingSet(place: Place)
    ensures LastWins([], DEFAULT, place)
  {
  }

  // ---------------------------------------------------------------- one document

  ghost function RawAt(value: Toml.Value, place: Place): Option<Toml.Value> {
    if place == [] then Some(value)
    else if value.Table? && place[0] in value.entries then RawAt(value.entries[place[0]], place[1..])
    else None
  }

  /** Only four keys of `build`, and everything below `env`, are looked at. */
  ghost predicate Watched(place: Place) {
    && |place| >= 2
    && (place[0] == "env" ||
        (place[0] == "build" &&
         (place[1] == "rustc" || place[1] == "rustdoc" || place[1] == "rustc-wrapper" ||
          place[1] == "rustc-workspace-wrapper")))
  }

  /** What a document puts at a place. */
  ghost function Declared(document: map<string, Toml.Value>, path: Path, place: Place): Option<Node> {
    if !Watched(place) then None
    else
      match RawAt(Toml.Table(document), place)
      case None => None
      case Some(raw) => if raw.Table? then Some(Branch) else Some(Value(raw, path))
  }

  lemma {:induction false} ProjectedNode(value: Toml.Value, origin: Path, place: Place)
    ensures NodeAt(Projected(value, origin), place) ==
            match RawAt(value, place) {
              case None => None
              case Some(raw) => if raw.Table? then Some(Branch) else Some(Value(raw, origin))
            }
    decreases |place|
  {
    if place != [] && value.Table? && place[0] in value.entries {
      ProjectedNode(value.entries[place[0]], origin, place[1..]);
    }
  }

  lemma TheTools(tool: string)
    ensures tool in TOOLS <==>
            tool == "rustc" || tool == "rustdoc" || tool == "rustc-wrapper" || tool == "rustc-workspace-wrapper"
  {
  }

  lemma SectionNode(entries: map<string, Toml.Value>, keys: set<string>, path: Path, place: Place)
    ensures EntryAt(ProjectedEntries(entries, keys, path), place) ==
            if place == [] || place[0] !in keys then None
            else
              match RawAt(Toml.Table(entries), place) {
                case None => None
                case Some(raw) => if raw.Table? then Some(Branch) else Some(Value(raw, path))
              }
  {
    if place != [] && place[0] in entries {
      ProjectedNode(entries[place[0]], path, place[1..]);
    }
  }

  /** A document's own settings are what it puts at the watched places, and nothing else. */
  lemma OwnNode(document: map<string, Toml.Value>, path: Path, place: Place)
    requires DocumentOk(document)
    ensures SettingAt(OwnSettings(document, path), place) == Declared(document, path, place)
  {
    if |place| >= 2 {
      var build, env := Section(document, "build"), Section(document, "env");
      SectionNode(build, (set tool | tool in TOOLS), path, place[1..]);
      SectionNode(env, env.Keys, path, place[1..]);
      TheTools(place[1]);
      SectionAt(document, "build", place);
      SectionAt(document, "env", place);
      assert place[1..][0] == place[1];
      hide TOOLS, ProjectedEntries, EntryAt, Section, SectionOk;
      assert place[1] !in env ==> RawAt(Toml.Table(env), place[1..]).None?;
    } else if place != [] {
      assert place[1..] == [];
    }
  }

  lemma SectionAt(document: map<string, Toml.Value>, name: string, place: Place)
    requires SectionOk(document, name) && |place| >= 2
    ensures place[0] == name ==>
              RawAt(Toml.Table(document), place) == RawAt(Toml.Table(Section(document, name)), place[1..])
  {
  }
}
