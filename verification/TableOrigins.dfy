/**
 Which file a merged table is said to come from. A merge keeps the receiver's table origins,
 so a fold along the load order remembers the farthest file that has a table, and merging
 nearer roots over farther ones remembers the nearest. This module says when the two agree.
 */
module TableOrigins {
  import opened Wrappers
  import opened CargoToolSettings

  /** A place in a document, from the section inwards: `["env", "PATH"]`. */
  type Place = seq<string>

  /** The file that the table at `place` below `setting` is said to come from, if there is a table. */
  ghost function TableOrigin(setting: Setting, place: Place): Option<Path> {
    match setting
    case Leaf(_, _) => None
    case Table(entries, origin) =>
      if place == [] then Some(origin)
      else if place[0] in entries then TableOrigin(entries[place[0]], place[1..])
      else None
  }

  ghost function EntryOrigin(entries: Entries, place: Place): Option<Path>
    requires place != []
  {
    if place[0] in entries then TableOrigin(entries[place[0]], place[1..]) else None
  }

  /** The same for whole settings. The two sections themselves carry no origin. */
  ghost function OriginAt(s: Settings, place: Place): Option<Path> {
    if |place| < 2 then None
    else if place[0] == "build" then EntryOrigin(s.build, place[1..])
    else if place[0] == "env" then EntryOrigin(s.environment, place[1..])
    else None
  }

  ghost function Else(a: Option<Path>, b: Option<Path>): Option<Path> {
    if a.Some? then a else b
  }

  // ---------------------------------------------------------------- one merge

  lemma {:induction false} CombinedOrigin(a: Setting, b: Setting, preferNew: bool, place: Place)
    requires Compatible(a, b)
    ensures TableOrigin(Combined(a, b, preferNew), place) == Else(TableOrigin(a, place), TableOrigin(b, place))
    decreases |place|
  {
    if a.Table? && place != [] && place[0] in a.entries && place[0] in b.entries {
      CombinedOrigin(a.entries[place[0]], b.entries[place[0]], preferNew, place[1..]);
    }
  }

  lemma CombinedEntryOrigin(a: Entries, b: Entries, preferNew: bool, place: Place)
    requires place != [] && CompatibleEntries(a, b)
    ensures EntryOrigin(CombinedEntries(a, b, preferNew), place) == Else(EntryOrigin(a, place), EntryOrigin(b, place))
  {
    CombinedOrigin(Table(a, ""), Table(b, ""), preferNew, place);
  }

  /** In either direction a merged table keeps the origin it has in the receiver. */
  lemma JoinedOrigin(a: Settings, b: Settings, preferNew: bool, place: Place)
    requires Accepts(a, b)
    ensures OriginAt(Joined(a, b, preferNew), place) == Else(OriginAt(a, place), OriginAt(b, place))
  {
    hide EntryOrigin, CombinedEntries, CompatibleEntries;
    if |place| >= 2 {
      CombinedEntryOrigin(a.build, b.build, preferNew, place[1..]);
      CombinedEntryOrigin(a.environment, b.environment, preferNew, place[1..]);
    }
  }

  // ---------------------------------------------------------------- origins tell trees apart

  lemma {:induction false} SameOriginsSameTree(a: Setting, b: Setting)
    requires Erased(a) == Erased(b)
    requires forall place :: TableOrigin(a, place) == TableOrigin(b, place)
    ensures a == b
    decreases a
  {
    if a.Table? {
      assert TableOrigin(a, []) == TableOrigin(b, []);
      assert a.entries.Keys == Erased(a).entries.Keys == Erased(b).entries.Keys == b.entries.Keys;
      forall key | key in a.entries
        ensures a.entries[key] == b.entries[key]
      {
        assert Erased(a).entries[key] == Erased(b).entries[key];
        forall place
          ensures TableOrigin(a.entries[key], place) == TableOrigin(b.entries[key], place)
        {
          assert ([key] + place)[1..] == place;
          assert TableOrigin(a, [key] + place) == TableOrigin(b, [key] + place);
        }
        SameOriginsSameTree(a.entries[key], b.entries[key]);
      }
      assert a.entries == b.entries;
    }
  }

  lemma SameOriginsSameEntries(a: Entries, b: Entries)
    requires ErasedEntries(a) == ErasedEntries(b)
    requires forall place | place != [] :: EntryOrigin(a, place) == EntryOrigin(b, place)
    ensures a == b
  {
    assert Erased(Table(a, "")) == Table(ErasedEntries(a), "");
    assert Erased(Table(b, "")) == Table(ErasedEntries(b), "");
    forall place
      ensures TableOrigin(Table(a, ""), place) == TableOrigin(Table(b, ""), place)
    {
      if place != [] {
        assert EntryOrigin(a, place) == EntryOrigin(b, place);
      }
    }
    SameOriginsSameTree(Table(a, ""), Table(b, ""));
  }

  /** Settings of one shape with one origin at every place are the same settings. */
  lemma SameOriginsSameSettings(a: Settings, b: Settings)
    requires ErasedSettings(a) == ErasedSettings(b)
    requires forall place :: OriginAt(a, place) == OriginAt(b, place)
    ensures a == b
  {
    hide EntryOrigin, ErasedEntries;
    forall place: Place | place != []
      ensures EntryOrigin(a.build, place) == EntryOrigin(b.build, place)
      ensures EntryOrigin(a.environment, place) == EntryOrigin(b.environment, place)
    {
      assert (["build"] + place)[1..] == place == (["env"] + place)[1..];
      assert OriginAt(a, ["build"] + place) == OriginAt(b, ["build"] + place);
      assert OriginAt(a, ["env"] + place) == OriginAt(b, ["env"] + place);
    }
    SameOriginsSameEntries(a.build, b.build);
    SameOriginsSameEntries(a.environment, b.environment);
  }

  // ---------------------------------------------------------------- lists of settings

  ghost predicate Holds(s: Settings, place: Place) {
    OriginAt(s, place).Some?
  }

  /** `files[i]` has a table at `place` and no file before it has one. */
  ghost predicate FirstHolder(files: seq<Settings>, place: Place, i: nat) {
    i < |files| && Holds(files[i], place) && forall k | 0 <= k < i :: !Holds(files[k], place)
  }

  /** `files[j]` has a table at `place` and no file behind it has one. */
  ghost predicate LastHolder(files: seq<Settings>, place: Place, j: nat) {
    j < |files| && Holds(files[j], place) && forall k | j < k < |files| :: !Holds(files[k], place)
  }

  ghost predicate EndsAgreeAt(files: seq<Settings>, place: Place) {
    forall i: nat, j: nat | FirstHolder(files, place, i) && LastHolder(files, place, j) ::
      OriginAt(files[i], place) == OriginAt(files[j], place)
  }

  /** Every table has one origin in the farthest and the nearest file that hold it. */
  ghost predicate EndsAgree(files: seq<Settings>) {
    forall place :: EndsAgreeAt(files, place)
  }

  ghost predicate NobodyHolds(files: seq<Settings>, place: Place) {
    forall k | 0 <= k < |files| :: !Holds(files[k], place)
  }

  lemma {:induction false} FoldOrigin(files: seq<Settings>, place: Place) returns (i: nat)
    requires Fold(files).Some?
    ensures if NobodyHolds(files, place) then OriginAt(Fold(files).value, place).None?
            else FirstHolder(files, place, i) && OriginAt(Fold(files).value, place) == OriginAt(files[i], place)
    decreases |files|
  {
    hide OriginAt, Joined, Accepts, Fits, Names;
    i := 0;
    if files == [] {
      NoOrigin(place);
    } else {
      var init, last := files[..|files| - 1], files[|files| - 1];
      assert files == init + [last];
      JoinedOrigin(Fold(init).value, last, true, place);
      i := FoldOrigin(init, place);
      if NobodyHolds(init, place) {
        i := |init|;
      }
    }
  }

  lemma {:induction false} RootsOrigin(roots: seq<Settings>, place: Place) returns (j: nat)
    requires FoldRoots(roots).Some?
    ensures if NobodyHolds(roots, place) then OriginAt(FoldRoots(roots).value, place).None?
            else LastHolder(roots, place, j) && OriginAt(FoldRoots(roots).value, place) == OriginAt(roots[j], place)
    decreases |roots|
  {
    hide OriginAt, Joined, Accepts, Fits, Names;
    j := 0;
    if roots == [] {
      NoOrigin(place);
    } else {
      var init, last := roots[..|roots| - 1], roots[|roots| - 1];
      assert roots == init + [last];
      JoinedOrigin(last, FoldRoots(init).value, false, place);
      j := RootsOrigin(init, place);
      if Holds(last, place) {
        j := |init|;
      }
    }
  }

  lemma NoOrigin(place: Place)
    ensures OriginAt(DEFAULT, place).None?
  {
  }

  lemma OneFirstHolder(files: seq<Settings>, place: Place, i: nat, k: nat)
    requires FirstHolder(files, place, i) && FirstHolder(files, place, k)
    ensures i == k
  {
  }

  lemma OneLastHolder(files: seq<Settings>, place: Place, i: nat, k: nat)
    requires LastHolder(files, place, i) && LastHolder(files, place, k)
    ensures i == k
  {
  }

  /** At one place, the fold and the loader name the same file if and only if the ends agree there. */
  lemma PlaceAgrees(roots: seq<Settings>, place: Place)
    requires Fold(roots).Some? && FoldRoots(roots).Some?
    ensures OriginAt(FoldRoots(roots).value, place) == OriginAt(Fold(roots).value, place) <==>
            EndsAgreeAt(roots, place)
  {
    hide OriginAt, Fold, FoldRoots;
    var first := FoldOrigin(roots, place);
    var last := RootsOrigin(roots, place);
    forall i: nat, j: nat | FirstHolder(roots, place, i) && LastHolder(roots, place, j)
      ensures !NobodyHolds(roots, place) && i == first && j == last
    {
      OneFirstHolder(roots, place, i, first);
      OneLastHolder(roots, place, j, last);
    }
  }

  /**
   Nearer-wins over the roots equals the flat override fold, table origins included, if and
   only if every table has one origin in the farthest and the nearest root that hold it.
   Roots between them do not matter. Where roots cannot be merged, both fail.
   */
  lemma FoldRootsEqualsFold(roots: seq<Settings>)
    ensures FoldRoots(roots).Some? <==> Fold(roots).Some?
    ensures FoldRoots(roots) == Fold(roots) <==>
            (PairwiseCompatible(roots) && Fits(EnvironmentKeys(roots)) ==> EndsAgree(roots))
  {
    hide Fold, FoldRoots, OriginAt, ErasedSettings, PairwiseCompatible, Fits, EnvironmentKeys, EndsAgreeAt;
    RootsAreAFold(roots);
    FoldSucceedsExactly(roots);
    if Fold(roots).Some? {
      forall place
        ensures OriginAt(FoldRoots(roots).value, place) == OriginAt(Fold(roots).value, place) <==>
                EndsAgreeAt(roots, place)
      {
        PlaceAgrees(roots, place);
      }
      if EndsAgree(roots) {
        SameOriginsSameSettings(FoldRoots(roots).value, Fold(roots).value);
      }
    }
  }
}
