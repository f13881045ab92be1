/** TOML values, as far as Cargo's tool and environment settings look into them. */
module Toml {
  datatype Value =
    | Text(text: string)
    | Boolean(flag: bool)
    | Number(number: int)
    | Array(items: seq<Value>)
    | Table(entries: map<string, Value>)
}

/**
 The source-aware projection of Cargo's `build` and `env` tables, and the two-directional
 merge of such projections: includes override left to right, nearer hierarchy roots win.
 */
module CargoToolSettings {
  import opened Wrappers
  import Toml

  type Path = string

  const MAX_ENVIRONMENT: nat := 4_096

  const TOOLS: seq<string> := ["rustc", "rustdoc", "rustc-wrapper", "rustc-workspace-wrapper"]

  datatype Setting =
    | Leaf(value: Toml.Value, origin: Path)
    | Table(entries: map<string, Setting>, origin: Path)

  type Entries = map<string, Setting>

  datatype Settings = Settings(build: Entries, environment: Entries)

  const DEFAULT := Settings(map[], map[])

  // ---------------------------------------------------------------- projection

  /** `Setting::new`: every node of the tree remembers the file it came from. */
  function Projected(value: Toml.Value, origin: Path): Setting {
    match value
    case Table(entries) => Table(map key | key in entries :: Projected(entries[key], origin), origin)
    case _ => Leaf(value, origin)
  }

  /** Forgets where the nodes came from. */
  ghost function Plain(setting: Setting): Toml.Value {
    match setting
    case Leaf(value, _) => value
    case Table(entries, _) => Toml.Table(map key | key in entries :: Plain(entries[key]))
  }

  /** Every leaf and every table of `setting` came from `origin`, and no leaf hides a table. */
  ghost predicate CameFrom(setting: Setting, origin: Path) {
    && setting.origin == origin
    && match setting
       case Leaf(value, _) => !value.Table?
       case Table(entries, _) => forall key | key in entries :: CameFrom(entries[key], origin)
  }

  lemma {:induction false} ProjectionRoundTrip(value: Toml.Value, origin: Path)
    ensures Plain(Projected(value, origin)) == value
    ensures CameFrom(Projected(value, origin), origin)
  {
    match value
    case Table(entries) =>
      forall key | key in entries
        ensures Plain(Projected(entries[key], origin)) == entries[key]
        ensures CameFrom(Projected(entries[key], origin), origin)
      {
        ProjectionRoundTrip(entries[key], origin);
      }
      assert Plain(Projected(value, origin)).entries == entries;
    case _ =>
  }

  ghost function ProjectedEntries(entries: map<string, Toml.Value>, keys: set<string>, origin: Path): Entries {
    map key | key in entries && key in keys :: Projected(entries[key], origin)
  }

  ghost predicate SectionOk(document: map<string, Toml.Value>, name: string) {
    name in document ==> document[name].Table?
  }

  ghost function Section(document: map<string, Toml.Value>, name: string): map<string, Toml.Value>
    requires SectionOk(document, name)
  {
    if name in document then document[name].entries else map[]
  }

  ghost predicate DocumentOk(document: map<string, Toml.Value>) {
    && SectionOk(document, "build")
    && SectionOk(document, "env")
    && |Section(document, "env")| <= MAX_ENVIRONMENT
  }

  /** What one document contributes: the four tool keys of `build` and the whole of `env`. */
  ghost function OwnSettings(document: map<string, Toml.Value>, path: Path): Settings
    requires DocumentOk(document)
  {
    var env := Section(document, "env");
    Settings(
      ProjectedEntries(Section(document, "build"), (set tool | tool in TOOLS), path),
      ProjectedEntries(env, env.Keys, path))
  }

  method ProjectBuild(table: map<string, Toml.Value>, path: Path) returns (build: Entries)
    ensures build == ProjectedEntries(table, (set tool | tool in TOOLS), path)
  {
    build := map[];
    for i := 0 to |TOOLS|
      invariant build == ProjectedEntries(table, (set tool | tool in TOOLS[..i]), path)
    {
      if TOOLS[i] in table {
        build := build[TOOLS[i] := Projected(table[TOOLS[i]], path)];
      }
      assert TOOLS[..i + 1] == TOOLS[..i] + [TOOLS[i]];
    }
    assert TOOLS[..|TOOLS|] == TOOLS;
  }

  method ProjectEnvironment(table: map<string, Toml.Value>, path: Path) returns (environment: Entries)
    ensures environment == ProjectedEntries(table, table.Keys, path)
  {
    environment := map[];
    var pending := table.Keys;
    while pending != {}
      invariant pending <= table.Keys
      invariant environment == ProjectedEntries(table, table.Keys - pending, path)
    {
      var key :| key in pending;
      environment := environment[key := Projected(table[key], path)];
      pending := pending - {key};
    }
    assert table.Keys - {} == table.Keys;
  }

  lemma ProjectedNothing(keys: set<string>, path: Path)
    ensures ProjectedEntries(map[], keys, path) == map[]
  {
  }

  /** `from_document`: fills the two maps entry by entry. */
  method FromDocument(path: Path, document: map<string, Toml.Value>) returns (r: Option<Settings>)
    ensures r == if DocumentOk(document) then Some(OwnSettings(document, path)) else None
  {
    ProjectedNothing((set tool | tool in TOOLS), path);
    ProjectedNothing({}, path);
    hide ProjectedEntries;
    var build: Entries := map[];
    if "build" in document {
      if !document["build"].Table? {
        return None;
      }
      build := ProjectBuild(document["build"].entries, path);
    }
    var environment: Entries := map[];
    if "env" in document {
      if !document["env"].Table? || |document["env"].entries| > MAX_ENVIRONMENT {
        return None;
      }
      environment := ProjectEnvironment(document["env"].entries, path);
    }
    r := Some(Settings(build, environment));
  }

  // ---------------------------------------------------------------- merge, as a partial operation

  /** Two trees can be merged: equal shapes where they overlap, and no array against a leaf. */
  ghost predicate Compatible(a: Setting, b: Setting) {
    match a
    case Leaf(value, _) => b.Leaf? && !value.Array? && !b.value.Array?
    case Table(entries, _) =>
      b.Table? && forall key | key in entries && key in b.entries :: Compatible(entries[key], b.entries[key])
  }

  /** The merged tree. The receiver `a` keeps its table origins whichever side wins the leaves. */
  ghost function Combined(a: Setting, b: Setting, preferNew: bool): Setting
    requires Compatible(a, b)
  {
    match a
    case Leaf(_, _) => if preferNew then b else a
    case Table(entries, origin) =>
      Table(
        map key | key in entries.Keys + b.entries.Keys ::
          if key !in entries then b.entries[key]
          else if key !in b.entries then entries[key]
          else Combined(entries[key], b.entries[key], preferNew),
        origin)
  }

  ghost predicate CompatibleEntries(a: Entries, b: Entries) {
    Compatible(Table(a, ""), Table(b, ""))
  }

  ghost function CombinedEntries(a: Entries, b: Entries, preferNew: bool): Entries
    requires CompatibleEntries(a, b)
  {
    Combined(Table(a, ""), Table(b, ""), preferNew).entries
  }

  ghost predicate Accepts(a: Settings, b: Settings) {
    CompatibleEntries(a.build, b.build) && CompatibleEntries(a.environment, b.environment)
  }

  ghost function Joined(a: Settings, b: Settings, preferNew: bool): Settings
    requires Accepts(a, b)
  {
    Settings(
      CombinedEntries(a.build, b.build, preferNew),
      CombinedEntries(a.environment, b.environment, preferNew))
  }

  ghost predicate Fits(names: set<string>) {
    |names| <= MAX_ENVIRONMENT
  }

  ghost function Names(s: Settings): set<string> {
    s.environment.Keys
  }

  ghost predicate Mergeable(a: Settings, b: Settings) {
    Accepts(a, b) && Fits(Names(a) + Names(b))
  }

  /** The partial operation: both tables must be compatible and the environment stays bounded. */
  ghost function Merged(a: Settings, b: Settings, preferNew: bool): Option<Settings> {
    if Mergeable(a, b) then Some(Joined(a, b, preferNew)) else None
  }

  ghost function MergedOption(a: Option<Settings>, b: Option<Settings>, preferNew: bool): Option<Settings> {
    if a.Some? && b.Some? then Merged(a.value, b.value, preferNew) else None
  }

  // ---------------------------------------------------------------- merge, in place

  /** `Setting::merge`. A failed merge leaves nothing its callers go on to use. */
  method MergeSetting(kept: Setting, incoming: Setting, preferNew: bool) returns (r: Option<Setting>)
    ensures r == if Compatible(kept, incoming) then Some(Combined(kept, incoming, preferNew)) else None
    decreases kept, 1
  {
    match (kept, incoming)
    case (Table(entries, origin), Table(given, _)) =>
      var merged := MergeMap(entries, given, preferNew, origin);
      if merged.None? {
        return None;
      }
      r := Some(Table(merged.value, origin));
    case (Leaf(value, _), Leaf(given, _)) =>
      if value.Array? || given.Array? {
        return None;
      }
      r := Some(if preferNew then incoming else kept);
    case _ =>
      r := None;
  }

  /** `merge_map`: visits the new entries, merging into an existing one or inserting it. */
  method MergeMap(kept: Entries, incoming: Entries, preferNew: bool, ghost origin: Path)
    returns (r: Option<Entries>)
    ensures r == if CompatibleEntries(kept, incoming) then Some(CombinedEntries(kept, incoming, preferNew)) else None
    decreases Table(kept, origin), 0
  {
    var current := kept;
    var pending := incoming.Keys;
    while pending != {}
      invariant pending <= incoming.Keys
      invariant current.Keys == kept.Keys + (incoming.Keys - pending)
      invariant forall key | key in kept && key in incoming && key !in pending :: Compatible(kept[key], incoming[key])
      invariant forall key | key in current ::
          current[key] ==
          if key !in kept then incoming[key]
          else if key !in incoming || key in pending then kept[key]
          else Combined(kept[key], incoming[key], preferNew)
    {
      var key :| key in pending;
      if key in current {
        var merged := MergeSetting(current[key], incoming[key], preferNew);
        if merged.None? {
          assert !CompatibleEntries(kept, incoming);
          return None;
        }
        current := current[key := merged.value];
      } else {
        current := current[key := incoming[key]];
      }
      pending := pending - {key};
    }
    assert current == CombinedEntries(kept, incoming, preferNew);
    r := Some(current);
  }

  /** The mutable settings record that the loader accumulates into. */
  class ToolSettings {
    var build: Entries
    var environment: Entries

    constructor (value: Settings)
      ensures Value() == value
    {
      build, environment := value.build, value.environment;
    }

    function Value(): Settings
      reads this
    {
      Settings(build, environment)
    }

    /** `CargoToolSettings::merge`. */
    method Merge(other: Settings, preferNew: bool) returns (ok: bool)
      modifies this
      ensures ok == Merged(old(Value()), other, preferNew).Some?
      ensures ok ==> Some(Value()) == Merged(old(Value()), other, preferNew)
    {
      hide Compatible, Combined;
      var merged := MergeMap(build, other.build, preferNew, "");
      if merged.None? {
        return false;
      }
      build := merged.value;
      merged := MergeMap(environment, other.environment, preferNew, "");
      if merged.None? {
        return false;
      }
      CombinedKeys(environment, other.environment, preferNew);
      environment := merged.value;
      assert |environment| == |environment.Keys|;
      ok := |environment| <= MAX_ENVIRONMENT;
    }
  }

  // ---------------------------------------------------------------- algebra of single trees

  lemma {:induction false} CompatibleSymmetric(a: Setting, b: Setting)
    ensures Compatible(a, b) <==> Compatible(b, a)
    decreases a
  {
    if a.Table? && b.Table? {
      forall key | key in a.entries && key in b.entries
        ensures Compatible(a.entries[key], b.entries[key]) <==> Compatible(b.entries[key], a.entries[key])
      {
        CompatibleSymmetric(a.entries[key], b.entries[key]);
      }
    }
  }

  /** A merged tree accepts exactly what both of its parts accept. */
  lemma {:induction false} CombinedAccepts(a: Setting, b: Setting, c: Setting, preferNew: bool)
    requires Compatible(a, b)
    ensures Compatible(Combined(a, b, preferNew), c) <==> Compatible(a, c) && Compatible(b, c)
    decreases a
  {
    if a.Table? && c.Table? {
      forall key | key in a.entries && key in b.entries && key in c.entries
        ensures Compatible(Combined(a.entries[key], b.entries[key], preferNew), c.entries[key]) <==>
                Compatible(a.entries[key], c.entries[key]) && Compatible(b.entries[key], c.entries[key])
      {
        CombinedAccepts(a.entries[key], b.entries[key], c.entries[key], preferNew);
      }
      var merged := Combined(a, b, preferNew).entries;
      assert forall key | key in a.entries :: key in merged;
      assert forall key | key in b.entries :: key in merged;
    }
  }

  lemma {:induction false} CombinedAssociative(a: Setting, b: Setting, c: Setting, preferNew: bool)
    requires Compatible(a, b) && Compatible(b, c) && Compatible(a, c)
    ensures Compatible(Combined(a, b, preferNew), c)
    ensures Compatible(a, Combined(b, c, preferNew))
    ensures Combined(Combined(a, b, preferNew), c, preferNew) == Combined(a, Combined(b, c, preferNew), preferNew)
    decreases a
  {
    CombinedAccepts(a, b, c, preferNew);
    CompatibleSymmetric(b, a);
    CompatibleSymmetric(c, a);
    CombinedAccepts(b, c, a, preferNew);
    CompatibleSymmetric(Combined(b, c, preferNew), a);
    if a.Table? {
      forall key | key in a.entries && key in b.entries && key in c.entries
        ensures Compatible(Combined(a.entries[key], b.entries[key], preferNew), c.entries[key])
        ensures Compatible(a.entries[key], Combined(b.entries[key], c.entries[key], preferNew))
        ensures Combined(Combined(a.entries[key], b.entries[key], preferNew), c.entries[key], preferNew) ==
                Combined(a.entries[key], Combined(b.entries[key], c.entries[key], preferNew), preferNew)
      {
        CombinedAssociative(a.entries[key], b.entries[key], c.entries[key], preferNew);
      }
      var left := Combined(Combined(a, b, preferNew), c, preferNew).entries;
      var right := Combined(a, Combined(b, c, preferNew), preferNew).entries;
      assert left.Keys == right.Keys;
      assert left == right;
    }
  }

  // ---------------------------------------------------------------- table origins

  /** Keeps shape, leaf values and leaf origins; forgets the origins of tables. */
  ghost function Erased(setting: Setting): Setting {
    match setting
    case Leaf(_, _) => setting
    case Table(entries, _) => Table(map key | key in entries :: Erased(entries[key]), "")
  }

  lemma {:induction false} ErasureCommutes(a: Setting, b: Setting, preferNew: bool)
    ensures Compatible(Erased(a), Erased(b)) <==> Compatible(a, b)
    ensures Compatible(a, b) ==>
              Erased(Combined(a, b, preferNew)) == Combined(Erased(a), Erased(b), preferNew)
    decreases a
  {
    if a.Table? && b.Table? {
      forall key | key in a.entries && key in b.entries
        ensures Compatible(Erased(a).entries[key], Erased(b).entries[key]) <==>
                Compatible(a.entries[key], b.entries[key])
        ensures Compatible(a.entries[key], b.entries[key]) ==>
                  Erased(Combined(a.entries[key], b.entries[key], preferNew)) ==
                  Combined(Erased(a.entries[key]), Erased(b.entries[key]), preferNew)
      {
        ErasureCommutes(a.entries[key], b.entries[key], preferNew);
      }
      assert forall key | key in a.entries && key in b.entries ::
          key in Erased(a).entries && key in Erased(b).entries;
      assert Compatible(Erased(a), Erased(b)) <==> Compatible(a, b);
      if Compatible(a, b) {
        assert Erased(Combined(a, b, preferNew)).entries == Combined(Erased(a), Erased(b), preferNew).entries;
      }
    }
  }

  /** Tables that both trees have at the same place came from the same file. */
  ghost predicate SameTableOrigins(a: Setting, b: Setting) {
    a.Table? && b.Table? ==>
      a.origin == b.origin &&
      forall key | key in a.entries && key in b.entries :: SameTableOrigins(a.entries[key], b.entries[key])
  }

  /**
   Overriding `a` by `b` and letting `b` keep its own values over `a` agree up to table
   origins; they agree exactly when the shared tables came from the same file.
   */
  lemma {:induction false} DirectionsAgree(a: Setting, b: Setting)
    requires Compatible(a, b)
    ensures Compatible(b, a)
    ensures Erased(Combined(a, b, true)) == Erased(Combined(b, a, false))
    ensures Combined(a, b, true) == Combined(b, a, false) <==> SameTableOrigins(a, b)
    decreases a
  {
    CompatibleSymmetric(a, b);
    if a.Table? {
      var over, under := Combined(a, b, true).entries, Combined(b, a, false).entries;
      assert over.Keys == under.Keys;
      forall key | key in a.entries && key in b.entries
        ensures Compatible(b.entries[key], a.entries[key])
        ensures Erased(over[key]) == Erased(under[key])
        ensures over[key] == under[key] <==> SameTableOrigins(a.entries[key], b.entries[key])
      {
        DirectionsAgree(a.entries[key], b.entries[key]);
      }
      assert Erased(Combined(a, b, true)).entries == Erased(Combined(b, a, false)).entries;
      assert forall key | key in over.Keys - (a.entries.Keys * b.entries.Keys) :: over[key] == under[key];
      if a.origin == b.origin && forall key | key in a.entries && key in b.entries :: over[key] == under[key] {
        assert over == under;
      }
    }
  }

  // ---------------------------------------------------------------- algebra of settings

  ghost function ErasedEntries(entries: Entries): Entries {
    Erased(Table(entries, "")).entries
  }

  ghost function ErasedSettings(s: Settings): Settings {
    Settings(ErasedEntries(s.build), ErasedEntries(s.environment))
  }

  ghost function ErasedOption(s: Option<Settings>): Option<Settings> {
    if s.Some? then Some(ErasedSettings(s.value)) else None
  }

  lemma {:induction false} EntriesAssociative(a: Entries, b: Entries, c: Entries, preferNew: bool)
    ensures CompatibleEntries(a, b) && CompatibleEntries(CombinedEntries(a, b, preferNew), c) <==>
            CompatibleEntries(a, b) && CompatibleEntries(a, c) && CompatibleEntries(b, c)
    ensures CompatibleEntries(b, c) && CompatibleEntries(a, CombinedEntries(b, c, preferNew)) <==>
            CompatibleEntries(a, b) && CompatibleEntries(a, c) && CompatibleEntries(b, c)
    ensures CompatibleEntries(a, b) && CompatibleEntries(a, c) && CompatibleEntries(b, c) ==>
              CombinedEntries(CombinedEntries(a, b, preferNew), c, preferNew) ==
              CombinedEntries(a, CombinedEntries(b, c, preferNew), preferNew)
  {
    var x, y, z := Table(a, ""), Table(b, ""), Table(c, "");
    if Compatible(x, y) {
      CombinedAccepts(x, y, z, preferNew);
    }
    if Compatible(y, z) {
      CombinedAccepts(y, z, x, preferNew);
      CompatibleSymmetric(Combined(y, z, preferNew), x);
      CompatibleSymmetric(y, x);
      CompatibleSymmetric(z, x);
    }
    if Compatible(x, y) && Compatible(x, z) && Compatible(y, z) {
      CombinedAssociative(x, y, z, preferNew);
    }
  }

  lemma CombinedKeys(a: Entries, b: Entries, preferNew: bool)
    requires CompatibleEntries(a, b)
    ensures CombinedEntries(a, b, preferNew).Keys == a.Keys + b.Keys
  {
  }

  lemma CombinedWithNothing(a: Entries, preferNew: bool)
    ensures CompatibleEntries(a, map[]) && CombinedEntries(a, map[], preferNew) == a
    ensures CompatibleEntries(map[], a) && CombinedEntries(map[], a, preferNew) == a
  {
    assert CombinedEntries(a, map[], preferNew).Keys == a.Keys;
    assert CombinedEntries(map[], a, preferNew).Keys == a.Keys;
  }

  lemma UnionAssociative(a: set<string>, b: set<string>, c: set<string>)
    ensures (a + b) + c == a + (b + c)
  {
  }

  lemma UnionCommutes(a: set<string>, b: set<string>)
    ensures a + b == b + a
  {
  }

  lemma SmallerUnion(a: set<string>, b: set<string>)
    ensures Fits(a + b) ==> Fits(a) && Fits(b)
  {
    assert a + b == a + (b - a);
    assert |a + (b - a)| == |a| + |b - a|;
    assert a + b == b + (a - b);
    assert |b + (a - b)| == |b| + |a - b|;
  }

  lemma JoinedKeys(a: Settings, b: Settings, preferNew: bool)
    requires Accepts(a, b)
    ensures Names(Joined(a, b, preferNew)) == Names(a) + Names(b)
  {
    CombinedKeys(a.environment, b.environment, preferNew);
  }

  lemma JoinedWithNothing(a: Settings, preferNew: bool)
    ensures Accepts(a, DEFAULT) && Joined(a, DEFAULT, preferNew) == a
    ensures Accepts(DEFAULT, a) && Joined(DEFAULT, a, preferNew) == a
    ensures Names(a) + Names(DEFAULT) == Names(a) == Names(DEFAULT) + Names(a)
  {
    CombinedWithNothing(a.build, preferNew);
    CombinedWithNothing(a.environment, preferNew);
  }

  lemma JoinedAssociative(a: Settings, b: Settings, c: Settings, preferNew: bool)
    ensures Accepts(a, b) && Accepts(Joined(a, b, preferNew), c) <==> Accepts(a, b) && Accepts(a, c) && Accepts(b, c)
    ensures Accepts(b, c) && Accepts(a, Joined(b, c, preferNew)) <==> Accepts(a, b) && Accepts(a, c) && Accepts(b, c)
    ensures Accepts(a, b) && Accepts(a, c) && Accepts(b, c) ==>
              Joined(Joined(a, b, preferNew), c, preferNew) == Joined(a, Joined(b, c, preferNew), preferNew)
  {
    hide Compatible, Combined, CompatibleEntries, CombinedEntries;
    EntriesAssociative(a.build, b.build, c.build, preferNew);
    EntriesAssociative(a.environment, b.environment, c.environment, preferNew);
  }

  /**
   Merging settings is associative as a partial operation: grouping the arguments either
   way fails on the same inputs and otherwise gives the same tree, origins included.
   */
  lemma {:induction false} MergeAssociative(a: Settings, b: Settings, c: Settings, preferNew: bool)
    ensures MergedOption(Merged(a, b, preferNew), Some(c), preferNew) ==
            MergedOption(Some(a), Merged(b, c, preferNew), preferNew)
  {
    hide Accepts, Joined, Fits, Names;
    JoinedAssociative(a, b, c, preferNew);
    UnionAssociative(Names(a), Names(b), Names(c));
    SmallerUnion(Names(a) + Names(b), Names(c));
    SmallerUnion(Names(a), Names(b) + Names(c));
    if Accepts(a, b) {
      JoinedKeys(a, b, preferNew);
    }
    if Accepts(b, c) {
      JoinedKeys(b, c, preferNew);
    }
  }

  lemma EntriesErasure(a: Entries, b: Entries, preferNew: bool)
    ensures CompatibleEntries(ErasedEntries(a), ErasedEntries(b)) <==> CompatibleEntries(a, b)
    ensures CompatibleEntries(a, b) ==>
              ErasedEntries(CombinedEntries(a, b, preferNew)) ==
              CombinedEntries(ErasedEntries(a), ErasedEntries(b), preferNew)
  {
    ErasureCommutes(Table(a, ""), Table(b, ""), preferNew);
    assert Erased(Table(a, "")) == Table(ErasedEntries(a), "");
    assert Erased(Table(b, "")) == Table(ErasedEntries(b), "");
    if CompatibleEntries(a, b) {
      assert Combined(Table(a, ""), Table(b, ""), preferNew) == Table(CombinedEntries(a, b, preferNew), "");
    }
  }

  lemma EntriesDirectionsAgree(a: Entries, b: Entries)
    ensures CompatibleEntries(a, b) <==> CompatibleEntries(b, a)
    ensures CompatibleEntries(a, b) ==>
              ErasedEntries(CombinedEntries(a, b, true)) == ErasedEntries(CombinedEntries(b, a, false))
  {
    CompatibleSymmetric(Table(a, ""), Table(b, ""));
    if CompatibleEntries(a, b) {
      DirectionsAgree(Table(a, ""), Table(b, ""));
      assert Combined(Table(a, ""), Table(b, ""), true) == Table(CombinedEntries(a, b, true), "");
      assert Combined(Table(b, ""), Table(a, ""), false) == Table(CombinedEntries(b, a, false), "");
    }
  }

  lemma ErasedNames(s: Settings)
    ensures Names(ErasedSettings(s)) == Names(s)
  {
  }

  lemma {:induction false} SettingsErasureCommutes(a: Settings, b: Settings, preferNew: bool)
    ensures ErasedOption(Merged(a, b, preferNew)) == Merged(ErasedSettings(a), ErasedSettings(b), preferNew)
  {
    hide ErasedEntries, CompatibleEntries, CombinedEntries, Names, Fits;
    ErasedNames(a);
    ErasedNames(b);
    EntriesErasure(a.build, b.build, preferNew);
    EntriesErasure(a.environment, b.environment, preferNew);
  }

  /** Overriding and keep-nearer are the same operation with its arguments exchanged. */
  lemma {:induction false} SettingsDirectionsAgree(a: Settings, b: Settings)
    ensures ErasedOption(Merged(a, b, true)) == ErasedOption(Merged(b, a, false))
  {
    hide ErasedEntries, CompatibleEntries, CombinedEntries, Names, Fits;
    UnionCommutes(Names(a), Names(b));
    EntriesDirectionsAgree(a.build, b.build);
    EntriesDirectionsAgree(a.environment, b.environment);
  }

  // ---------------------------------------------------------------- lists of settings

  /** The reference meaning of a load order: each file overrides what came before it. */
  ghost function Fold(files: seq<Settings>): Option<Settings> {
    if files == [] then Some(DEFAULT)
    else MergedOption(Fold(files[..|files| - 1]), Some(files[|files| - 1]), true)
  }

  /** Hierarchy roots, farthest first: each nearer root keeps its own values. */
  ghost function FoldRoots(roots: seq<Settings>): Option<Settings> {
    if roots == [] then Some(DEFAULT)
    else MergedOption(Some(roots[|roots| - 1]), FoldRoots(roots[..|roots| - 1]), false)
  }

  lemma {:induction false} FoldConcat(left: seq<Settings>, right: seq<Settings>)
    ensures Fold(left + right) == MergedOption(Fold(left), Fold(right), true)
    decreases |right|
  {
    if right == [] {
      assert left + right == left;
      FoldDefaultRight(left);
    } else {
      var init, last := right[..|right| - 1], right[|right| - 1];
      assert (left + right)[..|left + right| - 1] == left + init;
      FoldConcat(left, init);
      if Fold(left).Some? && Fold(init).Some? {
        MergeAssociative(Fold(left).value, Fold(init).value, last, true);
      }
    }
  }

  lemma FoldBounded(files: seq<Settings>)
    ensures Fold(files).Some? ==> Fits(Names(Fold(files).value))
  {
    assert files == [] ==> Fits(Names(DEFAULT));
    hide Accepts, Joined, Names;
    if files != [] && Fold(files).Some? {
      JoinedKeys(Fold(files[..|files| - 1]).value, files[|files| - 1], true);
    }
  }

  lemma FoldDefaultRight(files: seq<Settings>)
    ensures Fold(files) == MergedOption(Fold(files), Some(DEFAULT), true)
  {
    hide Accepts, Joined, Fits, Names;
    FoldBounded(files);
    if Fold(files).Some? {
      JoinedWithNothing(Fold(files).value, true);
    }
  }

  lemma FoldSingle(file: Settings)
    requires Fits(Names(file))
    ensures Fold([file]) == Some(file)
  {
    hide Accepts, Joined, Fits, Names;
    assert [file][..0] == [];
    assert Fold([file][..0]) == Some(DEFAULT);
    JoinedWithNothing(file, true);
  }

  ghost predicate PairwiseCompatible(files: seq<Settings>) {
    forall i, j | 0 <= i < j < |files| :: Accepts(files[i], files[j])
  }

  ghost function EnvironmentKeys(files: seq<Settings>): set<string> {
    set i, key | 0 <= i < |files| && key in Names(files[i]) :: key
  }

  /** A list of settings accepts a further one: every member does. */
  ghost predicate AllAccept(files: seq<Settings>, c: Settings) {
    forall i | 0 <= i < |files| :: Accepts(files[i], c)
  }

  lemma EmptyList(c: Settings)
    ensures EnvironmentKeys([]) == {} == Names(DEFAULT)
    ensures AllAccept([], c) && PairwiseCompatible([]) && Fits({})
  {
  }

  lemma ListSplit(init: seq<Settings>, last: Settings)
    ensures (init + [last])[..|init|] == init && (init + [last])[|init|] == last
    ensures EnvironmentKeys(init + [last]) == EnvironmentKeys(init) + Names(last)
    ensures forall c :: AllAccept(init + [last], c) <==> AllAccept(init, c) && Accepts(last, c)
    ensures PairwiseCompatible(init + [last]) <==> PairwiseCompatible(init) && AllAccept(init, last)
  {
    hide Accepts;
    var files := init + [last];
    assert forall i | 0 <= i < |init| :: files[i] == init[i];
    assert files[|init|] == last;
  }

  /** A folded list accepts exactly what all its members accept, and knows all their variables. */
  lemma {:induction false} FoldAccepts(files: seq<Settings>, c: Settings)
    requires Fold(files).Some?
    ensures Accepts(Fold(files).value, c) <==> AllAccept(files, c)
    ensures Names(Fold(files).value) == EnvironmentKeys(files)
  {
    hide EnvironmentKeys, AllAccept, Accepts, Joined, Fits, Names;
    EmptyList(c);
    if files == [] {
      JoinedWithNothing(c, true);
    } else {
      var init, last := files[..|files| - 1], files[|files| - 1];
      assert files == init + [last];
      ListSplit(init, last);
      FoldAccepts(init, c);
      JoinedAssociative(Fold(init).value, last, c, true);
      JoinedKeys(Fold(init).value, last, true);
    }
  }

  /** Folding succeeds for pairwise reasons only, plus the size of the union of variable names. */
  lemma {:induction false} FoldSucceedsExactly(files: seq<Settings>)
    ensures Fold(files).Some? <==> PairwiseCompatible(files) && Fits(EnvironmentKeys(files))
  {
    hide EnvironmentKeys, AllAccept, Accepts, Joined, PairwiseCompatible, Fits, Names;
    EmptyList(DEFAULT);
    if files != [] {
      var init, last := files[..|files| - 1], files[|files| - 1];
      assert files == init + [last];
      ListSplit(init, last);
      FoldSucceedsExactly(init);
      SmallerUnion(EnvironmentKeys(init), Names(last));
      if Fold(init).Some? {
        FoldAccepts(init, last);
      }
    }
  }

  /** Nearer-wins over hierarchy roots is one left-to-right override fold, up to table origins. */
  lemma {:induction false} RootsAreAFold(roots: seq<Settings>)
    ensures ErasedOption(FoldRoots(roots)) == ErasedOption(Fold(roots))
  {
    hide Accepts, Joined, Fits, Names, ErasedSettings;
    if roots != [] {
      var init, last := roots[..|roots| - 1], roots[|roots| - 1];
      RootsAreAFold(init);
      if Fold(init).Some? {
        var near, far := FoldRoots(init).value, Fold(init).value;
        SettingsErasureCommutes(last, near, false);
        SettingsErasureCommutes(last, far, false);
        SettingsDirectionsAgree(far, last);
      }
    }
  }

  lemma FoldRootsSingle(root: Settings)
    requires Fits(Names(root))
    ensures FoldRoots([root]) == Some(root)
  {
    hide Accepts, Joined, Fits, Names;
    assert [root][..0] == [];
    assert FoldRoots([root][..0]) == Some(DEFAULT);
    JoinedWithNothing(root, false);
  }

  lemma FoldPairs(far: Settings, near: Settings)
    requires Fits(Names(far))
    ensures Fold([far, near]) == Merged(far, near, true)
    ensures FoldRoots([far, near]) == Merged(near, far, false)
  {
    hide Accepts, Joined, Fits, Names;
    assert [far, near][..1] == [far];
    FoldSingle(far);
    FoldRootsSingle(far);
  }

  const VARIABLE := "A"

  function OneVariable(origin: Path): Settings {
    Settings(map[], map[VARIABLE := Table(map[], origin)])
  }

  lemma OneVariableNames(origin: Path)
    ensures Names(OneVariable(origin)) == {VARIABLE} && Fits({VARIABLE})
  {
    var environment: Entries := map[VARIABLE := Table(map[], origin)];
    assert environment.Keys == {VARIABLE};
    assert Names(OneVariable(origin)) == environment.Keys;
  }

  lemma OneVariableJoined(receiver: Path, other: Path, preferNew: bool)
    ensures Accepts(OneVariable(receiver), OneVariable(other))
    ensures Joined(OneVariable(receiver), OneVariable(other), preferNew) == OneVariable(receiver)
  {
    var a, b := OneVariable(receiver), OneVariable(other);
    CombinedWithNothing(map[], preferNew);
    assert a.build == map[] == b.build;
    assert Compatible(a.environment[VARIABLE], b.environment[VARIABLE]);
    var both := Combined(a.environment[VARIABLE], b.environment[VARIABLE], preferNew);
    assert both.entries.Keys == {};
    assert both == a.environment[VARIABLE];
    assert CombinedEntries(a.environment, b.environment, preferNew) == a.environment;
  }

  /**
   Table origins really differ between the directions: when two roots set one variable as a
   table, the flat fold remembers the farther file and the loader remembers the nearer one.
   */
  lemma TableOriginsDiffer(far: Path, near: Path)
    ensures Fold([OneVariable(far), OneVariable(near)]) == Some(OneVariable(far))
    ensures FoldRoots([OneVariable(far), OneVariable(near)]) == Some(OneVariable(near))
    ensures far != near ==>
              Fold([OneVariable(far), OneVariable(near)]) != FoldRoots([OneVariable(far), OneVariable(near)])
  {
    var a, b := OneVariable(far), OneVariable(near);
    OneVariableNames(far);
    OneVariableNames(near);
    assert {VARIABLE} + {VARIABLE} == {VARIABLE};
    FoldPairs(a, b);
    OneVariableJoined(far, near, true);
    OneVariableJoined(near, far, false);
    assert a.environment[VARIABLE].origin == far && b.environment[VARIABLE].origin == near;
  }
}
