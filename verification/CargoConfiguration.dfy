/**
 Cargo configuration discovery: a recursive include walk under visit, depth, path and byte
 budgets, and the hierarchy of roots on top of it.

 The file system is one map from paths to what observing them yields. The walk observes each
 path at most once, so nothing is lost by fixing that map in advance.
 */
module CargoConfiguration {
  import opened Wrappers
  import Toml
  import opened Sequences
  import opened CargoToolSettings
  import TableOrigins

  const MAX_PATHS: nat := 512
  const MAX_BYTES: nat := 16 * 1024 * 1024
  const MAX_DEPTH: nat := 64

  datatype Row = Row(path: Path, present: bool, bytes: nat, contents: seq<bv8>)

  type Document = map<string, Toml.Value>

  datatype Include = Include(path: Path, optional: bool)

  /** Everything outside the walk: files, the TOML parser, path arithmetic and the clock. */
  datatype World = World(
    disk: Path -> Option<Row>,
    parse: seq<bv8> -> Option<Document>,
    resolve: (Path, string) -> Option<Path>,
    join: (Path, string) -> Path,
    canonical: Path -> Path,
    tomlExtension: string -> bool,
    expired: nat -> bool)

  ghost predicate Honest(w: World) {
    forall path :: w.disk(path).Some? ==>
      w.disk(path).value.path == path && (!w.disk(path).value.present ==> w.disk(path).value.bytes == 0)
  }

  // ---------------------------------------------------------------- include declarations

  predicate LiteralToml(w: World, value: string) {
    w.tomlExtension(value) && forall c | c in value :: c !in ['*', '?', '[', ']', '{', '}']
  }

  function IncludeOf(w: World, path: Path, item: Toml.Value): Option<Include> {
    var declared: Option<(string, bool)> :=
      match item
      case Text(value) => Some((value, false))
      case Table(entries) =>
        if "path" in entries && entries["path"].Text? then
          if "optional" !in entries then Some((entries["path"].text, false))
          else if entries["optional"].Boolean? then Some((entries["path"].text, entries["optional"].flag))
          else None
        else None
      case _ => None;
    if declared.None? || !LiteralToml(w, declared.value.0) then None
    else
      var target := w.resolve(path, declared.value.0);
      if target.None? then None else Some(Include(target.value, declared.value.1))
  }

  function IncludesOf(w: World, path: Path, items: seq<Toml.Value>): Option<seq<Include>> {
    if items == [] then Some([])
    else
      var head, tail := IncludeOf(w, path, items[0]), IncludesOf(w, path, items[1..]);
      if head.Some? && tail.Some? then Some([head.value] + tail.value) else None
  }

  /** `include_paths`: a bounded array of literal `.toml` paths, or nothing at all. */
  function IncludePaths(w: World, path: Path, document: Document): Option<seq<Include>> {
    if "include" !in document then Some([])
    else if document["include"].Array? && |document["include"].items| <= MAX_PATHS then
      IncludesOf(w, path, document["include"].items)
    else None
  }

  // ---------------------------------------------------------------- the meaning of one include tree

  ghost predicate Present(w: World, path: Path) {
    w.disk(path).Some? && w.disk(path).value.present
  }

  ghost function DocumentAt(w: World, path: Path): Option<Document> {
    if Present(w, path) then w.parse(w.disk(path).value.contents) else None
  }

  ghost predicate WellFormed(w: World, path: Path) {
    var document := DocumentAt(w, path);
    document.Some? && IncludePaths(w, path, document.value).Some? && DocumentOk(document.value)
  }

  ghost function Includes(w: World, path: Path): seq<Include> {
    if WellFormed(w, path) then IncludePaths(w, path, DocumentAt(w, path).value).value else []
  }

  ghost function Own(w: World, path: Path): Settings {
    if WellFormed(w, path) then OwnSettings(DocumentAt(w, path).value, path) else DEFAULT
  }

  /** Every file the tree needs is readable and well formed, and it is less than `fuel` deep. */
  ghost predicate Accepted(w: World, item: Include, fuel: nat)
    decreases fuel, 0
  {
    && fuel > 0
    && w.disk(item.path).Some?
    && if Present(w, item.path) then WellFormed(w, item.path) && AllAccepted(w, item.path, fuel - 1)
       else item.optional
  }

  ghost predicate AllAccepted(w: World, path: Path, fuel: nat)
    decreases fuel, 1
  {
    forall i | 0 <= i < |Includes(w, path)| :: Accepted(w, Includes(w, path)[i], fuel)
  }

  /** The paths the walk looks at, in the order it looks at them. */
  ghost function Visited(w: World, path: Path, fuel: nat): seq<Path>
    decreases fuel, 0
  {
    if fuel == 0 then [] else [path] + VisitedAll(w, Includes(w, path), fuel - 1)
  }

  ghost function VisitedAll(w: World, items: seq<Include>, fuel: nat): seq<Path>
    decreases fuel, |items| + 1
  {
    if items == [] then []
    else VisitedAll(w, items[..|items| - 1], fuel) + Visited(w, items[|items| - 1].path, fuel)
  }

  /** The load order: what a file includes comes before the file itself. */
  ghost function LoadOrder(w: World, path: Path, fuel: nat): seq<Path>
    decreases fuel, 0
  {
    if fuel == 0 || !WellFormed(w, path) then [] else LoadOrderAll(w, Includes(w, path), fuel - 1) + [path]
  }

  ghost function LoadOrderAll(w: World, items: seq<Include>, fuel: nat): seq<Path>
    decreases fuel, |items| + 1
  {
    if items == [] then []
    else LoadOrderAll(w, items[..|items| - 1], fuel) + LoadOrder(w, items[|items| - 1].path, fuel)
  }

  ghost function OwnList(w: World, order: seq<Path>): seq<Settings> {
    seq(|order|, i requires 0 <= i < |order| => Own(w, order[i]))
  }

  /** The reference settings of a load order: one left-to-right override fold. */
  ghost function Meaning(w: World, order: seq<Path>): Option<Settings> {
    Fold(OwnList(w, order))
  }

  // ---------------------------------------------------------------- budgets

  ghost predicate Has(rows: seq<Row>, path: Path) {
    exists i :: 0 <= i < |rows| && rows[i].path == path
  }

  ghost function Total(rows: seq<Row>): nat {
    if rows == [] then 0 else Total(rows[..|rows| - 1]) + rows[|rows| - 1].bytes
  }

  ghost function Admit(w: World, rows: seq<Row>, path: Path): seq<Row> {
    if Has(rows, path) || w.disk(path).None? then rows else rows + [w.disk(path).value]
  }

  ghost function AdmitAll(w: World, rows: seq<Row>, paths: seq<Path>): seq<Row> {
    if paths == [] then rows else Admit(w, AdmitAll(w, rows, paths[..|paths| - 1]), paths[|paths| - 1])
  }

  ghost predicate Coherent(w: World, rows: seq<Row>) {
    forall i | 0 <= i < |rows| :: w.disk(rows[i].path) == Some(rows[i])
  }

  /** The mutable part of the walk, as a value. */
  datatype Walk = Walk(rows: seq<Row>, remaining: int, visits: nat, order: seq<Path>)

  /** The state after looking at `visited` and loading `loaded`. */
  ghost function Stepped(w: World, s: Walk, visited: seq<Path>, loaded: seq<Path>): Walk {
    var all := AdmitAll(w, s.rows, visited);
    Walk(all, s.remaining + Total(s.rows) - Total(all), s.visits + |visited|, s.order + loaded)
  }

  /** Visiting these paths stays within time, visits, distinct paths and bytes. */
  ghost predicate Room(w: World, s: Walk, visited: seq<Path>) {
    && s.visits + |visited| <= MAX_PATHS
    && (forall v | s.visits <= v < s.visits + |visited| :: !w.expired(v))
    && (forall i | 0 <= i < |visited| :: w.disk(visited[i]).Some?)
    && var all := AdmitAll(w, s.rows, visited);
       (|all| <= MAX_PATHS || |all| == |s.rows|) && Total(all) <= Total(s.rows) + s.remaining
  }

  /** No file is loaded twice under one root. */
  ghost predicate Unrepeated(seen: set<Path>, order: seq<Path>) {
    Distinct(order) && Elements(order) !! seen
  }

  lemma {:induction false} AdmitAllConcat(w: World, rows: seq<Row>, a: seq<Path>, b: seq<Path>)
    ensures AdmitAll(w, rows, a + b) == AdmitAll(w, AdmitAll(w, rows, a), b)
    decreases |b|
  {
    if b == [] {
      assert a + b == a;
    } else {
      assert (a + b)[..|a + b| - 1] == a + b[..|b| - 1];
      AdmitAllConcat(w, rows, a, b[..|b| - 1]);
    }
  }

  lemma AdmitGrows(w: World, rows: seq<Row>, path: Path)
    ensures rows <= Admit(w, rows, path) && Total(rows) <= Total(Admit(w, rows, path))
    ensures Total(Admit(w, rows, path)) ==
            Total(rows) + (if Has(rows, path) || w.disk(path).None? then 0 else w.disk(path).value.bytes)
  {
    if !Has(rows, path) && w.disk(path).Some? {
      assert Admit(w, rows, path)[..|rows|] == rows;
    }
  }

  lemma {:induction false} AdmitAllGrows(w: World, rows: seq<Row>, paths: seq<Path>)
    ensures rows <= AdmitAll(w, rows, paths) && Total(rows) <= Total(AdmitAll(w, rows, paths))
  {
    if paths != [] {
      AdmitAllGrows(w, rows, paths[..|paths| - 1]);
      AdmitGrows(w, AdmitAll(w, rows, paths[..|paths| - 1]), paths[|paths| - 1]);
    }
  }

  lemma SteppedTwice(w: World, s: Walk, a: seq<Path>, b: seq<Path>, x: seq<Path>, y: seq<Path>)
    ensures Stepped(w, Stepped(w, s, a, x), b, y) == Stepped(w, s, a + b, x + y)
  {
    AdmitAllConcat(w, s.rows, a, b);
    assert s.order + (x + y) == (s.order + x) + y;
  }

  /** Budgets compose: there is room for two walks exactly when the second fits after the first. */
  lemma RoomSplits(w: World, s: Walk, a: seq<Path>, b: seq<Path>, loaded: seq<Path>)
    ensures Room(w, s, a + b) <==> Room(w, s, a) && Room(w, Stepped(w, s, a, loaded), b)
  {
    AdmitAllConcat(w, s.rows, a, b);
    AdmitAllGrows(w, s.rows, a);
    AdmitAllGrows(w, AdmitAll(w, s.rows, a), b);
    hide AdmitAll, Total;
    assert forall i | 0 <= i < |a| :: (a + b)[i] == a[i];
    assert forall i | 0 <= i < |b| :: (a + b)[|a| + i] == b[i];
    if Room(w, s, a + b) {
      forall i | 0 <= i < |b|
        ensures w.disk(b[i]).Some?
      {
        assert w.disk((a + b)[|a| + i]).Some?;
      }
    }
  }

  lemma UnrepeatedSplits(seen: set<Path>, a: seq<Path>, b: seq<Path>)
    ensures Elements(a + b) == Elements(a) + Elements(b)
    ensures Unrepeated(seen, a + b) <==> Unrepeated(seen, a) && Unrepeated(seen + Elements(a), b)
  {
    DistinctSplits(a, b);
    ElementsConcat(a, b);
    hide Distinct, Elements;
  }

  lemma OwnListConcat(w: World, a: seq<Path>, b: seq<Path>)
    ensures OwnList(w, a + b) == OwnList(w, a) + OwnList(w, b)
  {
  }

  lemma MeaningConcat(w: World, a: seq<Path>, b: seq<Path>)
    ensures Meaning(w, a + b) == MergedOption(Meaning(w, a), Meaning(w, b), true)
  {
    OwnListConcat(w, a, b);
    FoldConcat(OwnList(w, a), OwnList(w, b));
  }

  lemma MeaningSingle(w: World, path: Path)
    requires WellFormed(w, path)
    ensures Meaning(w, [path]) == Some(Own(w, path))
  {
    assert OwnList(w, [path]) == [Own(w, path)];
    var document := DocumentAt(w, path).value;
    var env := Section(document, "env");
    assert Own(w, path).environment.Keys == env.Keys;
    assert |env.Keys| == |env|;
    assert Fits(Names(Own(w, path)));
    FoldSingle(Own(w, path));
  }

  // ---------------------------------------------------------------- when a walk succeeds

  ghost function Walked(w: World, s: Walk, path: Path, fuel: nat): Walk {
    Stepped(w, s, Visited(w, path, fuel), LoadOrder(w, path, fuel))
  }

  ghost function WalkedAll(w: World, s: Walk, items: seq<Include>, fuel: nat): Walk {
    Stepped(w, s, VisitedAll(w, items, fuel), LoadOrderAll(w, items, fuel))
  }

  ghost function Seen(w: World, seen: set<Path>, items: seq<Include>, fuel: nat): set<Path> {
    seen + Elements(LoadOrderAll(w, items, fuel))
  }

  /** The walk may load `item` from this state: the exact success condition of `load`. */
  ghost predicate Loadable(w: World, s: Walk, seen: set<Path>, item: Include, fuel: nat) {
    && Accepted(w, item, fuel)
    && Room(w, s, Visited(w, item.path, fuel))
    && Unrepeated(seen, LoadOrder(w, item.path, fuel))
    && Meaning(w, LoadOrder(w, item.path, fuel)).Some?
  }

  /** All of `items` may be loaded, one after the other, from this state. */
  ghost predicate AllLoadable(w: World, s: Walk, seen: set<Path>, items: seq<Include>, fuel: nat) {
    && (forall i | 0 <= i < |items| :: Accepted(w, items[i], fuel))
    && Room(w, s, VisitedAll(w, items, fuel))
    && Unrepeated(seen, LoadOrderAll(w, items, fuel))
    && Meaning(w, LoadOrderAll(w, items, fuel)).Some?
  }

  lemma MergedOptionSome(a: Option<Settings>, b: Option<Settings>)
    ensures MergedOption(a, b, true).Some? ==> a.Some? && b.Some?
  {
  }

  lemma NoIncludes(w: World, s: Walk, seen: set<Path>, fuel: nat)
    ensures VisitedAll(w, [], fuel) == [] == LoadOrderAll(w, [], fuel)
    ensures WalkedAll(w, s, [], fuel) == s && Seen(w, seen, [], fuel) == seen
    ensures Meaning(w, []) == Some(DEFAULT)
    ensures s.remaining >= 0 && s.visits <= MAX_PATHS ==> AllLoadable(w, s, seen, [], fuel)
  {
    assert OwnList(w, []) == [];
  }

  /** One more include loads from the state the others leave, and then merges. */
  lemma OneMore(w: World, s: Walk, seen: set<Path>, init: seq<Include>, last: Include, fuel: nat)
    ensures WalkedAll(w, s, init + [last], fuel) == Walked(w, WalkedAll(w, s, init, fuel), last.path, fuel)
    ensures Seen(w, seen, init + [last], fuel) == Seen(w, seen, init, fuel) + Elements(LoadOrder(w, last.path, fuel))
    ensures Meaning(w, LoadOrderAll(w, init + [last], fuel)) ==
            MergedOption(Meaning(w, LoadOrderAll(w, init, fuel)), Meaning(w, LoadOrder(w, last.path, fuel)), true)
    ensures AllLoadable(w, s, seen, init + [last], fuel) <==>
            && AllLoadable(w, s, seen, init, fuel)
            && Loadable(w, WalkedAll(w, s, init, fuel), Seen(w, seen, init, fuel), last, fuel)
            && Meaning(w, LoadOrderAll(w, init + [last], fuel)).Some?
  {
    var items := init + [last];
    assert items[..|items| - 1] == init && items[|items| - 1] == last;
    var v, v' := VisitedAll(w, init, fuel), Visited(w, last.path, fuel);
    var o, o' := LoadOrderAll(w, init, fuel), LoadOrder(w, last.path, fuel);
    assert VisitedAll(w, items, fuel) == v + v' && LoadOrderAll(w, items, fuel) == o + o';
    hide Room, Unrepeated, Meaning, Accepted, Elements, Visited, LoadOrder, Stepped, MergedOption, VisitedAll,
         LoadOrderAll;
    SteppedTwice(w, s, v, v', o, o');
    RoomSplits(w, s, v, v', o);
    UnrepeatedSplits(seen, o, o');
    MeaningConcat(w, o, o');
    MergedOptionSome(Meaning(w, o), Meaning(w, o'));
    assert (forall i | 0 <= i < |items| :: Accepted(w, items[i], fuel)) <==>
           (forall i | 0 <= i < |init| :: Accepted(w, init[i], fuel)) && Accepted(w, last, fuel);
  }

  lemma FewerIncludes(w: World, s: Walk, seen: set<Path>, items: seq<Include>, fuel: nat, count: nat)
    requires count <= |items|
    requires AllLoadable(w, s, seen, items, fuel)
    ensures AllLoadable(w, s, seen, items[..count], fuel)
    decreases |items| - count
  {
    hide AllLoadable, Loadable, Meaning, LoadOrderAll, WalkedAll, Walked, Seen, LoadOrder, MergedOption, Elements;
    if count == |items| {
      assert items[..count] == items;
    } else {
      var init := items[..|items| - 1];
      assert items == init + [items[|items| - 1]];
      OneMore(w, s, seen, init, items[|items| - 1], fuel);
      FewerIncludes(w, s, seen, init, fuel, count);
      assert init[..count] == items[..count];
    }
  }

  /** What the loop over the includes has established after the first `i` of them. */
  ghost predicate Progress(w: World, start: Walk, seen: set<Path>, items: seq<Include>, fuel: nat, i: nat,
                           s: Walk, seen': set<Path>, settings: Settings)
  {
    && i <= |items|
    && AllLoadable(w, start, seen, items[..i], fuel)
    && s == WalkedAll(w, start, items[..i], fuel)
    && seen' == Seen(w, seen, items[..i], fuel)
    && Some(settings) == Meaning(w, LoadOrderAll(w, items[..i], fuel))
  }

  lemma ProgressStart(w: World, start: Walk, seen: set<Path>, items: seq<Include>, fuel: nat)
    requires start.remaining >= 0 && start.visits <= MAX_PATHS
    ensures Progress(w, start, seen, items, fuel, 0, start, seen, DEFAULT)
  {
    assert items[..0] == [];
    NoIncludes(w, start, seen, fuel);
  }

  lemma ProgressStep(w: World, start: Walk, seen: set<Path>, items: seq<Include>, fuel: nat, i: nat,
                     s: Walk, seen': set<Path>, settings: Settings)
    requires i < |items| && Progress(w, start, seen, items, fuel, i, s, seen', settings)
    ensures
      var last := LoadOrder(w, items[i].path, fuel);
      var merged := MergedOption(Some(settings), Meaning(w, last), true);
      if Loadable(w, s, seen', items[i], fuel) && merged.Some? then
        Progress(w, start, seen, items, fuel, i + 1, Walked(w, s, items[i].path, fuel), seen' + Elements(last),
            merged.value)
      else
        !AllLoadable(w, start, seen, items, fuel)
  {
    hide AllLoadable, Loadable, Meaning, LoadOrderAll, WalkedAll, Walked, Seen, LoadOrder, MergedOption, Elements;
    assert items[..i + 1] == items[..i] + [items[i]];
    OneMore(w, start, seen, items[..i], items[i], fuel);
    if AllLoadable(w, start, seen, items, fuel) {
      FewerIncludes(w, start, seen, items, fuel, i + 1);
    }
  }

  lemma ProgressEnd(w: World, start: Walk, seen: set<Path>, items: seq<Include>, fuel: nat,
                    s: Walk, seen': set<Path>, settings: Settings)
    requires Progress(w, start, seen, items, fuel, |items|, s, seen', settings)
    ensures AllLoadable(w, start, seen, items, fuel)
    ensures s == WalkedAll(w, start, items, fuel) && seen' == Seen(w, seen, items, fuel)
    ensures Some(settings) == Meaning(w, LoadOrderAll(w, items, fuel))
  {
    assert items[..|items|] == items;
  }

  /** The state after looking at one path, before its includes. */
  ghost function Looked(w: World, s: Walk, path: Path): Walk {
    Stepped(w, s, [path], [])
  }

  ghost function Loaded(s: Walk, path: Path): Walk {
    s.(order := s.order + [path])
  }

  /** A present file can be loaded exactly when its includes can, and it is new, and it merges. */
  lemma LoadPresent(w: World, s: Walk, seen: set<Path>, item: Include, fuel: nat)
    requires fuel > 0 && WellFormed(w, item.path)
    ensures
      var path, items := item.path, Includes(w, item.path);
      var own := MergedOption(Meaning(w, LoadOrderAll(w, items, fuel - 1)), Some(Own(w, path)), true);
      && Walked(w, s, path, fuel) == Loaded(WalkedAll(w, Looked(w, s, path), items, fuel - 1), path)
      && seen + Elements(LoadOrder(w, path, fuel)) == Seen(w, seen + {path}, items, fuel - 1)
      && Meaning(w, LoadOrder(w, path, fuel)) == own
      && (Loadable(w, s, seen, item, fuel) <==>
            && Room(w, s, [path])
            && path !in seen
            && AllLoadable(w, Looked(w, s, path), seen + {path}, items, fuel - 1)
            && own.Some?)
  {
    var path, items := item.path, Includes(w, item.path);
    var visited, order := VisitedAll(w, items, fuel - 1), LoadOrderAll(w, items, fuel - 1);
    assert Visited(w, path, fuel) == [path] + visited && LoadOrder(w, path, fuel) == order + [path];
    assert Accepted(w, item, fuel) <==> AllAccepted(w, path, fuel - 1);
    hide Room, Unrepeated, Meaning, Elements, Stepped, MergedOption, Own, Visited, LoadOrder, VisitedAll,
         LoadOrderAll, Accepted;
    RoomSplits(w, s, [path], visited, []);
    UnrepeatedLast(seen, order, path);
    MeaningConcat(w, order, [path]);
    MeaningSingle(w, path);
    MergedOptionSome(Meaning(w, order), Some(Own(w, path)));
    LoadedLast(w, s, path, visited, order);
    SeenLast(seen, path, Elements(order));
  }

  lemma SeenLast(seen: set<Path>, path: Path, loaded: set<Path>)
    ensures seen + (loaded + {path}) == (seen + {path}) + loaded
  {
  }

  lemma LoadedLast(w: World, s: Walk, path: Path, visited: seq<Path>, order: seq<Path>)
    ensures Stepped(w, s, [path] + visited, order + [path]) ==
            Loaded(Stepped(w, Looked(w, s, path), visited, order), path)
  {
    SteppedTwice(w, s, [path], visited, [], order);
    assert [] + order == order;
    assert s.order + (order + [path]) == (s.order + order) + [path];
  }

  lemma LoadAbsent(w: World, s: Walk, seen: set<Path>, item: Include, fuel: nat)
    requires fuel > 0 && !WellFormed(w, item.path)
    ensures LoadOrder(w, item.path, fuel) == [] && Visited(w, item.path, fuel) == [item.path]
    ensures Walked(w, s, item.path, fuel) == Looked(w, s, item.path)
    ensures Meaning(w, []) == Some(DEFAULT) && seen + Elements([]) == seen
    ensures Loadable(w, s, seen, item, fuel) <==> Room(w, s, [item.path]) && !Present(w, item.path) && item.optional
  {
    NoIncludes(w, s, seen, fuel - 1);
    hide AdmitAll, Meaning, Total;
    assert [item.path][0] == item.path;
  }

  lemma AdmitSingle(w: World, rows: seq<Row>, path: Path)
    ensures AdmitAll(w, rows, [path]) == Admit(w, rows, path)
  {
    assert [path][..0] == [];
    assert AdmitAll(w, rows, [path][..0]) == rows;
  }

  /** Marking the file as seen before its includes is the same as listing it after them. */
  lemma UnrepeatedLast(seen: set<Path>, order: seq<Path>, path: Path)
    ensures Unrepeated(seen, order + [path]) <==> path !in seen && Unrepeated(seen + {path}, order)
    ensures Elements(order + [path]) == Elements(order) + {path}
  {
    UnrepeatedSplits(seen, order, [path]);
    assert Elements([path]) == {path};
  }

  // ---------------------------------------------------------------- the walk

  method Position(rows: seq<Row>, path: Path) returns (index: nat)
    ensures index <= |rows|
    ensures index < |rows| ==> rows[index].path == path
    ensures index == |rows| <==> !Has(rows, path)
  {
    index := 0;
    while index < |rows| && rows[index].path != path
      invariant index <= |rows|
      invariant forall i | 0 <= i < index :: rows[i].path != path
    {
      index := index + 1;
    }
  }

  class IncludeInventory {
    const world: World
    var rows: seq<Row>
    var remaining: nat
    var order: seq<Path>
    var visits: nat

    constructor (world: World, rows: seq<Row>, remaining: nat)
      ensures this.world == world && this.rows == rows && this.remaining == remaining
      ensures order == [] && visits == 0
    {
      this.world, this.rows, this.remaining := world, rows, remaining;
      order, visits := [], 0;
    }

    ghost predicate Valid()
      reads this
    {
      Honest(world) && Coherent(world, rows)
    }

    ghost function State(): Walk
      reads this
    {
      Walk(rows, remaining, visits, order)
    }

    /** Looks the path up among the rows, or observes it within the remaining bytes. */
    method Observe(path: Path) returns (r: Option<Row>)
      requires Valid()
      modifies this`rows, this`remaining
      ensures Valid()
      ensures remaining + Total(rows) == old(remaining + Total(rows))
      ensures r.Some? <==>
              world.disk(path).Some? &&
              (old(Has(rows, path)) || (|old(rows)| < MAX_PATHS && world.disk(path).value.bytes <= old(remaining)))
      ensures r.Some? ==> r == world.disk(path) && rows == Admit(world, old(rows), path)
      ensures old(rows) <= rows
    {
      AdmitGrows(world, rows, path);
      hide Total;
      var index := Position(rows, path);
      if index < |rows| {
        return Some(rows[index]);
      }
      if |rows| >= MAX_PATHS {
        return None;
      }
      r := world.disk(path);
      if r.None? {
        return;
      }
      if r.value.bytes > remaining {
        return None;
      }
      remaining := remaining - r.value.bytes;
      rows := rows + [r.value];
    }

    /** Up to the includes: clock, visit and depth budgets, observation, parsing and projection. */
    method Enter(path: Path, optional: bool, seen: set<Path>, depth: nat) returns (entered: Entered)
      requires Valid() && depth <= MAX_DEPTH
      modifies this`rows, this`remaining, this`visits
      ensures Valid()
      ensures remaining + Total(rows) == old(remaining + Total(rows))
      ensures !entered.Refused? <==>
              && depth < MAX_DEPTH
              && Room(world, old(State()), [path])
              && if Present(world, path) then WellFormed(world, path) && path !in seen else optional
      ensures entered.Absent? ==> !WellFormed(world, path)
      ensures entered.Opened? ==>
                WellFormed(world, path) && entered.includes == Includes(world, path) && entered.own == Own(world, path)
      ensures !entered.Refused? ==> State() == Looked(world, old(State()), path) && visits <= MAX_PATHS
    {
      RoomSingle(world, State(), path);
      AdmitGrows(world, rows, path);
      hide Room, Total, Has, AdmitAll, Admit;
      if world.expired(visits) {
        return Refused;
      }
      visits := visits + 1;
      if depth >= MAX_DEPTH || visits > MAX_PATHS {
        return Refused;
      }
      var row := Observe(path);
      if row.None? {
        return Refused;
      }
      if !row.value.present {
        return if optional then Absent else Refused;
      }
      if path in seen {
        return Refused;
      }
      var document := world.parse(row.value.contents);
      if document.None? {
        return Refused;
      }
      var includes := IncludePaths(world, path, document.value);
      if includes.None? {
        return Refused;
      }
      var own := FromDocument(path, document.value);
      if own.None? {
        return Refused;
      }
      entered := Opened(includes.value, own.value);
    }

    /** `load`: succeeds exactly when the include tree is loadable, and then loads all of it. */
    method Load(path: Path, optional: bool, seen: set<Path>, depth: nat)
      returns (r: Option<Settings>, seen': set<Path>)
      requires Valid() && depth <= MAX_DEPTH
      modifies this
      ensures Valid()
      ensures remaining + Total(rows) == old(remaining + Total(rows))
      ensures r.Some? <==> Loadable(world, old(State()), seen, Include(path, optional), MAX_DEPTH - depth)
      ensures r.Some? ==>
                && State() == Walked(world, old(State()), path, MAX_DEPTH - depth)
                && seen' == seen + Elements(LoadOrder(world, path, MAX_DEPTH - depth))
                && r == Meaning(world, LoadOrder(world, path, MAX_DEPTH - depth))
      decreases MAX_DEPTH - depth, 0
    {
      ghost var fuel := MAX_DEPTH - depth;
      if depth < MAX_DEPTH {
        if WellFormed(world, path) {
          LoadPresent(world, State(), seen, Include(path, optional), fuel);
        } else {
          LoadAbsent(world, State(), seen, Include(path, optional), fuel);
        }
      }
      hide Room, Total, Elements, Unrepeated, Meaning, AllLoadable, Loadable, LoadOrder, LoadOrderAll, Walked,
           WalkedAll, Seen, Merged, Honest, Coherent, MergedOption, Includes, Looked, WellFormed, Own;
      var entered := Enter(path, optional, seen, depth);
      match entered
      case Refused =>
        r, seen' := None, seen;
      case Absent =>
        r, seen' := Some(DEFAULT), seen;
      case Opened(includes, own) =>
        r, seen' := LoadOpened(path, includes, own, seen + {path}, depth);
    }

    /** The rest of `load` for a file that is there: its includes, then its own settings over them. */
    method LoadOpened(path: Path, includes: seq<Include>, own: Settings, seen: set<Path>, depth: nat)
      returns (r: Option<Settings>, seen': set<Path>)
      requires Valid() && depth < MAX_DEPTH && visits <= MAX_PATHS
      modifies this
      ensures Valid()
      ensures remaining + Total(rows) == old(remaining + Total(rows))
      ensures
        var merged := MergedOption(Meaning(world, LoadOrderAll(world, includes, MAX_DEPTH - depth - 1)), Some(own),
            true);
        && (r.Some? <==> AllLoadable(world, old(State()), seen, includes, MAX_DEPTH - depth - 1) && merged.Some?)
        && (r.Some? ==> r == merged)
      ensures r.Some? ==>
                && State() == Loaded(WalkedAll(world, old(State()), includes, MAX_DEPTH - depth - 1), path)
                && seen' == Seen(world, seen, includes, MAX_DEPTH - depth - 1)
      decreases MAX_DEPTH - depth - 1, 3
    {
      hide Room, Total, Elements, Unrepeated, Meaning, AllLoadable, Loadable, LoadOrder, LoadOrderAll, Walked,
           WalkedAll, Seen, Merged, Honest, Coherent;
      var settings := new ToolSettings(DEFAULT);
      var ok;
      ok, seen' := LoadIncludes(includes, settings, seen, depth + 1);
      if ok {
        ok := settings.Merge(own, true);
      }
      if !ok {
        return None, seen';
      }
      order := order + [path];
      r := Some(settings.Value());
    }

    /** Loads one include and lets it override the settings so far. */
    method LoadInto(item: Include, settings: ToolSettings, seen: set<Path>, depth: nat)
      returns (ok: bool, seen': set<Path>)
      requires Valid() && depth <= MAX_DEPTH
      modifies this, settings
      ensures Valid()
      ensures remaining + Total(rows) == old(remaining + Total(rows))
      ensures
        var merged := MergedOption(Some(old(settings.Value())),
            Meaning(world, LoadOrder(world, item.path, MAX_DEPTH - depth)), true);
        && (ok <==> Loadable(world, old(State()), seen, item, MAX_DEPTH - depth) && merged.Some?)
        && (ok ==> Some(settings.Value()) == merged)
      ensures ok ==>
                && State() == Walked(world, old(State()), item.path, MAX_DEPTH - depth)
                && seen' == seen + Elements(LoadOrder(world, item.path, MAX_DEPTH - depth))
      decreases MAX_DEPTH - depth, 1
    {
      hide Room, Total, Elements, Unrepeated, Meaning, AllLoadable, Loadable, LoadOrder, LoadOrderAll, Walked,
           WalkedAll, Seen, Merged, Honest, Coherent;
      var loaded;
      loaded, seen' := Load(item.path, item.optional, seen, depth);
      ok := loaded.Some?;
      if ok {
        ok := settings.Merge(loaded.value, true);
      }
    }

    /** The loop over a file's includes: each one overrides those before it. */
    method LoadIncludes(items: seq<Include>, settings: ToolSettings, seen: set<Path>, depth: nat)
      returns (ok: bool, seen': set<Path>)
      requires Valid() && depth <= MAX_DEPTH
      requires settings.Value() == DEFAULT && visits <= MAX_PATHS
      modifies this, settings
      ensures Valid()
      ensures remaining + Total(rows) == old(remaining + Total(rows))
      ensures ok <==> AllLoadable(world, old(State()), seen, items, MAX_DEPTH - depth)
      ensures ok ==>
                && State() == WalkedAll(world, old(State()), items, MAX_DEPTH - depth)
                && seen' == Seen(world, seen, items, MAX_DEPTH - depth)
                && Some(settings.Value()) == Meaning(world, LoadOrderAll(world, items, MAX_DEPTH - depth))
      decreases MAX_DEPTH - depth, 2
    {
      hide Room, Total, Elements, Unrepeated, Meaning, AllLoadable, Loadable, LoadOrder, LoadOrderAll, Walked,
           WalkedAll, Seen, Merged, Honest, Coherent, MergedOption, Progress;
      ghost var fuel, start := MAX_DEPTH - depth, State();
      seen' := seen;
      ok := true;
      ProgressStart(world, start, seen, items, fuel);
      for i := 0 to |items|
        invariant ok && Valid()
        invariant remaining + Total(rows) == old(remaining + Total(rows))
        invariant Progress(world, start, seen, items, fuel, i, State(), seen', settings.Value())
      {
        ProgressStep(world, start, seen, items, fuel, i, State(), seen', settings.Value());
        ok, seen' := LoadInto(items[i], settings, seen', depth);
        if !ok {
          return;
        }
      }
      ProgressEnd(world, start, seen, items, fuel, State(), seen', settings.Value());
    }
  }

  datatype Entered = Refused | Absent | Opened(includes: seq<Include>, own: Settings)

  lemma RoomSingle(w: World, s: Walk, path: Path)
    ensures Room(w, s, [path]) <==>
            && s.visits + 1 <= MAX_PATHS && !w.expired(s.visits) && w.disk(path).Some?
            && if Has(s.rows, path) then s.remaining >= 0
               else |s.rows| < MAX_PATHS && w.disk(path).value.bytes <= s.remaining
    ensures Looked(w, s, path) ==
            Walk(Admit(w, s.rows, path),
                 if Has(s.rows, path) || w.disk(path).None? then s.remaining
                     else s.remaining - w.disk(path).value.bytes,
                 s.visits + 1, s.order)
  {
    AdmitSingle(w, s.rows, path);
    AdmitGrows(w, s.rows, path);
    hide Total, AdmitAll;
    assert [path][0] == path;
    assert s.order + [] == s.order;
  }

  // ---------------------------------------------------------------- hierarchy roots

  ghost predicate PresentRow(rows: seq<Row>, path: Path) {
    exists i :: 0 <= i < |rows| && rows[i].path == path && rows[i].present
  }

  /** Of the two file names a directory may use, `config` wins over `config.toml`. */
  ghost function Selected(w: World, rows: seq<Row>, directory: Path): Option<Path> {
    if PresentRow(rows, w.join(directory, "config")) then Some(w.join(directory, "config"))
    else if PresentRow(rows, w.join(directory, "config.toml")) then Some(w.join(directory, "config.toml"))
    else None
  }

  /** The ancestors' directories, and Cargo's home unless it is one of them. */
  ghost function SearchPath(w: World, directories: seq<Path>, home: Path): seq<Path> {
    var known := set directory | directory in directories :: w.canonical(directory);
    if w.canonical(home) in known || home in known then directories else directories + [home]
  }

  ghost function RootsOf(w: World, rows: seq<Row>, directories: seq<Path>): seq<Path> {
    if directories == [] then []
    else
      var init := RootsOf(w, rows, directories[..|directories| - 1]);
      var selected := Selected(w, rows, directories[|directories| - 1]);
      if selected.Some? && selected.value !in init then init + [selected.value] else init
  }

  /** Every selected file is a root exactly once, and every root is a selected file. */
  lemma {:induction false} RootsOfExactly(w: World, rows: seq<Row>, directories: seq<Path>)
    ensures Distinct(RootsOf(w, rows, directories))
    ensures forall path :: path in RootsOf(w, rows, directories) <==>
              exists i :: 0 <= i < |directories| && Selected(w, rows, directories[i]) == Some(path)
  {
    hide Selected;
    if directories != [] {
      var init, last := directories[..|directories| - 1], directories[|directories| - 1];
      RootsOfExactly(w, rows, init);
      assert directories == init + [last];
      forall path
        ensures (exists i :: 0 <= i < |directories| && Selected(w, rows, directories[i]) == Some(path)) <==>
                path in RootsOf(w, rows, init) || Selected(w, rows, last) == Some(path)
      {
        if i :| 0 <= i < |directories| && Selected(w, rows, directories[i]) == Some(path) {
          assert i < |init| ==> Selected(w, rows, init[i]) == Some(path);
        }
        if path in RootsOf(w, rows, init) {
          var i :| 0 <= i < |init| && Selected(w, rows, init[i]) == Some(path);
          assert Selected(w, rows, directories[i]) == Some(path);
        }
        if Selected(w, rows, last) == Some(path) {
          assert Selected(w, rows, directories[|init|]) == Some(path);
        }
      }
    }
  }

  method HasPresent(rows: seq<Row>, path: Path) returns (found: bool)
    ensures found == PresentRow(rows, path)
  {
    for i := 0 to |rows|
      invariant forall k | 0 <= k < i :: !(rows[k].path == path && rows[k].present)
    {
      if rows[i].path == path && rows[i].present {
        return true;
      }
    }
    return false;
  }

  method SelectRoots(w: World, rows: seq<Row>, ancestors: seq<Path>, home: Path) returns (roots: seq<Path>)
    ensures roots == RootsOf(w, rows, SearchPath(w, ancestors, home))
  {
    var seen := {};
    for i := 0 to |ancestors|
      invariant seen == set directory | directory in ancestors[..i] :: w.canonical(directory)
    {
      seen := seen + {w.canonical(ancestors[i])};
      assert ancestors[..i + 1] == ancestors[..i] + [ancestors[i]];
    }
    assert ancestors[..|ancestors|] == ancestors;
    var directories := ancestors;
    if w.canonical(home) !in seen && home !in seen {
      directories := directories + [home];
    }
    roots := [];
    assert directories[..0] == [] && directories[..|directories|] == directories;
    for i := 0 to |directories|
      invariant roots == RootsOf(w, rows, directories[..i])
    {
      assert directories[..i + 1][..i] == directories[..i];
      var plain := HasPresent(rows, w.join(directories[i], "config"));
      var toml := HasPresent(rows, w.join(directories[i], "config.toml"));
      if plain || toml {
        var path := w.join(directories[i], if plain then "config" else "config.toml");
        if path !in roots {
          roots := roots + [path];
        }
      }
    }
  }

  /** Farthest root first: the order in which the roots are loaded. */
  ghost function FarthestFirst(roots: seq<Path>): seq<Include> {
    seq(|roots|, i requires 0 <= i < |roots| => Include(roots[|roots| - 1 - i], false))
  }

  /** All roots can be loaded, farthest first; repetition is judged within each root only. */
  ghost predicate RootsLoadable(w: World, s: Walk, items: seq<Include>) {
    && (forall i | 0 <= i < |items| :: RootAccepted(w, items[i]))
    && Room(w, s, VisitedAll(w, items, MAX_DEPTH))
    && Meaning(w, LoadOrderAll(w, items, MAX_DEPTH)).Some?
  }

  ghost predicate RootAccepted(w: World, item: Include) {
    Accepted(w, item, MAX_DEPTH) && Unrepeated({}, LoadOrder(w, item.path, MAX_DEPTH))
  }

  lemma OneMoreRoot(w: World, s: Walk, init: seq<Include>, last: Include)
    ensures RootsLoadable(w, s, init + [last]) <==>
            && RootsLoadable(w, s, init)
            && Loadable(w, WalkedAll(w, s, init, MAX_DEPTH), {}, last, MAX_DEPTH)
            && Meaning(w, LoadOrderAll(w, init + [last], MAX_DEPTH)).Some?
  {
    var items := init + [last];
    var v, v' := VisitedAll(w, init, MAX_DEPTH), Visited(w, last.path, MAX_DEPTH);
    var o, o' := LoadOrderAll(w, init, MAX_DEPTH), LoadOrder(w, last.path, MAX_DEPTH);
    assert items[..|items| - 1] == init && items[|items| - 1] == last;
    assert VisitedAll(w, items, MAX_DEPTH) == v + v' && LoadOrderAll(w, items, MAX_DEPTH) == o + o';
    assert Loadable(w, WalkedAll(w, s, init, MAX_DEPTH), {}, last, MAX_DEPTH) <==>
           RootAccepted(w, last) && Room(w, WalkedAll(w, s, init, MAX_DEPTH), v') && Meaning(w, o').Some?;
    hide Room, Meaning, Visited, LoadOrder, Stepped, MergedOption, VisitedAll, LoadOrderAll, Loadable, RootAccepted;
    RoomSplits(w, s, v, v', o);
    MeaningConcat(w, o, o');
    MergedOptionSome(Meaning(w, o), Meaning(w, o'));
    assert (forall i | 0 <= i < |items| :: RootAccepted(w, items[i])) <==>
           (forall i | 0 <= i < |init| :: RootAccepted(w, init[i])) && RootAccepted(w, last);
  }

  lemma FewerRoots(w: World, s: Walk, items: seq<Include>, count: nat)
    requires count <= |items| && RootsLoadable(w, s, items)
    ensures RootsLoadable(w, s, items[..count])
    decreases |items| - count
  {
    hide RootsLoadable, Loadable, Meaning, WalkedAll, Walked, LoadOrderAll, LoadOrder, MergedOption;
    if count == |items| {
      assert items[..count] == items;
    } else {
      var init := items[..|items| - 1];
      assert items == init + [items[|items| - 1]];
      OneMoreRoot(w, s, init, items[|items| - 1]);
      FewerRoots(w, s, init, count);
      assert init[..count] == items[..count];
    }
  }

  ghost function RootMeaning(w: World, root: Include): Settings {
    var meaning := Meaning(w, LoadOrder(w, root.path, MAX_DEPTH));
    if meaning.Some? then meaning.value else DEFAULT
  }

  /** What each root means on its own, its includes folded in; farthest root first. */
  ghost function RootMeanings(w: World, items: seq<Include>): seq<Settings> {
    seq(|items|, i requires 0 <= i < |items| => RootMeaning(w, items[i]))
  }

  lemma OneMoreMeaning(w: World, items: seq<Include>, i: nat)
    requires i < |items|
    ensures RootMeanings(w, items[..i + 1]) == RootMeanings(w, items[..i]) + [RootMeaning(w, items[i])]
  {
  }

  /** What the loop over the roots has established after the first `i` of them. */
  ghost predicate RootProgress(w: World, start: Walk, items: seq<Include>, i: nat,
                               s: Walk, loaded: seq<Settings>, settings: Settings)
  {
    && i <= |items|
    && RootsLoadable(w, start, items[..i])
    && s == WalkedAll(w, start, items[..i], MAX_DEPTH)
    && loaded == RootMeanings(w, items[..i])
    && FoldRoots(loaded) == Some(settings)
    && Fold(loaded) == Meaning(w, LoadOrderAll(w, items[..i], MAX_DEPTH))
  }

  lemma RootProgressStart(w: World, start: Walk, items: seq<Include>)
    requires start.remaining >= 0 && start.visits <= MAX_PATHS
    ensures RootProgress(w, start, items, 0, start, [], DEFAULT)
  {
    assert items[..0] == [];
    NoIncludes(w, start, {}, MAX_DEPTH);
  }

  /** Both folds grow by one root, and are defined together. */
  lemma FoldsGrow(loaded: seq<Settings>, nearer: Settings, settings: Settings)
    requires FoldRoots(loaded) == Some(settings)
    ensures FoldRoots(loaded + [nearer]) == Merged(nearer, settings, false)
    ensures Fold(loaded + [nearer]) == MergedOption(Fold(loaded), Some(nearer), true)
    ensures FoldRoots(loaded + [nearer]).Some? <==> Fold(loaded + [nearer]).Some?
  {
    assert (loaded + [nearer])[..|loaded|] == loaded;
    RootsAreAFold(loaded + [nearer]);
    hide Merged, ErasedSettings;
  }

  lemma RootProgressStep(w: World, start: Walk, items: seq<Include>, i: nat,
                         s: Walk, loaded: seq<Settings>, settings: Settings)
    requires i < |items| && RootProgress(w, start, items, i, s, loaded, settings)
    ensures
      var nearer := Meaning(w, LoadOrder(w, items[i].path, MAX_DEPTH));
      if Loadable(w, s, {}, items[i], MAX_DEPTH) && nearer.Some? && Merged(nearer.value, settings, false).Some? then
        RootProgress(w, start, items, i + 1, Walked(w, s, items[i].path, MAX_DEPTH), loaded + [nearer.value],
                     Merged(nearer.value, settings, false).value)
      else
        !RootsLoadable(w, start, items)
  {
    hide RootsLoadable, Loadable, Meaning, WalkedAll, Walked, LoadOrderAll, LoadOrder, Merged, ErasedSettings,
         Seen, Elements, AllLoadable, RootMeanings, Fold, FoldRoots;
    assert items[..i + 1] == items[..i] + [items[i]];
    OneMore(w, start, {}, items[..i], items[i], MAX_DEPTH);
    OneMoreRoot(w, start, items[..i], items[i]);
    if RootsLoadable(w, start, items) {
      FewerRoots(w, start, items, i + 1);
    }
    var nearer := Meaning(w, LoadOrder(w, items[i].path, MAX_DEPTH));
    OneMoreMeaning(w, items, i);
    if nearer.Some? {
      FoldsGrow(loaded, nearer.value, settings);
    }
  }

  /**
   How loaded settings relate to the flat fold along the load order: they agree up to table
   origins, and entirely if and only if every table has one origin in the farthest and the
   nearest root that hold it.
   */
  ghost predicate AgreesWithOrder(w: World, items: seq<Include>, order: seq<Path>, settings: Settings) {
    && Some(ErasedSettings(settings)) == ErasedOption(Meaning(w, order))
    && (Some(settings) == Meaning(w, order) <==> TableOrigins.EndsAgree(RootMeanings(w, items)))
  }

  lemma RootProgressEnd(w: World, start: Walk, items: seq<Include>, s: Walk, loaded: seq<Settings>, settings: Settings)
    requires start.order == [] && RootProgress(w, start, items, |items|, s, loaded, settings)
    ensures RootsLoadable(w, start, items)
    ensures FoldRoots(RootMeanings(w, items)) == Some(settings)
    ensures s.order == LoadOrderAll(w, items, MAX_DEPTH)
    ensures s.rows == AdmitAll(w, start.rows, VisitedAll(w, items, MAX_DEPTH))
    ensures AgreesWithOrder(w, items, s.order, settings)
  {
    hide RootMeanings, Fold, FoldRoots, TableOrigins.EndsAgree, ErasedSettings, PairwiseCompatible, Fits,
         EnvironmentKeys;
    assert items[..|items|] == items;
    RootsAreAFold(loaded);
    FoldSucceedsExactly(loaded);
    TableOrigins.FoldRootsEqualsFold(loaded);
  }

  method SumBytes(rows: seq<Row>) returns (sum: nat)
    ensures sum == Total(rows)
  {
    sum := 0;
    assert rows[..0] == [] && rows[..|rows|] == rows;
    for i := 0 to |rows|
      invariant sum == Total(rows[..i])
    {
      assert rows[..i + 1][..i] == rows[..i];
      sum := sum + rows[i].bytes;
    }
  }

  /** Loads one root and lets it keep its own values over the farther roots' settings. */
  method LoadRoot(owner: IncludeInventory, root: Path, settings: Settings) returns (r: Option<Settings>)
    requires owner.Valid()
    modifies owner
    ensures owner.Valid()
    ensures owner.remaining + Total(owner.rows) == old(owner.remaining + Total(owner.rows))
    ensures
      var nearer := Meaning(owner.world, LoadOrder(owner.world, root, MAX_DEPTH));
      && (r.Some? <==> Loadable(owner.world, old(owner.State()), {}, Include(root, false), MAX_DEPTH) &&
                       nearer.Some? && Merged(nearer.value, settings, false).Some?)
      && (r.Some? ==> r == Merged(nearer.value, settings, false) &&
                      owner.State() == Walked(owner.world, old(owner.State()), root, MAX_DEPTH))
  {
    hide Loadable, Meaning, Walked, LoadOrder, Merged, Honest, Coherent, Total;
    var nearer, _ := owner.Load(root, false, {}, 0);
    if nearer.None? {
      return None;
    }
    var merged := new ToolSettings(nearer.value);
    var ok := merged.Merge(settings, false);
    r := if ok then Some(merged.Value()) else None;
  }

  /** The loop over the roots, from the farthest to the nearest. */
  method LoadRoots(owner: IncludeInventory, roots: seq<Path>) returns (r: Option<Settings>)
    requires owner.Valid() && owner.order == [] && owner.visits == 0
    modifies owner
    ensures owner.Valid()
    ensures owner.remaining + Total(owner.rows) == old(owner.remaining + Total(owner.rows))
    ensures r.Some? <==> RootsLoadable(owner.world, old(owner.State()), FarthestFirst(roots))
    ensures r.Some? ==>
              && owner.order == LoadOrderAll(owner.world, FarthestFirst(roots), MAX_DEPTH)
              && owner.rows == AdmitAll(owner.world, old(owner.rows),
                  VisitedAll(owner.world, FarthestFirst(roots), MAX_DEPTH))
              && FoldRoots(RootMeanings(owner.world, FarthestFirst(roots))) == r
              && AgreesWithOrder(owner.world, FarthestFirst(roots), owner.order, r.value)
  {
    hide RootProgress, RootsLoadable, Loadable, Meaning, Walked, LoadOrderAll, LoadOrder, Merged, Honest, Coherent,
         Total, VisitedAll, AdmitAll, AgreesWithOrder, RootMeanings, FoldRoots, FarthestFirst;
    ghost var items, start, w := FarthestFirst(roots), owner.State(), owner.world;
    ghost var loaded: seq<Settings> := [];
    var settings := DEFAULT;
    RootProgressStart(w, start, items);
    FarthestLength(roots);
    for i := 0 to |roots|
      invariant owner.Valid()
      invariant owner.remaining + Total(owner.rows) == old(owner.remaining + Total(owner.rows))
      invariant RootProgress(w, start, items, i, owner.State(), loaded, settings)
    {
      FarthestAt(roots, i);
      RootProgressStep(w, start, items, i, owner.State(), loaded, settings);
      ghost var nearer := Meaning(w, LoadOrder(w, roots[|roots| - 1 - i], MAX_DEPTH));
      r := LoadRoot(owner, roots[|roots| - 1 - i], settings);
      if r.None? {
        return;
      }
      settings := r.value;
      loaded := loaded + [nearer.value];
    }
    RootProgressEnd(w, start, items, owner.State(), loaded, settings);
    r := Some(settings);
  }

  /**
   `expand`: the whole discovery. It succeeds exactly when all roots are loadable, and then its
   settings are the left-to-right override fold of the files along the order it returns: always
   up to the origins of tables, and entirely under the exact condition of `AgreesWithOrder`.
   */
  method Expand(w: World, rows: seq<Row>, ancestors: seq<Path>, home: Path)
    returns (r: Option<(seq<Path>, Settings)>, rows': seq<Row>)
    requires Honest(w) && Coherent(w, rows) && Total(rows) <= MAX_BYTES
    ensures
      var items := FarthestFirst(RootsOf(w, rows, SearchPath(w, ancestors, home)));
      && (r.Some? <==> RootsLoadable(w, Walk(rows, MAX_BYTES - Total(rows), 0, []), items))
      && (r.Some? ==>
            && r.value.0 == LoadOrderAll(w, items, MAX_DEPTH)
            && FoldRoots(RootMeanings(w, items)) == Some(r.value.1)
            && AgreesWithOrder(w, items, r.value.0, r.value.1)
            && rows' == AdmitAll(w, rows, VisitedAll(w, items, MAX_DEPTH)))
    ensures Coherent(w, rows') && Total(rows') <= MAX_BYTES
  {
    hide RootsLoadable, Meaning, LoadOrderAll, Honest, Coherent, Total, RootsOf, SearchPath, VisitedAll, AdmitAll,
         AgreesWithOrder, RootMeanings, FoldRoots, FarthestFirst;
    var roots := SelectRoots(w, rows, ancestors, home);
    var sum := SumBytes(rows);
    var owner := new IncludeInventory(w, rows, MAX_BYTES - sum);
    var settings := LoadRoots(owner, roots);
    rows' := owner.rows;
    r := if settings.Some? then Some((owner.order, settings.value)) else None;
  }

  lemma FarthestAt(roots: seq<Path>, i: nat)
    requires i < |roots|
    ensures i < |FarthestFirst(roots)| && FarthestFirst(roots)[i] == Include(roots[|roots| - 1 - i], false)
  {
  }

  lemma FarthestLength(roots: seq<Path>)
    ensures |FarthestFirst(roots)| == |roots|
  {
  }
}
