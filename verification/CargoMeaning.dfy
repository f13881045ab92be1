/**
 What the discovery of configuration does with what is written in the files: which includes an array
 declares, in which order everything is loaded, and which file decides each value.
 */
module CargoMeaning {
  import opened Wrappers
  import Toml
  import opened Sequences
  import opened CargoToolSettings
  import opened CargoConfiguration
  import opened SettingValues

  // ---------------------------------------------------------------- declarations

  /** The text names `target`, seen from `path`: a `.toml` file without any character of a pattern. */
  ghost predicate Targets(w: World, path: Path, text: string, target: Path) {
    && w.tomlExtension(text) && w.resolve(path, text) == Some(target)
    && forall i | 0 <= i < |text| :: text[i] !in "*?[]{}"
  }

  /** A text declares a required include; a table its `path`, required unless its `optional` is true. */
  ghost predicate Declares(w: World, path: Path, item: Toml.Value, one: Include) {
    || (item.Text? && Targets(w, path, item.text, one.path) && !one.optional)
    || (&& item.Table? && "path" in item.entries && item.entries["path"].Text?
        && Targets(w, path, item.entries["path"].text, one.path)
        && if "optional" in item.entries then item.entries["optional"] == Toml.Boolean(one.optional)
           else !one.optional)
  }

  ghost predicate DeclaresAll(w: World, path: Path, items: seq<Toml.Value>, includes: seq<Include>) {
    |includes| == |items| && forall i | 0 <= i < |items| :: Declares(w, path, items[i], includes[i])
  }

  lemma DeclaresOne(w: World, path: Path, item: Toml.Value, one: Include)
    ensures Declares(w, path, item, one) <==> IncludeOf(w, path, item) == Some(one)
  {
    hide LiteralToml;
    match item
    case Text(text) => LiteralMeans(w, text);
    case Table(entries) =>
      if "path" in entries && entries["path"].Text? {
        LiteralMeans(w, entries["path"].text);
      }
    case _ =>
  }

  lemma LiteralMeans(w: World, text: string)
    ensures LiteralToml(w, text) <==> w.tomlExtension(text) && forall i | 0 <= i < |text| :: text[i] !in "*?[]{}"
  {
    assert forall c: char :: c in ['*', '?', '[', ']', '{', '}'] <==> c in "*?[]{}";
  }

  /** An include array is accepted exactly if every item declares something, and stands for that, item by item. */
  lemma {:induction false} IncludesDeclared(w: World, path: Path, items: seq<Toml.Value>, includes: seq<Include>)
    ensures IncludesOf(w, path, items) == Some(includes) <==> DeclaresAll(w, path, items, includes)
    decreases |items|
  {
    hide Declares, IncludeOf;
    if items != [] {
      if includes != [] {
        DeclaresOne(w, path, items[0], includes[0]);
        IncludesDeclared(w, path, items[1..], includes[1..]);
        assert includes == [includes[0]] + includes[1..];
        if DeclaresAll(w, path, items[1..], includes[1..]) && Declares(w, path, items[0], includes[0]) {
          forall i | 0 <= i < |items|
            ensures Declares(w, path, items[i], includes[i])
          {
            assert i > 0 ==> Declares(w, path, items[1..][i - 1], includes[1..][i - 1]);
          }
        }
      }
    }
  }

  /** What a whole document includes: at most 512 items of one array, or nothing without the key. */
  ghost predicate DeclaresIn(w: World, path: Path, document: Document, includes: seq<Include>) {
    if "include" !in document then includes == []
    else
      && document["include"].Array? && |document["include"].items| <= 512
      && DeclaresAll(w, path, document["include"].items, includes)
  }

  lemma DocumentIncludes(w: World, path: Path, document: Document, includes: seq<Include>)
    ensures IncludePaths(w, path, document) == Some(includes) <==> DeclaresIn(w, path, document, includes)
  {
    if "include" in document && document["include"].Array? {
      IncludesDeclared(w, path, document["include"].items, includes);
    }
    hide DeclaresAll, IncludesOf;
  }

  // ---------------------------------------------------------------- the load order

  /** `part` stands in `order` from position `at` on. */
  ghost predicate StandsAt(order: seq<Path>, part: seq<Path>, at: nat) {
    at + |part| <= |order| && order[at..at + |part|] == part
  }

  /** `first` stands in `order`, and behind its end `second` does. */
  ghost predicate InTurn(order: seq<Path>, first: seq<Path>, second: seq<Path>) {
    exists a: nat, b: nat :: StandsAt(order, first, a) && StandsAt(order, second, b) && a + |first| <= b
  }

  lemma {:induction false} PartStands(w: World, items: seq<Include>, fuel: nat, i: nat)
    requires i < |items|
    ensures StandsAt(LoadOrderAll(w, items, fuel), LoadOrder(w, items[i].path, fuel),
                     |LoadOrderAll(w, items[..i], fuel)|)
    decreases |items|
  {
    hide LoadOrder;
    var init := items[..|items| - 1];
    var before, last := LoadOrderAll(w, init, fuel), LoadOrder(w, items[|items| - 1].path, fuel);
    assert LoadOrderAll(w, items, fuel) == before + last;
    if i < |init| {
      PartStands(w, init, fuel, i);
      assert init[..i] == items[..i];
      var part, at := LoadOrder(w, items[i].path, fuel), |LoadOrderAll(w, items[..i], fuel)|;
      assert (before + last)[at..at + |part|] == before[at..at + |part|];
    }
  }

  lemma {:induction false} EarlierIsShorter(w: World, items: seq<Include>, fuel: nat, i: nat, j: nat)
    requires i < j <= |items|
    ensures |LoadOrderAll(w, items[..i], fuel)| + |LoadOrder(w, items[i].path, fuel)| <=
            |LoadOrderAll(w, items[..j], fuel)|
    decreases j
  {
    hide LoadOrder;
    assert items[..j][..j - 1] == items[..j - 1];
    if i < j - 1 {
      EarlierIsShorter(w, items, fuel, i, j - 1);
    }
  }

  /** What an earlier item of a list loads stands before what a later one loads. */
  lemma ItemsInTurn(w: World, items: seq<Include>, fuel: nat, i: nat, j: nat)
    requires i < j < |items|
    ensures InTurn(LoadOrderAll(w, items, fuel), LoadOrder(w, items[i].path, fuel), LoadOrder(w, items[j].path, fuel))
  {
    hide LoadOrderAll, LoadOrder;
    PartStands(w, items, fuel, i);
    PartStands(w, items, fuel, j);
    EarlierIsShorter(w, items, fuel, i, j);
  }

  ghost predicate LoadedBySome(w: World, items: seq<Include>, fuel: nat, x: Path) {
    exists i :: 0 <= i < |items| && x in LoadOrder(w, items[i].path, fuel)
  }

  lemma {:induction false} OnlyItems(w: World, items: seq<Include>, fuel: nat, x: Path)
    requires x in LoadOrderAll(w, items, fuel)
    ensures LoadedBySome(w, items, fuel, x)
    decreases |items|
  {
    hide LoadOrder;
    var init, last := items[..|items| - 1], items[|items| - 1];
    if x in LoadOrder(w, last.path, fuel) {
      assert items[|init|] == last;
    } else {
      OnlyItems(w, init, fuel, x);
      var i :| 0 <= i < |init| && x in LoadOrder(w, init[i].path, fuel);
      assert items[i] == init[i];
    }
  }

  /** What a well-formed file includes is what its document declares. */
  lemma FileIncludes(w: World, path: Path)
    requires WellFormed(w, path)
    ensures DeclaresIn(w, path, DocumentAt(w, path).value, Includes(w, path))
  {
    hide DeclaresIn, IncludePaths, DocumentOk;
    DocumentIncludes(w, path, DocumentAt(w, path).value, Includes(w, path));
  }

  /** Everything that an earlier item loads stands before everything that a later one loads. */
  ghost predicate AllInTurn(w: World, items: seq<Include>, fuel: nat, order: seq<Path>) {
    forall i, j | 0 <= i < j < |items| ::
      InTurn(order, LoadOrder(w, items[i].path, fuel), LoadOrder(w, items[j].path, fuel))
  }

  /** Nothing stands there that no item loads. */
  ghost predicate NothingElse(w: World, items: seq<Include>, fuel: nat, order: seq<Path>) {
    forall k | 0 <= k < |order| :: LoadedBySome(w, items, fuel, order[k])
  }

  lemma ItemsOrder(w: World, items: seq<Include>, fuel: nat)
    ensures AllInTurn(w, items, fuel, LoadOrderAll(w, items, fuel))
    ensures NothingElse(w, items, fuel, LoadOrderAll(w, items, fuel))
  {
    hide LoadOrder, LoadOrderAll, InTurn;
    var order := LoadOrderAll(w, items, fuel);
    forall i, j | 0 <= i < j < |items|
      ensures InTurn(order, LoadOrder(w, items[i].path, fuel), LoadOrder(w, items[j].path, fuel))
    {
      ItemsInTurn(w, items, fuel, i, j);
    }
    forall k | 0 <= k < |order|
      ensures LoadedBySome(w, items, fuel, order[k])
    {
      OnlyItems(w, items, fuel, order[k]);
    }
  }

  /** A file's load order: what its includes load, in the order of the includes, and then the file. */
  lemma FileOrder(w: World, path: Path, fuel: nat)
    requires fuel > 0 && WellFormed(w, path)
    ensures
      var items, order := Includes(w, path), LoadOrder(w, path, fuel);
      && order != [] && order[|order| - 1] == path
      && AllInTurn(w, items, fuel - 1, order[..|order| - 1])
      && NothingElse(w, items, fuel - 1, order[..|order| - 1])
  {
    hide LoadOrder, LoadOrderAll, Includes, WellFormed, AllInTurn, NothingElse;
    var items := Includes(w, path);
    var inner, order := LoadOrderAll(w, items, fuel - 1), LoadOrder(w, path, fuel);
    FileLast(w, path, fuel);
    assert order == inner + [path] && |order| == |inner| + 1;
    assert order[..|order| - 1] == inner && order[|order| - 1] == path;
    ItemsOrder(w, items, fuel - 1);
  }

  lemma FileLast(w: World, path: Path, fuel: nat)
    requires fuel > 0 && WellFormed(w, path)
    ensures LoadOrder(w, path, fuel) == LoadOrderAll(w, Includes(w, path), fuel - 1) + [path]
  {
    hide LoadOrderAll, Includes, WellFormed;
  }

  /** Roots are loaded whole, one after the other, and the nearest last. */
  lemma RootsOrder(w: World, roots: seq<Path>, near: nat, far: nat)
    requires near < far < |roots|
    ensures InTurn(LoadOrderAll(w, FarthestFirst(roots), MAX_DEPTH), LoadOrder(w, roots[far], MAX_DEPTH),
                   LoadOrder(w, roots[near], MAX_DEPTH))
  {
    hide LoadOrderAll, LoadOrder, InTurn;
    ItemsInTurn(w, FarthestFirst(roots), MAX_DEPTH, |roots| - 1 - far, |roots| - 1 - near);
  }

  // ---------------------------------------------------------------- which file decides a value

  lemma {:induction false} ErasedNode(setting: Setting, place: Place)
    ensures NodeAt(Erased(setting), place) == NodeAt(setting, place)
    decreases |place|
  {
    if setting.Table? && place != [] && place[0] in setting.entries {
      ErasedNode(setting.entries[place[0]], place[1..]);
    }
  }

  lemma ErasedEntry(entries: Entries, place: Place)
    ensures SettingValues.EntryAt(ErasedEntries(entries), place) == SettingValues.EntryAt(entries, place)
  {
    if place != [] && place[0] in entries {
      ErasedNode(entries[place[0]], place[1..]);
    }
  }

  lemma ErasedSetting(s: Settings, place: Place)
    ensures SettingAt(ErasedSettings(s), place) == SettingAt(s, place)
  {
    hide ErasedEntries, SettingValues.EntryAt;
    if place != [] {
      ErasedEntry(s.build, place[1..]);
      ErasedEntry(s.environment, place[1..]);
    }
  }

  /** What the file at `path` puts at a place. */
  ghost function Says(w: World, path: Path, place: Place): Option<Node> {
    if WellFormed(w, path) then Declared(DocumentAt(w, path).value, path, place) else None
  }

  lemma OwnSays(w: World, path: Path, place: Place)
    ensures SettingAt(Own(w, path), place) == Says(w, path, place)
  {
    if WellFormed(w, path) {
      OwnNode(DocumentAt(w, path).value, path, place);
    }
    hide Declared, OwnSettings, IncludePaths;
  }

  /** The `k`-th file of the order is the last that says anything about the place. */
  ghost predicate Decides(w: World, order: seq<Path>, place: Place, k: nat) {
    k < |order| && Says(w, order[k], place).Some? && forall j | k < j < |order| :: Says(w, order[j], place).None?
  }

  ghost predicate Silent(w: World, order: seq<Path>, place: Place) {
    forall k | 0 <= k < |order| :: Says(w, order[k], place).None?
  }

  /**
   Which file decides: settings that agree with a load order up to table origins hold, at every place,
   what the last file of the order that says anything about it says there, and nothing else.
   */
  lemma LastFileDecides(w: World, order: seq<Path>, settings: Settings, place: Place)
    requires Some(ErasedSettings(settings)) == ErasedOption(Meaning(w, order))
    ensures Silent(w, order, place) ==> SettingAt(settings, place).None?
    ensures forall k: nat | Decides(w, order, place, k) :: SettingAt(settings, place) == Says(w, order[k], place)
  {
    var files := OwnList(w, order);
    var folded := Fold(files).value;
    FoldLastWins(files, place);
    ErasedSetting(folded, place);
    ErasedSetting(settings, place);
    forall k | 0 <= k < |order|
      ensures SettingAt(files[k], place) == Says(w, order[k], place)
    {
      OwnSays(w, order[k], place);
    }
    hide Fold, SettingAt, Says, ErasedSettings, Own;
    if Silent(w, order, place) {
      assert NobodySets(files, place);
    }
    forall k: nat | Decides(w, order, place, k)
      ensures SettingAt(settings, place) == Says(w, order[k], place)
    {
      assert LastToSet(files, place, k);
    }
  }

  ghost predicate OrderMeets(w: World, order: seq<Path>) {
    forall i, j, place | 0 <= i < j < |order| :: Meets(Says(w, order[i], place), Says(w, order[j], place))
  }

  /** Files can be merged exactly if any two of them meet everywhere, and they know at most 4096 variables. */
  lemma MergesExactly(w: World, order: seq<Path>)
    ensures Meaning(w, order).Some? <==> OrderMeets(w, order) && |EnvironmentKeys(OwnList(w, order))| <= 4096
  {
    var files := OwnList(w, order);
    FoldSucceedsExactly(files);
    forall i, j | 0 <= i < j < |order|
      ensures Accepts(files[i], files[j]) <==>
              forall place :: Meets(Says(w, order[i], place), Says(w, order[j], place))
    {
      AcceptsExactly(files[i], files[j]);
      forall place
        ensures SettingAt(files[i], place) == Says(w, order[i], place)
        ensures SettingAt(files[j], place) == Says(w, order[j], place)
      {
        OwnSays(w, order[i], place);
        OwnSays(w, order[j], place);
      }
      hide Meets, Says, SettingAt, Accepts, Own;
    }
    hide Meets, Says, Accepts, EnvironmentKeys, Own, Fold;
    assert PairwiseCompatible(files) <==> OrderMeets(w, order);
  }

  // ---------------------------------------------------------------- which files a tree needs

  /** Following the `chain`-th includes from `item`, one after the other, leads to `target`. */
  ghost predicate Leads(w: World, item: Include, chain: seq<nat>, target: Include)
    decreases |chain|
  {
    if chain == [] then target == item
    else
      && WellFormed(w, item.path) && chain[0] < |Includes(w, item.path)|
      && Leads(w, Includes(w, item.path)[chain[0]], chain[1..], target)
  }

  /** A file that an include leads to is as it must be: readable, and well formed, or missing and optional. */
  ghost predicate Fulfilled(w: World, target: Include) {
    && w.disk(target.path).Some?
    && if w.disk(target.path).value.present then WellFormed(w, target.path) else target.optional
  }

  /** Every chain is shorter than `fuel` and leads to files as they must be. */
  ghost predicate AllFulfilled(w: World, item: Include, fuel: nat) {
    forall chain, target | Leads(w, item, chain, target) :: |chain| < fuel && Fulfilled(w, target)
  }

  ghost predicate IncludesFulfilled(w: World, item: Include, fuel: nat) {
    forall i | 0 <= i < |Includes(w, item.path)| :: AllFulfilled(w, Includes(w, item.path)[i], fuel)
  }

  lemma FulfilledDown(w: World, item: Include, fuel: nat)
    requires fuel > 0 && AllFulfilled(w, item, fuel)
    ensures Fulfilled(w, item) && (WellFormed(w, item.path) ==> IncludesFulfilled(w, item, fuel - 1))
  {
    hide Fulfilled, WellFormed, Includes;
    var here: seq<nat> := [];
    assert Leads(w, item, here, item);
    if WellFormed(w, item.path) {
      forall i: nat | i < |Includes(w, item.path)|
        ensures AllFulfilled(w, Includes(w, item.path)[i], fuel - 1)
      {
        var next := Includes(w, item.path)[i];
        forall chain, target | Leads(w, next, chain, target)
          ensures |chain| < fuel - 1 && Fulfilled(w, target)
        {
          var longer: seq<nat> := [i] + chain;
          assert longer[0] == i && longer[1..] == chain;
          assert Leads(w, item, longer, target);
        }
      }
    }
  }

  lemma FulfilledUp(w: World, item: Include, fuel: nat)
    requires fuel > 0 && Fulfilled(w, item) && (WellFormed(w, item.path) ==> IncludesFulfilled(w, item, fuel - 1))
    ensures AllFulfilled(w, item, fuel)
  {
    hide Fulfilled, WellFormed, Includes;
    forall chain, target | Leads(w, item, chain, target)
      ensures |chain| < fuel && Fulfilled(w, target)
    {
      if chain != [] {
        var next := Includes(w, item.path)[chain[0]];
        assert AllFulfilled(w, next, fuel - 1) && Leads(w, next, chain[1..], target);
      }
    }
  }

  /** A tree is accepted exactly if every file it leads to is as it must be, at no depth of `fuel` or more. */
  lemma {:induction false} AcceptedExactly(w: World, item: Include, fuel: nat)
    ensures Accepted(w, item, fuel) <==> AllFulfilled(w, item, fuel)
    decreases fuel
  {
    if fuel == 0 {
      var here: seq<nat> := [];
      assert Leads(w, item, here, item);
    } else {
      assert WellFormed(w, item.path) ==> Present(w, item.path);
      hide WellFormed, Includes, AllFulfilled;
      forall i | 0 <= i < |Includes(w, item.path)|
        ensures Accepted(w, Includes(w, item.path)[i], fuel - 1) <==>
                AllFulfilled(w, Includes(w, item.path)[i], fuel - 1)
      {
        AcceptedExactly(w, Includes(w, item.path)[i], fuel - 1);
      }
      assert AllAccepted(w, item.path, fuel - 1) <==> IncludesFulfilled(w, item, fuel - 1);
      if AllFulfilled(w, item, fuel) {
        FulfilledDown(w, item, fuel);
      }
      if Accepted(w, item, fuel) {
        assert Fulfilled(w, item);
        FulfilledUp(w, item, fuel);
      }
    }
  }

  /** A present file is well formed exactly if it parses, declares its includes, and has tables where it must. */
  lemma WellFormedExactly(w: World, path: Path)
    ensures WellFormed(w, path) <==>
            && w.disk(path).Some? && w.disk(path).value.present && w.parse(w.disk(path).value.contents).Some?
            && var document := w.parse(w.disk(path).value.contents).value;
            && (exists includes :: DeclaresIn(w, path, document, includes))
            && ("build" in document ==> document["build"].Table?)
            && ("env" in document ==> document["env"].Table? && |document["env"].entries| <= 4096)
  {
    if w.disk(path).Some? && w.disk(path).value.present && w.parse(w.disk(path).value.contents).Some? {
      var document := w.parse(w.disk(path).value.contents).value;
      forall includes
        ensures IncludePaths(w, path, document) == Some(includes) <==> DeclaresIn(w, path, document, includes)
      {
        DocumentIncludes(w, path, document, includes);
      }
      hide IncludePaths, DeclaresIn;
      if IncludePaths(w, path, document).Some? {
        assert IncludePaths(w, path, document) == Some(IncludePaths(w, path, document).value);
      }
    }
  }

  // ---------------------------------------------------------------- which roots are searched

  /** The path was observed, and found. */
  ghost predicate Found(rows: seq<Row>, path: Path) {
    exists row :: row in rows && row.path == path && row.present
  }

  lemma FoundIs(rows: seq<Row>, path: Path)
    ensures Found(rows, path) <==> PresentRow(rows, path)
  {
    if Found(rows, path) {
      var row :| row in rows && row.path == path && row.present;
      var i :| 0 <= i < |rows| && rows[i] == row;
    }
  }

  /** The directory offers `path`: its `config`, or its `config.toml` if it has no `config`. */
  ghost predicate Offers(w: World, rows: seq<Row>, directory: Path, path: Path) {
    && Found(rows, path)
    && (path == w.join(directory, "config") ||
        (path == w.join(directory, "config.toml") && !Found(rows, w.join(directory, "config"))))
  }

  /** The home directory is searched unless it is one of the ancestors, as written or resolved. */
  ghost predicate HomeApart(w: World, ancestors: seq<Path>, home: Path) {
    forall i | 0 <= i < |ancestors| ::
      w.canonical(ancestors[i]) != w.canonical(home) && w.canonical(ancestors[i]) != home
  }

  lemma OffersExactly(w: World, rows: seq<Row>, directory: Path, path: Path)
    ensures Selected(w, rows, directory) == Some(path) <==> Offers(w, rows, directory, path)
  {
    FoundIs(rows, w.join(directory, "config"));
    FoundIs(rows, w.join(directory, "config.toml"));
    hide Found, PresentRow;
  }

  lemma SearchExactly(w: World, ancestors: seq<Path>, home: Path)
    ensures SearchPath(w, ancestors, home) == if HomeApart(w, ancestors, home) then ancestors + [home] else ancestors
  {
    var known := set directory | directory in ancestors :: w.canonical(directory);
    assert forall i | 0 <= i < |ancestors| :: w.canonical(ancestors[i]) in known;
  }

  /** The roots are the offers of the searched directories, each once; nearer directories come first. */
  lemma RootsExactly(w: World, rows: seq<Row>, directories: seq<Path>)
    ensures
      var roots := RootsOf(w, rows, directories);
      && Distinct(roots)
      && (forall path :: path in roots <==>
            exists i :: 0 <= i < |directories| && Offers(w, rows, directories[i], path))
      && forall a, b | 0 <= a < b < |roots| :: OfferedSooner(w, rows, directories, roots[a], roots[b])
  {
    RootsOfExactly(w, rows, directories);
    forall i, path | 0 <= i < |directories|
      ensures Selected(w, rows, directories[i]) == Some(path) <==> Offers(w, rows, directories[i], path)
    {
      OffersExactly(w, rows, directories[i], path);
    }
    hide Selected, Offers, OfferedSooner, Distinct;
    forall a, b | 0 <= a < b < |RootsOf(w, rows, directories)|
      ensures OfferedSooner(w, rows, directories, RootsOf(w, rows, directories)[a], RootsOf(w, rows, directories)[b])
    {
      RootsInTurn(w, rows, directories, a, b);
    }
  }

  /** Some directory offers `near`, and neither it nor any directory before it offers `far`. */
  ghost predicate OfferedSooner(w: World, rows: seq<Row>, directories: seq<Path>, near: Path, far: Path) {
    exists i :: 0 <= i < |directories| && Offers(w, rows, directories[i], near) &&
                forall j | 0 <= j <= i :: !Offers(w, rows, directories[j], far)
  }

  lemma {:induction false} RootsInTurn(w: World, rows: seq<Row>, directories: seq<Path>, a: nat, b: nat)
    requires a < b < |RootsOf(w, rows, directories)|
    ensures OfferedSooner(w, rows, directories, RootsOf(w, rows, directories)[a], RootsOf(w, rows, directories)[b])
    decreases |directories|
  {
    hide Offers, Selected;
    var init, last := directories[..|directories| - 1], directories[|directories| - 1];
    assert directories == init + [last];
    var before, roots := RootsOf(w, rows, init), RootsOf(w, rows, directories);
    assert forall i | 0 <= i < |init| :: directories[i] == init[i];
    if b < |before| {
      RootsInTurn(w, rows, init, a, b);
      var i :| 0 <= i < |init| && Offers(w, rows, init[i], roots[a]) &&
               forall j | 0 <= j <= i :: !Offers(w, rows, init[j], roots[b]);
      assert Offers(w, rows, directories[i], roots[a]);
    } else {
      RootsOfExactly(w, rows, init);
      assert roots[a] == before[a] && roots[b] !in before;
      var i :| 0 <= i < |init| && Selected(w, rows, init[i]) == Some(roots[a]);
      OffersExactly(w, rows, init[i], roots[a]);
      assert Offers(w, rows, directories[i], roots[a]);
      forall j | 0 <= j < |init|
        ensures !Offers(w, rows, init[j], roots[b])
      {
        OffersExactly(w, rows, init[j], roots[b]);
      }
    }
  }

  // ---------------------------------------------------------------- budgets

  /** `all` is `rows` and then one row for each path looked at that was not there yet, as it is on disk. */
  ghost predicate Supplements(w: World, rows: seq<Row>, visited: seq<Path>, all: seq<Row>) {
    && rows <= all
    && (forall i | |rows| <= i < |all| :: all[i].path in visited && w.disk(all[i].path) == Some(all[i]))
    && (forall i, j | 0 <= i < j < |all| && j >= |rows| :: all[i].path != all[j].path)
    && forall k | 0 <= k < |visited| :: w.disk(visited[k]).Some? ==> Has(all, visited[k])
  }

  lemma {:induction false} AdmitSupplements(w: World, rows: seq<Row>, visited: seq<Path>)
    requires Honest(w)
    ensures Supplements(w, rows, visited, AdmitAll(w, rows, visited))
    decreases |visited|
  {
    if visited != [] {
      var init, last := visited[..|visited| - 1], visited[|visited| - 1];
      assert visited == init + [last];
      AdmitSupplements(w, rows, init);
      AdmitOne(w, rows, init, last, AdmitAll(w, rows, init));
    }
  }

  lemma AdmitOne(w: World, rows: seq<Row>, init: seq<Path>, last: Path, all: seq<Row>)
    requires Honest(w) && Supplements(w, rows, init, all)
    ensures Supplements(w, rows, init + [last], Admit(w, all, last))
  {
    var more := Admit(w, all, last);
    forall k | 0 <= k < |init + [last]|
      ensures w.disk((init + [last])[k]).Some? ==> Has(more, (init + [last])[k])
    {
      if k < |init| && w.disk(init[k]).Some? {
        var i :| 0 <= i < |all| && all[i].path == init[k];
        assert more[i] == all[i];
      } else if k == |init| && w.disk(last).Some? && !Has(all, last) {
        assert more[|all|].path == last;
      }
    }
  }

  /**
   At most 512 files are looked at, none of them too late; the rows stay at most 512 unless nothing new
   is added, and within 16 MiB.
   */
  ghost predicate WithinBudgets(w: World, rows: seq<Row>, visited: seq<Path>) {
    var all := AdmitAll(w, rows, visited);
    && |visited| <= 512 && (forall v | 0 <= v < |visited| :: !w.expired(v))
    && (forall i | 0 <= i < |visited| :: w.disk(visited[i]).Some?)
    && (|all| <= 512 || |all| == |rows|) && Total(all) <= 16 * 1024 * 1024
  }

  lemma RoomExactly(w: World, rows: seq<Row>, visited: seq<Path>)
    ensures Room(w, Walk(rows, 16 * 1024 * 1024 - Total(rows), 0, []), visited) <==> WithinBudgets(w, rows, visited)
  {
    hide AdmitAll, Total;
  }

  /** Everything the root leads to is as it must be, less than 64 deep, and no file is loaded twice for it. */
  ghost predicate RootFulfilled(w: World, root: Include) {
    AllFulfilled(w, root, 64) && Distinct(LoadOrder(w, root.path, 64))
  }

  lemma RootExactly(w: World, root: Include)
    ensures RootAccepted(w, root) <==> RootFulfilled(w, root)
  {
    AcceptedExactly(w, root, 64);
    hide Accepted, AllFulfilled, LoadOrder, Distinct;
    assert Elements(LoadOrder(w, root.path, 64)) !! {};
  }

  /** The whole discovery succeeds exactly if the roots are fulfilled, the budgets hold, and the files merge. */
  lemma DiscoverySucceedsExactly(w: World, rows: seq<Row>, items: seq<Include>)
    ensures
      var order := LoadOrderAll(w, items, 64);
      RootsLoadable(w, Walk(rows, 16 * 1024 * 1024 - Total(rows), 0, []), items) <==>
      && (forall i | 0 <= i < |items| :: RootFulfilled(w, items[i]))
      && WithinBudgets(w, rows, VisitedAll(w, items, 64))
      && OrderMeets(w, order) && |EnvironmentKeys(OwnList(w, order))| <= 4096
  {
    hide RootAccepted, RootFulfilled, Room, WithinBudgets, Meaning, OrderMeets, EnvironmentKeys, OwnList,
         LoadOrderAll, VisitedAll;
    MergesExactly(w, LoadOrderAll(w, items, 64));
    RoomExactly(w, rows, VisitedAll(w, items, 64));
    forall i | 0 <= i < |items|
      ensures RootAccepted(w, items[i]) <==> RootFulfilled(w, items[i])
    {
      RootExactly(w, items[i]);
    }
  }
}
