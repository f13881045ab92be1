/**
 The documentation navigation graph: parent links are checked, turned into sorted child
 lists and walked depth first.
 */
module Navigation {
  import opened Wrappers
  import opened Sequences
  import opened Orders

  type Route = string

  datatype ContentPage = ContentPage(
    title: string,
    navigationTitle: Option<string>,
    route: Route,
    parent: Option<Route>,
    weight: Option<int>)

  datatype Page = Page(title: string, route: Route, parent: Option<Route>, weight: Option<int>, depth: nat)

  type Pages = map<Route, Page>

  datatype Graph = Graph(pages: Pages, children: map<Option<Route>, seq<Route>>, ordered: seq<Route>)

  datatype Error = DuplicateRoute | OwnParent | MissingParent | Cycle | SharedWeight | UnreachableCycle

  // ---------------------------------------------------------------- comparison

  function CompareWeight(a: Option<int>, b: Option<int>): Ordering {
    match (a, b)
    case (None, None) => Equal
    case (None, Some(_)) => Less
    case (Some(_), None) => Greater
    case (Some(x), Some(y)) => CompareInt(x, y)
  }

  /** `compare_pages`: weighted pages first, then by weight, title and route. */
  function ComparePages(a: Page, b: Page): Ordering {
    CompareInt(if a.weight.None? then 1 else 0, if b.weight.None? then 1 else 0)
      .Then(CompareWeight(a.weight, b.weight))
      .Then(CompareText(a.title, b.title))
      .Then(CompareText(a.route, b.route))
  }

  predicate PageAtMost(pages: Pages, a: Route, b: Route) {
    a in pages && b in pages && ComparePages(pages[a], pages[b]) != Greater
  }

  function AtMost(pages: Pages): (Route, Route) -> bool {
    (a, b) => PageAtMost(pages, a, b)
  }

  lemma ComparePagesTransitive(a: Page, b: Page, c: Page)
    requires ComparePages(a, b) != Greater && ComparePages(b, c) != Greater
    ensures ComparePages(a, c) != Greater
  {
    CompareTextLaws(a.title, b.title);
    CompareTextLaws(b.title, c.title);
    if CompareText(a.title, b.title) != Greater && CompareText(b.title, c.title) != Greater {
      CompareTextTransitive(a.title, b.title, c.title);
    }
    CompareTextLaws(a.route, b.route);
    CompareTextLaws(b.route, c.route);
    if CompareText(a.route, b.route) != Greater && CompareText(b.route, c.route) != Greater {
      CompareTextTransitive(a.route, b.route, c.route);
    }
  }

  /** The comparison is a total order on pages stored under their routes: no ties are left. */
  lemma {:induction false} PageOrder(pages: Pages, s: set<Route>)
    requires Keyed(pages) && s <= pages.Keys
    ensures TotalOn(AtMost(pages), s)
  {
    forall a, b | a in s && b in s
      ensures PageAtMost(pages, a, b) || PageAtMost(pages, b, a)
      ensures PageAtMost(pages, a, b) && PageAtMost(pages, b, a) ==> a == b
    {
      CompareTextLaws(pages[a].title, pages[b].title);
      CompareTextLaws(pages[a].route, pages[b].route);
    }
    forall a, b, c | a in s && b in s && c in s && PageAtMost(pages, a, b) && PageAtMost(pages, b, c)
      ensures PageAtMost(pages, a, c)
    {
      ComparePagesTransitive(pages[a], pages[b], pages[c]);
    }
  }

  // ---------------------------------------------------------------- the page map

  ghost predicate Keyed(pages: Pages) {
    forall route | route in pages :: pages[route].route == route
  }

  function Entry(page: ContentPage): Page {
    Page(if page.navigationTitle.Some? then page.navigationTitle.value else page.title,
         page.route, page.parent, page.weight, 0)
  }

  ghost predicate DistinctRoutes(pages: seq<ContentPage>) {
    forall i, j | 0 <= i < j < |pages| :: pages[i].route != pages[j].route
  }

  ghost function PagesOf(pages: seq<ContentPage>): Pages
    requires DistinctRoutes(pages)
  {
    map page | page in pages :: page.route := Entry(page)
  }

  ghost function Visible(pages: seq<ContentPage>, visible: ContentPage -> bool): seq<ContentPage> {
    if pages == [] then []
    else
      var init, last := pages[..|pages| - 1], pages[|pages| - 1];
      Visible(init, visible) + if visible(last) then [last] else []
  }

  method SelectVisible(pages: seq<ContentPage>, visible: ContentPage -> bool) returns (r: seq<ContentPage>)
    ensures r == Visible(pages, visible)
  {
    r := [];
    assert pages[..0] == [] && pages[..|pages|] == pages;
    for i := 0 to |pages|
      invariant r == Visible(pages[..i], visible)
    {
      assert pages[..i + 1][..i] == pages[..i];
      if visible(pages[i]) {
        r := r + [pages[i]];
      }
    }
  }

  lemma PagesOfSnoc(init: seq<ContentPage>, last: ContentPage)
    requires DistinctRoutes(init)
    ensures last.route in PagesOf(init) <==> !DistinctRoutes(init + [last])
    ensures DistinctRoutes(init + [last]) ==> PagesOf(init + [last]) == PagesOf(init)[last.route := Entry(last)]
  {
    var all := init + [last];
    assert all[|init|] == last && forall i | 0 <= i < |init| :: all[i] == init[i];
    if last.route in PagesOf(init) {
      var i :| 0 <= i < |init| && init[i].route == last.route;
      assert all[i].route == all[|init|].route;
    }
  }

  /** Inserts the visible pages under their routes, refusing a route that is already there. */
  method CollectPages(pages: seq<ContentPage>) returns (r: Result<Pages, Error>)
    ensures r == if DistinctRoutes(pages) then Success(PagesOf(pages)) else Failure(DuplicateRoute)
  {
    var byRoute: Pages := map[];
    assert pages[..0] == [] && pages[..|pages|] == pages;
    for i := 0 to |pages|
      invariant DistinctRoutes(pages[..i]) && byRoute == PagesOf(pages[..i])
    {
      assert pages[..i + 1] == pages[..i] + [pages[i]];
      PagesOfSnoc(pages[..i], pages[i]);
      if pages[i].route in byRoute {
        return Failure(DuplicateRoute);
      }
      byRoute := byRoute[pages[i].route := Entry(pages[i])];
    }
    r := Success(byRoute);
  }

  // ---------------------------------------------------------------- parent chains

  /** The parent of a route; a route without a page has none. */
  function Next(pages: Pages, route: Route): Option<Route> {
    if route in pages then pages[route].parent else None
  }

  /** Following parents from `cursor` runs out after exactly `n` routes. */
  ghost predicate EndsIn(pages: Pages, cursor: Option<Route>, n: nat)
    decreases n
  {
    if n == 0 then cursor.None? else cursor.Some? && EndsIn(pages, Next(pages, cursor.value), n - 1)
  }

  ghost predicate Grounded(pages: Pages, route: Route) {
    exists n: nat :: EndsIn(pages, Some(route), n)
  }

  /** The cursor after `k` steps upwards. */
  ghost function Up(pages: Pages, cursor: Option<Route>, k: nat): Option<Route>
    decreases k
  {
    if k == 0 || cursor.None? then cursor else Up(pages, Next(pages, cursor.value), k - 1)
  }

  lemma {:induction false} UpEnds(pages: Pages, cursor: Option<Route>, n: nat, k: nat)
    requires EndsIn(pages, cursor, n) && k <= n
    ensures EndsIn(pages, Up(pages, cursor, k), n - k)
    decreases n
  {
    if k > 0 {
      UpEnds(pages, Next(pages, cursor.value), n - 1, k - 1);
    }
  }

  lemma {:induction false} UpPastEnd(pages: Pages, cursor: Option<Route>, n: nat, k: nat)
    requires EndsIn(pages, cursor, n) && n <= k
    ensures Up(pages, cursor, k).None?
    decreases n
  {
    if n > 0 {
      UpPastEnd(pages, Next(pages, cursor.value), n - 1, k - 1);
    }
  }

  lemma {:induction false} EndsOnce(pages: Pages, cursor: Option<Route>, n: nat, k: nat)
    requires EndsIn(pages, cursor, n) && EndsIn(pages, cursor, k)
    ensures n == k
    decreases n
  {
    if n > 0 && k > 0 {
      EndsOnce(pages, Next(pages, cursor.value), n - 1, k - 1);
    }
  }

  lemma {:induction false} UpStep(pages: Pages, cursor: Option<Route>, k: nat)
    requires Up(pages, cursor, k).Some?
    ensures Up(pages, cursor, k + 1) == Next(pages, Up(pages, cursor, k).value)
    decreases k
  {
    if k > 0 {
      UpStep(pages, Next(pages, cursor.value), k - 1);
    }
  }

  /** A chain that visits a route twice never ends. */
  lemma RepeatNeverEnds(pages: Pages, cursor: Option<Route>, j: nat, k: nat)
    requires j < k && Up(pages, cursor, j) == Up(pages, cursor, k) && Up(pages, cursor, k).Some?
    ensures forall n: nat :: !EndsIn(pages, cursor, n)
  {
    if n: nat :| EndsIn(pages, cursor, n) {
      if n <= k {
        UpPastEnd(pages, cursor, n, k);
      } else {
        UpEnds(pages, cursor, n, j);
        UpEnds(pages, cursor, n, k);
        EndsOnce(pages, Up(pages, cursor, j), n - j, n - k);
      }
    }
  }

  ghost function Trail(pages: Pages, cursor: Option<Route>, k: nat): set<Route> {
    set j | 0 <= j < k && Up(pages, cursor, j).Some? :: Up(pages, cursor, j).value
  }

  /** `validate_parent_chain`: the set of seen routes grows inside a finite universe. */
  method ValidateParentChain(pages: Pages, route: Route) returns (ok: bool)
    ensures ok <==> Grounded(pages, route)
  {
    var seen := {route};
    var cursor := Next(pages, route);
    ghost var start, k := Some(route), 1;
    ghost var universe := pages.Keys + {route} + set r | r in pages && pages[r].parent.Some? :: pages[r].parent.value;
    assert Up(pages, start, 1) == cursor;
    assert seen == Trail(pages, start, 1) by {
      assert Up(pages, start, 0) == start;
    }
    while cursor.Some?
      invariant k >= 1 && Up(pages, start, k) == cursor
      invariant seen == Trail(pages, start, k) && seen <= universe
      invariant cursor.Some? ==> cursor.value in universe
      invariant cursor.None? ==> EndsIn(pages, start, k)
      invariant forall j | 0 <= j < k :: Up(pages, start, j).Some?
      decreases universe - seen
    {
      if cursor.value in seen {
        ghost var j :| 0 <= j < k && Up(pages, start, j) == cursor;
        RepeatNeverEnds(pages, start, j, k);
        return false;
      }
      UpStep(pages, start, k);
      seen := seen + {cursor.value};
      assert seen == Trail(pages, start, k + 1);
      cursor := Next(pages, cursor.value);
      k := k + 1;
      if cursor.None? {
        ReachedEnd(pages, start, k);
      }
    }
    if k == 1 {
      ReachedEnd(pages, start, k);
    }
    ok := true;
  }

  lemma {:induction false} ReachedEnd(pages: Pages, cursor: Option<Route>, k: nat)
    requires Up(pages, cursor, k).None?
    requires forall j | 0 <= j < k :: Up(pages, cursor, j).Some?
    ensures EndsIn(pages, cursor, k)
    decreases k
  {
    if k > 0 {
      assert Up(pages, cursor, 0).Some?;
      var next := Next(pages, cursor.value);
      forall j | 0 <= j < k - 1
        ensures Up(pages, next, j).Some?
      {
        assert Up(pages, cursor, j + 1).Some?;
      }
      ReachedEnd(pages, next, k - 1);
    }
  }

  // ---------------------------------------------------------------- page checks

  /** The order in which a sorted map is iterated. */
  ghost function InOrder(keys: set<Route>): seq<Route> {
    TextOrder();
    Arranged(TextAtMost, keys)
  }

  lemma InOrderElements(keys: set<Route>)
    ensures Elements(InOrder(keys)) == keys && Distinct(InOrder(keys))
  {
    TextOrder();
    var xs := Arranged(TextAtMost, keys);
    assert forall x :: x in xs <==> x in keys;
  }

  method KeysInOrder(keys: set<Route>) returns (xs: seq<Route>)
    ensures xs == InOrder(keys)
  {
    var loose: seq<Route> := [];
    var rest := keys;
    while rest != {}
      invariant rest <= keys && Distinct(loose) && Elements(loose) == keys - rest
    {
      var key :| key in rest;
      assert key !in Elements(loose);
      ElementsConcat(loose, [key]);
      assert Elements([key]) == {key};
      loose := loose + [key];
      rest := rest - {key};
    }
    assert keys - {} == keys;
    TextOrder();
    xs := Sort(loose, TextAtMost);
  }

  /** The first check a page fails: its own parent, a missing parent, or an endless chain. */
  ghost function PageError(pages: Pages, route: Route): Option<Error>
    requires route in pages
  {
    if pages[route].parent == Some(route) then Some(OwnParent)
    else if pages[route].parent.Some? && pages[route].parent.value !in pages then Some(MissingParent)
    else if !Grounded(pages, route) then Some(Cycle)
    else None
  }

  ghost predicate KeysIn(pages: Pages, routes: seq<Route>) {
    forall i | 0 <= i < |routes| :: routes[i] in pages
  }

  /** The first error among the routes from position `i` on. */
  ghost function FirstError(pages: Pages, routes: seq<Route>, i: nat): Option<Error>
    requires KeysIn(pages, routes)
    decreases |routes| - i
  {
    if i >= |routes| then None
    else if PageError(pages, routes[i]).Some? then PageError(pages, routes[i])
    else FirstError(pages, routes, i + 1)
  }

  ghost predicate Forest(pages: Pages) {
    && Keyed(pages)
    && (forall route | route in pages && pages[route].parent.Some? :: pages[route].parent.value in pages)
    && (forall route | route in pages :: Grounded(pages, route))
  }

  lemma {:induction false} FirstErrorNone(pages: Pages, routes: seq<Route>, n: nat)
    requires KeysIn(pages, routes) && n <= |routes|
    ensures FirstError(pages, routes, n).None? <==>
            forall i | n <= i < |routes| :: PageError(pages, routes[i]).None?
    decreases |routes| - n
  {
    if n < |routes| {
      FirstErrorNone(pages, routes, n + 1);
    }
  }

  lemma GroundedParent(pages: Pages, route: Route)
    requires route in pages && pages[route].parent == Some(route)
    ensures !Grounded(pages, route)
  {
    assert Up(pages, Some(route), 0) == Some(route);
    UpStep(pages, Some(route), 0);
    RepeatNeverEnds(pages, Some(route), 0, 1);
  }

  lemma InOrderInside(pages: Pages)
    ensures KeysIn(pages, InOrder(pages.Keys))
    ensures forall route | route in pages :: exists i ::
        0 <= i < |InOrder(pages.Keys)| && InOrder(pages.Keys)[i] == route
  {
    var routes := InOrder(pages.Keys);
    InOrderElements(pages.Keys);
    hide InOrder;
    assert forall i | 0 <= i < |routes| :: routes[i] in Elements(routes);
    assert forall route | route in pages :: route in Elements(routes);
  }

  lemma NoErrorAnywhere(pages: Pages)
    requires Keyed(pages)
    ensures Forest(pages) <==> forall route | route in pages :: PageError(pages, route).None?
  {
    forall route | route in pages && pages[route].parent == Some(route)
      ensures !Grounded(pages, route)
    {
      GroundedParent(pages, route);
    }
    hide Grounded, Keyed;
    if Forest(pages) {
      assert forall route | route in pages :: PageError(pages, route).None?;
    }
    if forall route | route in pages :: PageError(pages, route).None? {
      forall route | route in pages
        ensures Grounded(pages, route)
        ensures pages[route].parent.Some? ==> pages[route].parent.value in pages
      {
        assert PageError(pages, route).None?;
      }
    }
  }

  /** The checks accept exactly the forests, whatever the shape of the input. */
  lemma ChecksAcceptForests(pages: Pages)
    requires Keyed(pages)
    ensures KeysIn(pages, InOrder(pages.Keys))
    ensures FirstError(pages, InOrder(pages.Keys), 0).None? <==> Forest(pages)
  {
    InOrderInside(pages);
    NoErrorAnywhere(pages);
    hide InOrder, Forest, PageError, Keyed;
    FirstErrorNone(pages, InOrder(pages.Keys), 0);
  }

  method CheckPages(pages: Pages) returns (r: Option<Error>)
    requires Keyed(pages)
    ensures KeysIn(pages, InOrder(pages.Keys)) && r == FirstError(pages, InOrder(pages.Keys), 0)
  {
    var routes := KeysInOrder(pages.Keys);
    InOrderInside(pages);
    hide InOrder, Grounded;
    for i := 0 to |routes|
      invariant FirstError(pages, routes, 0) == FirstError(pages, routes, i)
    {
      var page := pages[routes[i]];
      if page.parent == Some(page.route) {
        return Some(OwnParent);
      }
      if page.parent.Some? && page.parent.value !in pages {
        return Some(MissingParent);
      }
      var ok := ValidateParentChain(pages, page.route);
      if !ok {
        return Some(Cycle);
      }
    }
    r := None;
  }

  // ---------------------------------------------------------------- depth

  /** The number of proper ancestors. */
  ghost function Depth(pages: Pages, route: Route): nat
    requires Grounded(pages, route)
  {
    var n: nat :| EndsIn(pages, Some(route), n);
    n - 1
  }

  lemma DepthEnds(pages: Pages, route: Route, n: nat)
    requires Grounded(pages, route)
    ensures EndsIn(pages, Some(route), n) <==> n == Depth(pages, route) + 1
  {
    var m: nat :| EndsIn(pages, Some(route), m) && Depth(pages, route) == m - 1;
    if EndsIn(pages, Some(route), n) {
      EndsOnce(pages, Some(route), n, m);
    }
  }

  lemma DepthOfChild(pages: Pages, route: Route)
    requires Forest(pages) && route in pages
    ensures pages[route].parent.None? ==> Depth(pages, route) == 0
    ensures pages[route].parent.Some? ==> Depth(pages, route) == Depth(pages, pages[route].parent.value) + 1
  {
    var n := Depth(pages, route) + 1;
    DepthEnds(pages, route, n);
    if pages[route].parent.Some? {
      DepthEnds(pages, pages[route].parent.value, n - 1);
    } else {
      assert EndsIn(pages, None, n - 1);
    }
  }

  lemma {:induction false} ChainInside(pages: Pages, route: Route, k: nat)
    requires Forest(pages) && route in pages && k <= Depth(pages, route)
    ensures Up(pages, Some(route), k).Some? && Up(pages, Some(route), k).value in pages
  {
    if k > 0 {
      ChainInside(pages, route, k - 1);
      UpStep(pages, Some(route), k - 1);
      DepthEnds(pages, route, Depth(pages, route) + 1);
      UpEnds(pages, Some(route), Depth(pages, route) + 1, k);
    }
  }

  /** Chains have no repetition, so a depth is less than the number of pages. */
  lemma DepthBounded(pages: Pages, route: Route)
    requires Forest(pages) && route in pages
    ensures Depth(pages, route) < |pages|
  {
    var d := Depth(pages, route);
    forall k: nat | k <= d
      ensures Up(pages, Some(route), k).Some? && Up(pages, Some(route), k).value in pages
    {
      ChainInside(pages, route, k);
    }
    var chain := seq(d + 1, k requires 0 <= k <= d => Up(pages, Some(route), k).value);
    forall j, k | 0 <= j < k < |chain|
      ensures chain[j] != chain[k]
    {
      if chain[j] == chain[k] {
        DepthEnds(pages, route, d + 1);
        RepeatNeverEnds(pages, Some(route), j, k);
      }
    }
    DistinctSize(chain);
    SubsetSize(Elements(chain), pages.Keys);
  }

  // ---------------------------------------------------------------- child lists

  ghost function ChildSet(pages: Pages, parent: Option<Route>): set<Route> {
    set route | route in pages && pages[route].parent == parent
  }

  /** The children of a parent, in comparison order. */
  ghost function Siblings(pages: Pages, parent: Option<Route>): seq<Route>
    requires Keyed(pages)
  {
    PageOrder(pages, ChildSet(pages, parent));
    Arranged(AtMost(pages), ChildSet(pages, parent))
  }

  lemma SiblingsAre(pages: Pages, parent: Option<Route>)
    requires Keyed(pages)
    ensures Elements(Siblings(pages, parent)) == ChildSet(pages, parent)
    ensures Distinct(Siblings(pages, parent)) && Ascending(AtMost(pages), Siblings(pages, parent))
  {
    PageOrder(pages, ChildSet(pages, parent));
    var xs := Arranged(AtMost(pages), ChildSet(pages, parent));
    assert forall x :: x in xs <==> x in ChildSet(pages, parent);
  }

  ghost function Parents(pages: Pages): set<Option<Route>> {
    set route | route in pages :: pages[route].parent
  }

  ghost function ChildrenOf(pages: Pages): map<Option<Route>, seq<Route>>
    requires Keyed(pages)
  {
    map parent | parent in Parents(pages) :: Siblings(pages, parent)
  }

  ghost predicate ShareWeight(pages: Pages, a: Route, b: Route) {
    && a in pages && b in pages && a != b
    && pages[a].parent == pages[b].parent
    && pages[a].weight.Some? && pages[a].weight == pages[b].weight
  }

  ghost predicate SomeShareWeight(pages: Pages) {
    exists a, b :: ShareWeight(pages, a, b)
  }

  /** Those of the first `n` routes that have this parent, in the same order. */
  ghost function Group(pages: Pages, routes: seq<Route>, n: nat, parent: Option<Route>): seq<Route>
    requires n <= |routes| && KeysIn(pages, routes)
  {
    if n == 0 then []
    else if pages[routes[n - 1]].parent == parent then Group(pages, routes, n - 1, parent) + [routes[n - 1]]
    else Group(pages, routes, n - 1, parent)
  }

  lemma {:induction false} GroupElements(pages: Pages, routes: seq<Route>, n: nat, parent: Option<Route>)
    requires n <= |routes| && KeysIn(pages, routes) && Distinct(routes)
    ensures Distinct(Group(pages, routes, n, parent))
    ensures forall route :: route in Group(pages, routes, n, parent) <==>
              exists k :: 0 <= k < n && routes[k] == route && pages[route].parent == parent
  {
    if n > 0 {
      GroupElements(pages, routes, n - 1, parent);
    }
  }

  lemma GroupOfAll(pages: Pages, parent: Option<Route>)
    ensures var routes := InOrder(pages.Keys);
      && KeysIn(pages, routes)
      && Distinct(Group(pages, routes, |routes|, parent))
      && Elements(Group(pages, routes, |routes|, parent)) == ChildSet(pages, parent)
      && (Group(pages, routes, |routes|, parent) != [] <==> parent in Parents(pages))
  {
    var routes := InOrder(pages.Keys);
    InOrderInside(pages);
    InOrderElements(pages.Keys);
    hide InOrder;
    GroupElements(pages, routes, |routes|, parent);
    var group := Group(pages, routes, |routes|, parent);
    if group != [] {
      assert group[0] in group;
    }
    if parent in Parents(pages) {
      var route :| route in pages && pages[route].parent == parent;
      assert route in group;
    }
  }

  /** Groups the routes by parent, in route order. */
  method GroupByParent(pages: Pages) returns (children: map<Option<Route>, seq<Route>>)
    ensures children.Keys == Parents(pages)
    ensures forall parent | parent in children ::
              Distinct(children[parent]) && Elements(children[parent]) == ChildSet(pages, parent)
  {
    var routes := KeysInOrder(pages.Keys);
    InOrderInside(pages);
    hide InOrder, Elements, Distinct;
    children := map[];
    for i := 0 to |routes|
      invariant forall parent | parent in children :: children[parent] != []
      invariant forall parent ::
                  Group(pages, routes, i, parent) == if parent in children then children[parent] else []
    {
      var parent := pages[routes[i]].parent;
      var group := if parent in children then children[parent] else [];
      children := children[parent := group + [routes[i]]];
    }
    forall parent
      ensures parent in children <==> parent in Parents(pages)
      ensures parent in children ==> Distinct(children[parent]) && Elements(children[parent]) == ChildSet(pages, parent)
    {
      GroupOfAll(pages, parent);
    }
  }

  ghost predicate HasWeight(pages: Pages, routes: seq<Route>, n: nat, weight: int)
    requires n <= |routes| && KeysIn(pages, routes)
  {
    exists i :: 0 <= i < n && pages[routes[i]].weight == Some(weight)
  }

  /** `reject_duplicate_sibling_weights`. */
  method RejectDuplicateWeights(routes: seq<Route>, pages: Pages) returns (ok: bool)
    requires KeysIn(pages, routes)
    ensures ok <==> forall i, j | 0 <= i < j < |routes| ::
                      pages[routes[i]].weight.None? || pages[routes[i]].weight != pages[routes[j]].weight
  {
    var weights: set<int> := {};
    for n := 0 to |routes|
      invariant forall w :: w in weights <==> HasWeight(pages, routes, n, w)
      invariant forall i, j | 0 <= i < j < n ::
                  pages[routes[i]].weight.None? || pages[routes[i]].weight != pages[routes[j]].weight
    {
      var weight := pages[routes[n]].weight;
      if weight.Some? {
        if weight.value in weights {
          assert HasWeight(pages, routes, n, weight.value);
          return false;
        }
        forall i | 0 <= i < n
          ensures pages[routes[i]].weight != weight
        {
          assert !HasWeight(pages, routes, n, weight.value);
        }
        weights := weights + {weight.value};
      }
    }
    ok := true;
  }

  lemma GroupShares(pages: Pages, parent: Option<Route>, group: seq<Route>)
    requires Distinct(group) && Elements(group) == ChildSet(pages, parent)
    ensures KeysIn(pages, group)
    ensures (forall i, j | 0 <= i < j < |group| ::
               pages[group[i]].weight.None? || pages[group[i]].weight != pages[group[j]].weight) <==>
            !exists a, b :: ShareWeight(pages, a, b) && pages[a].parent == parent
  {
    assert forall i | 0 <= i < |group| :: group[i] in Elements(group);
    if a, b :| ShareWeight(pages, a, b) && pages[a].parent == parent {
      assert a in Elements(group) && b in Elements(group);
      var i :| 0 <= i < |group| && group[i] == a;
      var j :| 0 <= j < |group| && group[j] == b;
      assert i < j || j < i;
    }
    if i, j :| (0 <= i < j < |group| &&
                !(pages[group[i]].weight.None? || pages[group[i]].weight != pages[group[j]].weight)) {
      assert ShareWeight(pages, group[i], group[j]) && pages[group[i]].parent == parent;
    }
  }

  /** Checks and sorts one group of siblings. */
  method SortGroup(pages: Pages, parent: Option<Route>, group: seq<Route>) returns (r: Option<seq<Route>>)
    requires Keyed(pages) && Distinct(group) && Elements(group) == ChildSet(pages, parent)
    ensures r == if exists a, b :: ShareWeight(pages, a, b) && pages[a].parent == parent then None
                 else Some(Siblings(pages, parent))
  {
    hide ShareWeight;
    GroupShares(pages, parent, group);
    var ok := RejectDuplicateWeights(group, pages);
    if !ok {
      return None;
    }
    PageOrder(pages, ChildSet(pages, parent));
    var sorted := Sort(group, AtMost(pages));
    r := Some(sorted);
  }

  /** Checks and sorts every group of siblings. */
  method SortChildren(pages: Pages, groups: map<Option<Route>, seq<Route>>)
    returns (r: Result<map<Option<Route>, seq<Route>>, Error>)
    requires Keyed(pages) && groups.Keys == Parents(pages)
    requires forall parent | parent in groups ::
               Distinct(groups[parent]) && Elements(groups[parent]) == ChildSet(pages, parent)
    ensures r == if SomeShareWeight(pages) then Failure(SharedWeight) else Success(ChildrenOf(pages))
  {
    var children := groups;
    var pending := groups.Keys;
    while pending != {}
      invariant pending <= groups.Keys == children.Keys
      invariant forall parent | parent in pending :: children[parent] == groups[parent]
      invariant forall parent | parent in groups && parent !in pending :: children[parent] == Siblings(pages, parent)
      invariant forall a, b | ShareWeight(pages, a, b) :: pages[a].parent in pending
    {
      var parent :| parent in pending;
      var sorted := SortGroup(pages, parent, children[parent]);
      if sorted.None? {
        return Failure(SharedWeight);
      }
      children := children[parent := sorted.value];
      pending := pending - {parent};
    }
    assert children == ChildrenOf(pages);
    r := Success(children);
  }

  // ---------------------------------------------------------------- the depth-first walk

  ghost predicate AllAt(pages: Pages, routes: seq<Route>, depth: nat)
    requires Forest(pages)
  {
    forall i | 0 <= i < |routes| :: routes[i] in pages && Depth(pages, routes[i]) == depth
  }

  lemma SiblingsAt(pages: Pages, parent: Option<Route>)
    requires Forest(pages) && (parent.Some? ==> parent.value in pages)
    ensures AllAt(pages, Siblings(pages, parent), if parent.None? then 0 else Depth(pages, parent.value) + 1)
  {
    var siblings := Siblings(pages, parent);
    SiblingsAre(pages, parent);
    forall i | 0 <= i < |siblings|
      ensures siblings[i] in pages
      ensures Depth(pages, siblings[i]) == if parent.None? then 0 else Depth(pages, parent.value) + 1
    {
      assert siblings[i] in Elements(siblings);
      DepthOfChild(pages, siblings[i]);
    }
  }

  /** A page followed by the subtrees of its children. */
  ghost function Subtree(pages: Pages, route: Route, depth: nat): seq<Route>
    requires Forest(pages) && route in pages && Depth(pages, route) == depth
    decreases |pages| - depth, 0
  {
    DepthBounded(pages, route);
    SiblingsAt(pages, Some(route));
    var children := Siblings(pages, Some(route));
    [route] + Subtrees(pages, children, 0, |children|, depth + 1)
  }

  /** The subtrees of the routes at positions `lo` up hi `hi`, one after the other. */
  ghost function Subtrees(pages: Pages, routes: seq<Route>, lo: nat, hi: nat, depth: nat): seq<Route>
    requires Forest(pages) && AllAt(pages, routes, depth) && hi <= |routes|
    decreases |pages| - depth, hi + 1
  {
    if hi <= lo then []
    else
      DepthBounded(pages, routes[hi - 1]);
      Subtrees(pages, routes, lo, hi - 1, depth) + Subtree(pages, routes[hi - 1], depth)
  }

  /** All routes, in walking order. */
  ghost function Whole(pages: Pages): seq<Route>
    requires Forest(pages)
  {
    SiblingsAt(pages, None);
    Subtrees(pages, Siblings(pages, None), 0, |Siblings(pages, None)|, 0)
  }

  /** `route` lies in the subtree of `top`: walking up as far as the depths differ arrives there. */
  ghost predicate Under(pages: Pages, route: Route, top: Route)
    requires Forest(pages) && top in pages
  {
    && route in pages
    && Depth(pages, route) >= Depth(pages, top)
    && Up(pages, Some(route), Depth(pages, route) - Depth(pages, top)) == Some(top)
  }

  lemma UnderSplits(pages: Pages, route: Route, top: Route)
    requires Forest(pages) && top in pages
    ensures Under(pages, route, top) <==>
            route == top || exists child :: child in ChildSet(pages, Some(top)) && Under(pages, route, child)
  {
    if Under(pages, route, top) && route != top {
      var k := Depth(pages, route) - Depth(pages, top);
      assert k > 0;
      ChainInside(pages, route, k - 1);
      var child := Up(pages, Some(route), k - 1).value;
      UpStep(pages, Some(route), k - 1);
      DepthOfChild(pages, child);
      assert child in ChildSet(pages, Some(top)) && Under(pages, route, child);
    }
    if child :| child in ChildSet(pages, Some(top)) && Under(pages, route, child) {
      DepthOfChild(pages, child);
      var k := Depth(pages, route) - Depth(pages, child);
      UpStep(pages, Some(route), k);
    }
  }

  ghost predicate UnderSome(pages: Pages, route: Route, tops: seq<Route>, n: nat)
    requires Forest(pages) && KeysIn(pages, tops) && n <= |tops|
  {
    exists i :: 0 <= i < n && Under(pages, route, tops[i])
  }

  lemma SubtreeUnfolds(pages: Pages, route: Route)
    requires Forest(pages) && route in pages
    ensures AllAt(pages, Siblings(pages, Some(route)), Depth(pages, route) + 1)
    ensures Subtree(pages, route, Depth(pages, route)) ==
            [route] + Subtrees(pages, Siblings(pages, Some(route)), 0, |Siblings(pages, Some(route))|,
                Depth(pages, route) + 1)
  {
    SiblingsAt(pages, Some(route));
  }

  lemma NotUnderDeeper(pages: Pages, route: Route, tops: seq<Route>)
    requires Forest(pages) && route in pages && AllAt(pages, tops, Depth(pages, route) + 1)
    ensures KeysIn(pages, tops) && !UnderSome(pages, route, tops, |tops|)
  {
  }

  lemma {:induction false} SubtreeElements(pages: Pages, route: Route, depth: nat)
    requires Forest(pages) && route in pages && Depth(pages, route) == depth
    ensures forall x :: x in Elements(Subtree(pages, route, depth)) <==> Under(pages, x, route)
    ensures Distinct(Subtree(pages, route, depth))
    decreases |pages| - depth, 0
  {
    SiblingsAre(pages, Some(route));
    hide Subtree, Subtrees, Under, Siblings, Forest, Depth, Elements, AllAt, UnderSome, ChildSet, Distinct, Ascending;
    DepthBounded(pages, route);
    SubtreeUnfolds(pages, route);
    var children := Siblings(pages, Some(route));
    var below := Subtrees(pages, children, 0, |children|, depth + 1);
    SubtreesElements(pages, children, |children|, depth + 1);
    NotUnderDeeper(pages, route, children);
    UnderBelow(pages, route, children, below);
    OneBefore(route, below);
  }

  lemma OneBefore(route: Route, below: seq<Route>)
    requires Distinct(below) && route !in Elements(below)
    ensures Distinct([route] + below)
    ensures forall x :: x in Elements([route] + below) <==> x == route || x in Elements(below)
  {
    ElementsSingle(route);
    ElementsConcat([route], below);
    DistinctSplits([route], below);
    hide Elements, Distinct;
  }

  /** What lies under a route is the route and what its children's subtrees list. */
  lemma UnderBelow(pages: Pages, route: Route, children: seq<Route>, below: seq<Route>)
    requires Forest(pages) && route in pages && KeysIn(pages, children)
    requires Elements(children) == ChildSet(pages, Some(route))
    requires forall x :: x in Elements(below) <==> UnderSome(pages, x, children, |children|)
    ensures forall x :: Under(pages, x, route) <==> x == route || x in Elements(below)
  {
    hide Under, Forest, Elements, UnderSome, ChildSet;
    forall x
      ensures Under(pages, x, route) <==> x == route || x in Elements(below)
    {
      SomeChild(pages, x, children, route);
      UnderSplits(pages, x, route);
    }
  }

  lemma SomeChild(pages: Pages, x: Route, children: seq<Route>, route: Route)
    requires Forest(pages) && route in pages && KeysIn(pages, children)
    requires Elements(children) == ChildSet(pages, Some(route))
    ensures UnderSome(pages, x, children, |children|) <==>
            exists child :: child in ChildSet(pages, Some(route)) && Under(pages, x, child)
  {
    hide Under, Forest;
    if i :| 0 <= i < |children| && Under(pages, x, children[i]) {
      assert children[i] in Elements(children);
    }
    if child :| child in ChildSet(pages, Some(route)) && Under(pages, x, child) {
      assert child in Elements(children);
      var i :| 0 <= i < |children| && children[i] == child;
    }
  }

  lemma UnderSomeMore(pages: Pages, x: Route, tops: seq<Route>, n: nat)
    requires Forest(pages) && KeysIn(pages, tops) && n < |tops|
    ensures UnderSome(pages, x, tops, n + 1) <==> UnderSome(pages, x, tops, n) || Under(pages, x, tops[n])
  {
    hide Under, Forest;
  }

  lemma UnderAtMostOne(pages: Pages, x: Route, tops: seq<Route>, n: nat, depth: nat)
    requires Forest(pages) && AllAt(pages, tops, depth) && Distinct(tops) && n < |tops|
    ensures KeysIn(pages, tops) && !(UnderSome(pages, x, tops, n) && Under(pages, x, tops[n]))
  {
    hide Up, Grounded;
    forall i | 0 <= i < n && Under(pages, x, tops[i])
      ensures !Under(pages, x, tops[n])
    {
    }
  }

  lemma {:induction false} SubtreesElements(pages: Pages, routes: seq<Route>, n: nat, depth: nat)
    requires Forest(pages) && AllAt(pages, routes, depth) && Distinct(routes) && n <= |routes|
    ensures KeysIn(pages, routes)
    ensures forall x :: x in Elements(Subtrees(pages, routes, 0, n, depth)) <==> UnderSome(pages, x, routes, n)
    ensures Distinct(Subtrees(pages, routes, 0, n, depth))
    decreases |pages| - depth, n + 1
  {
    if n == 0 {
      assert forall x :: !UnderSome(pages, x, routes, 0);
    } else {
      DepthBounded(pages, routes[n - 1]);
      SubtreesElements(pages, routes, n - 1, depth);
      SubtreeElements(pages, routes[n - 1], depth);
      var before, block := Subtrees(pages, routes, 0, n - 1, depth), Subtree(pages, routes[n - 1], depth);
      hide Subtree, Under, Forest, Depth, Elements, UnderSome, Distinct;
      ElementsConcat(before, block);
      forall x
        ensures UnderSome(pages, x, routes, n) <==> UnderSome(pages, x, routes, n - 1) || Under(pages, x, routes[n - 1])
        ensures !(UnderSome(pages, x, routes, n - 1) && Under(pages, x, routes[n - 1]))
      {
        UnderSomeMore(pages, x, routes, n - 1);
        UnderAtMostOne(pages, x, routes, n - 1, depth);
      }
      DistinctSplits(before, block);
    }
  }

  lemma UnderRoot(pages: Pages, x: Route)
    requires Forest(pages) && x in pages
    ensures exists root :: root in ChildSet(pages, None) && Under(pages, x, root)
  {
    var d := Depth(pages, x);
    ChainInside(pages, x, d);
    var root := Up(pages, Some(x), d).value;
    DepthEnds(pages, x, d + 1);
    UpEnds(pages, Some(x), d + 1, d);
    assert pages[root].parent.None?;
    DepthOfChild(pages, root);
    assert root in ChildSet(pages, None) && Under(pages, x, root);
  }

  lemma UnderSomeRoot(pages: Pages, x: Route, roots: seq<Route>)
    requires Forest(pages) && KeysIn(pages, roots) && Elements(roots) == ChildSet(pages, None)
    ensures UnderSome(pages, x, roots, |roots|) <==> x in pages
  {
    if x in pages {
      UnderRoot(pages, x);
      hide Forest, Under;
      var root :| root in ChildSet(pages, None) && Under(pages, x, root);
      assert root in Elements(roots);
      var i :| 0 <= i < |roots| && roots[i] == root;
    }
  }

  lemma WholeUnfolds(pages: Pages)
    requires Forest(pages)
    ensures AllAt(pages, Siblings(pages, None), 0) && KeysIn(pages, Siblings(pages, None))
    ensures Whole(pages) == Subtrees(pages, Siblings(pages, None), 0, |Siblings(pages, None)|, 0)
  {
    SiblingsAt(pages, None);
  }

  /** The walk lists every page exactly once. */
  lemma {:induction false} WholeIsComplete(pages: Pages)
    requires Forest(pages)
    ensures Distinct(Whole(pages)) && Elements(Whole(pages)) == pages.Keys && |Whole(pages)| == |pages|
  {
    WholeUnfolds(pages);
    SiblingsAre(pages, None);
    hide Whole, Subtrees, Siblings, Forest, UnderSome, AllAt, Distinct, ChildSet;
    var roots := Siblings(pages, None);
    SubtreesElements(pages, roots, |roots|, 0);
    forall x
      ensures x in Elements(Whole(pages)) <==> x in pages
    {
      UnderSomeRoot(pages, x, roots);
    }
    DistinctSize(Whole(pages));
    SameElements(Whole(pages), pages);
  }

  lemma SameElements(routes: seq<Route>, pages: Pages)
    requires forall x :: x in Elements(routes) <==> x in pages
    ensures Elements(routes) == pages.Keys && |Elements(routes)| == |pages|
  {
    hide Elements;
    assert Elements(routes) == pages.Keys;
  }

  // ---------------------------------------------------------------- order of the walk

  /** A subtree is one contiguous block of any list of subtrees that contains its top. */
  lemma {:induction false} SubtreesBlock(pages: Pages, routes: seq<Route>, lo: nat, hi: nat, depth: nat, i: nat)
    requires Forest(pages) && AllAt(pages, routes, depth) && lo <= i < hi <= |routes|
    ensures Subtrees(pages, routes, lo, hi, depth) ==
            Subtrees(pages, routes, lo, i, depth) + Subtree(pages, routes[i], depth) +
            Subtrees(pages, routes, i + 1, hi, depth)
    decreases hi
  {
    hide Subtree, Depth, Forest;
    var last := Subtree(pages, routes[hi - 1], depth);
    if i < hi - 1 {
      SubtreesBlock(pages, routes, lo, hi - 1, depth, i);
      var a, b := Subtrees(pages, routes, lo, i, depth), Subtree(pages, routes[i], depth);
      var c := Subtrees(pages, routes, i + 1, hi - 1, depth);
      assert (a + b + c) + last == a + b + (c + last);
    }
  }

  ghost predicate BlockOf(whole: seq<Route>, block: seq<Route>, at: nat) {
    at + |block| <= |whole| && whole[at..at + |block|] == block
  }

  lemma BlockInside(outer: seq<Route>, before: seq<Route>, block: seq<Route>, after: seq<Route>, whole: seq<Route>,
      at: nat)
    requires outer == before + block + after && BlockOf(whole, outer, at)
    ensures BlockOf(whole, block, at + |before|)
  {
    forall k | 0 <= k < |block|
      ensures whole[at + |before| + k] == block[k]
    {
      assert outer[|before| + k] == whole[at..at + |outer|][|before| + k];
    }
  }

  /** The subtrees of a page's siblings, itself included, in the order of the walk. */
  ghost function Family(pages: Pages, parent: Option<Route>): seq<Route>
    requires Forest(pages) && (parent.Some? ==> parent.value in pages)
  {
    SiblingsAt(pages, parent);
    var siblings := Siblings(pages, parent);
    Subtrees(pages, siblings, 0, |siblings|, if parent.None? then 0 else Depth(pages, parent.value) + 1)
  }

  lemma FamilyBlock(pages: Pages, route: Route)
    requires Forest(pages) && route in pages
    ensures exists before, after ::
              Family(pages, pages[route].parent) == before + Subtree(pages, route, Depth(pages, route)) + after
  {
    var parent := pages[route].parent;
    SiblingsAt(pages, parent);
    SiblingsAre(pages, parent);
    DepthOfChild(pages, route);
    var siblings := Siblings(pages, parent);
    assert route in Elements(siblings);
    var i :| 0 <= i < |siblings| && siblings[i] == route;
    SubtreesBlock(pages, siblings, 0, |siblings|, Depth(pages, route), i);
  }

  /** The whole walk, and every subtree below its head, is one family. */
  lemma FamilyPlace(pages: Pages, parent: Option<Route>)
    requires Forest(pages) && (parent.Some? ==> parent.value in pages)
    ensures parent.None? ==> BlockOf(Whole(pages), Family(pages, parent), 0)
    ensures parent.Some? ==>
              Subtree(pages, parent.value, Depth(pages, parent.value)) == [parent.value] + Family(pages, parent)
  {
    if parent.Some? {
      SubtreeUnfolds(pages, parent.value);
    } else {
      assert Whole(pages)[0..|Whole(pages)|] == Whole(pages);
    }
  }

  /** In the built navigation every subtree is contiguous and starts with its own page. */
  lemma {:induction false} SubtreeContiguous(pages: Pages, route: Route)
    requires Forest(pages) && route in pages
    ensures exists at :: BlockOf(Whole(pages), Subtree(pages, route, Depth(pages, route)), at)
    decreases Depth(pages, route)
  {
    var parent := pages[route].parent;
    DepthOfChild(pages, route);
    FamilyBlock(pages, route);
    var block := Subtree(pages, route, Depth(pages, route));
    var before, after :| Family(pages, parent) == before + block + after;
    var at := FamilyAt(pages, parent);
    BlockInside(Family(pages, parent), before, block, after, Whole(pages), at);
  }

  lemma {:induction false} FamilyAt(pages: Pages, parent: Option<Route>) returns (at: nat)
    requires Forest(pages) && (parent.Some? ==> parent.value in pages)
    ensures BlockOf(Whole(pages), Family(pages, parent), at)
    decreases (if parent.None? then 0 else Depth(pages, parent.value) + 1)
  {
    hide Subtree, Family, Whole, Depth;
    FamilyPlace(pages, parent);
    if parent.None? {
      at := 0;
    } else {
      var top := parent.value;
      var outer := Subtree(pages, top, Depth(pages, top));
      DepthOfChild(pages, top);
      FamilyBlock(pages, top);
      var before, after :| Family(pages, pages[top].parent) == before + outer + after;
      var place := FamilyAt(pages, pages[top].parent);
      BlockInside(Family(pages, pages[top].parent), before, outer, after, Whole(pages), place);
      assert outer == [top] + Family(pages, parent) + [];
      BlockInside(outer, [top], Family(pages, parent), [], Whole(pages), place + |before|);
      at := place + |before| + 1;
    }
  }

  /** `a` stands before `b`. */
  ghost predicate Precedes(xs: seq<Route>, a: Route, b: Route) {
    exists i, j :: 0 <= i < j < |xs| && xs[i] == a && xs[j] == b
  }

  lemma BlockPrecedes(whole: seq<Route>, block: seq<Route>, at: nat, i: nat, j: nat)
    requires BlockOf(whole, block, at) && i < j < |block|
    ensures Precedes(whole, block[i], block[j])
  {
    assert whole[at..at + |block|][i] == whole[at + i] && whole[at..at + |block|][j] == whole[at + j];
  }

  lemma SubtreeHead(pages: Pages, route: Route, depth: nat)
    requires Forest(pages) && route in pages && Depth(pages, route) == depth
    ensures |Subtree(pages, route, depth)| > 0 && Subtree(pages, route, depth)[0] == route
  {
  }

  /** Every parent stands before its children. */
  lemma {:induction false} ParentPrecedesChild(pages: Pages, child: Route)
    requires Forest(pages) && child in pages && pages[child].parent.Some?
    ensures Precedes(Whole(pages), pages[child].parent.value, child)
  {
    var parent := pages[child].parent.value;
    SubtreeContiguous(pages, parent);
    var block := Subtree(pages, parent, Depth(pages, parent));
    var at :| BlockOf(Whole(pages), block, at);
    SubtreeHead(pages, parent, Depth(pages, parent));
    SubtreeElements(pages, parent, Depth(pages, parent));
    SubtreeElements(pages, child, Depth(pages, child));
    SubtreeHead(pages, child, Depth(pages, child));
    DepthOfChild(pages, child);
    assert Under(pages, child, child);
    UnderSplits(pages, child, parent);
    assert child in Elements(block);
    var j :| 0 <= j < |block| && block[j] == child;
    assert child != parent;
    BlockPrecedes(Whole(pages), block, at, 0, j);
  }

  /** Where two siblings stand among the subtrees of all of them. */
  lemma SiblingPlaces(pages: Pages, routes: seq<Route>, depth: nat, i: nat, j: nat)
    requires Forest(pages) && AllAt(pages, routes, depth) && i < j < |routes|
    ensures
      var all := Subtrees(pages, routes, 0, |routes|, depth);
      var p, q := |Subtrees(pages, routes, 0, i, depth)|, |Subtrees(pages, routes, 0, j, depth)|;
      p < q < |all| && all[p] == routes[i] && all[q] == routes[j]
  {
    hide Depth, Forest, Subtree, Subtrees;
    SubtreesBlock(pages, routes, 0, |routes|, depth, j);
    SubtreesBlock(pages, routes, 0, j, depth, i);
    SubtreeHead(pages, routes[i], depth);
    SubtreeHead(pages, routes[j], depth);
    hide AllAt;
    var before := Subtrees(pages, routes, 0, j, depth);
    assert before[|Subtrees(pages, routes, 0, i, depth)|] == routes[i];
  }

  /** Siblings stand in comparison order, each followed by its whole subtree before the next. */
  lemma {:induction false} SiblingsInOrder(pages: Pages, parent: Option<Route>, i: nat, j: nat)
    requires Forest(pages) && (parent.Some? ==> parent.value in pages)
    requires i < j < |Siblings(pages, parent)|
    ensures PageAtMost(pages, Siblings(pages, parent)[i], Siblings(pages, parent)[j])
    ensures Precedes(Whole(pages), Siblings(pages, parent)[i], Siblings(pages, parent)[j])
  {
    var siblings := Siblings(pages, parent);
    SiblingsAt(pages, parent);
    SiblingsAre(pages, parent);
    var depth := if parent.None? then 0 else Depth(pages, parent.value) + 1;
    assert AtMost(pages)(siblings[i], siblings[j]);
    var all := Family(pages, parent);
    var p, q := |Subtrees(pages, siblings, 0, i, depth)|, |Subtrees(pages, siblings, 0, j, depth)|;
    assert all == Subtrees(pages, siblings, 0, |siblings|, depth);
    var at := FamilyAt(pages, parent);
    hide Siblings, Family, Whole, Elements, Ascending, AtMost;
    SiblingPlaces(pages, siblings, depth, i, j);
    hide Subtree, Subtrees, Depth, Forest, AllAt, Distinct;
    BlockPrecedes(Whole(pages), all, at, p, q);
  }

  // ---------------------------------------------------------------- building

  /** `current` with the true depth written into the listed pages. */
  ghost function Deepened(pages: Pages, current: Pages, routes: seq<Route>): Pages
    requires Forest(pages) && current.Keys == pages.Keys
  {
    map route | route in current ::
      if route in routes then current[route].(depth := Depth(pages, route)) else current[route]
  }

  lemma DeepenedTwice(pages: Pages, current: Pages, a: seq<Route>, b: seq<Route>)
    requires Forest(pages) && current.Keys == pages.Keys
    ensures Deepened(pages, Deepened(pages, current, a), b) == Deepened(pages, current, a + b)
  {
    hide Forest, Depth;
  }

  lemma DeepenedOne(pages: Pages, current: Pages, route: Route)
    requires Forest(pages) && current.Keys == pages.Keys && route in pages
    ensures Deepened(pages, current, [route]) == current[route := current[route].(depth := Depth(pages, route))]
    ensures Deepened(pages, current, []) == current
  {
    hide Forest, Depth;
  }

  /** `collect_ordered_routes`: numbers and lists one subtree, depth first. */
  method CollectOrderedRoutes(route: Route, depth: nat, children: map<Option<Route>, seq<Route>>,
                              current: Pages, ordered: seq<Route>, ghost pages: Pages)
    returns (current': Pages, ordered': seq<Route>)
    requires Forest(pages) && children == ChildrenOf(pages) && current.Keys == pages.Keys
    requires route in pages && Depth(pages, route) == depth
    ensures ordered' == ordered + Subtree(pages, route, depth)
    ensures current'.Keys == pages.Keys && current' == Deepened(pages, current, Subtree(pages, route, depth))
    decreases |pages| - depth, 0
  {
    hide Subtree, Subtrees, Forest, Depth, AllAt, Deepened, Siblings, ChildrenOf;
    var nested := if Some(route) in children then children[Some(route)] else [];
    var head := current[route := current[route].(depth := depth)];
    Nested(pages, children, route, nested);
    ghost var below := Subtrees(pages, nested, 0, |nested|, depth + 1);
    HeadDeepened(pages, current, route, below, head);
    current', ordered' := CollectList(nested, depth + 1, children, head, ordered + [route], pages);
    assert ordered + ([route] + below) == (ordered + [route]) + below;
  }

  /** The page itself and then the subtrees of its children make up its subtree. */
  lemma Nested(pages: Pages, children: map<Option<Route>, seq<Route>>, route: Route, nested: seq<Route>)
    requires Forest(pages) && children == ChildrenOf(pages) && route in pages
    requires nested == if Some(route) in children then children[Some(route)] else []
    ensures Depth(pages, route) < |pages| && AllAt(pages, nested, Depth(pages, route) + 1)
    ensures Subtree(pages, route, Depth(pages, route)) ==
            [route] + Subtrees(pages, nested, 0, |nested|, Depth(pages, route) + 1)
  {
    NoChildren(pages, route);
    hide Subtree, Depth, Siblings, Subtrees, AllAt, ChildrenOf, Forest;
    DepthBounded(pages, route);
    SubtreeUnfolds(pages, route);
  }

  lemma HeadDeepened(pages: Pages, current: Pages, route: Route, below: seq<Route>, head: Pages)
    requires Forest(pages) && current.Keys == pages.Keys && route in pages
    requires head == current[route := current[route].(depth := Depth(pages, route))]
    ensures head.Keys == pages.Keys
    ensures Deepened(pages, current, [route] + below) == Deepened(pages, head, below)
  {
    hide Forest, Depth, Deepened;
    DeepenedOne(pages, current, route);
    DeepenedTwice(pages, current, [route], below);
    assert head.Keys == pages.Keys;
  }

  lemma NoChildren(pages: Pages, route: Route)
    requires Forest(pages) && route in pages
    ensures Some(route) in ChildrenOf(pages) ==> ChildrenOf(pages)[Some(route)] == Siblings(pages, Some(route))
    ensures Some(route) !in ChildrenOf(pages) ==> Siblings(pages, Some(route)) == []
  {
    SiblingsAre(pages, Some(route));
    var siblings := Siblings(pages, Some(route));
    if siblings != [] {
      assert siblings[0] in Elements(siblings);
    }
  }

  /** The loop over siblings. */
  method CollectList(routes: seq<Route>, depth: nat, children: map<Option<Route>, seq<Route>>,
                     current: Pages, ordered: seq<Route>, ghost pages: Pages)
    returns (current': Pages, ordered': seq<Route>)
    requires Forest(pages) && children == ChildrenOf(pages) && current.Keys == pages.Keys
    requires AllAt(pages, routes, depth)
    ensures ordered' == ordered + Subtrees(pages, routes, 0, |routes|, depth)
    ensures current'.Keys == pages.Keys &&
        current' == Deepened(pages, current, Subtrees(pages, routes, 0, |routes|, depth))
    decreases |pages| - depth, 1
  {
    hide Subtree, Forest, Depth, Deepened, ChildrenOf;
    current', ordered' := current, ordered;
    if routes == [] {
      DeepenedNothing(pages, current);
      return;
    }
    DepthBounded(pages, routes[0]);
    DeepenedNothing(pages, current);
    for i := 0 to |routes|
      invariant current'.Keys == pages.Keys
      invariant ordered' == ordered + Subtrees(pages, routes, 0, i, depth)
      invariant current' == Deepened(pages, current, Subtrees(pages, routes, 0, i, depth))
    {
      ghost var before, block := Subtrees(pages, routes, 0, i, depth), Subtree(pages, routes[i], depth);
      DeepenedTwice(pages, current, before, block);
      assert ordered + (before + block) == (ordered + before) + block;
      current', ordered' := CollectOrderedRoutes(routes[i], depth, children, current', ordered', pages);
    }
  }

  lemma DeepenedNothing(pages: Pages, current: Pages)
    requires Forest(pages) && current.Keys == pages.Keys
    ensures Deepened(pages, current, []) == current
  {
  }

  /** The graph built from a forest: true depths, sorted children, depth-first order. */
  ghost function GraphOf(pages: Pages): Graph
    requires Forest(pages)
  {
    Graph(map route | route in pages :: pages[route].(depth := Depth(pages, route)), ChildrenOf(pages), Whole(pages))
  }

  /** What the builder answers for a collection of visible pages. */
  ghost function Answer(visible: seq<ContentPage>): Result<Graph, Error> {
    if !DistinctRoutes(visible) then Failure(DuplicateRoute)
    else
      var pages := PagesOf(visible);
      InOrderInside(pages);
      ChecksAcceptForests(pages);
      var error := FirstError(pages, InOrder(pages.Keys), 0);
      if error.Some? then Failure(error.value)
      else if SomeShareWeight(pages) then Failure(SharedWeight)
      else Success(GraphOf(pages))
  }

  lemma RootsOfGraph(pages: Pages)
    requires Forest(pages)
    ensures AllAt(pages, if None in ChildrenOf(pages) then ChildrenOf(pages)[None] else [], 0)
    ensures Siblings(pages, None) == if None in ChildrenOf(pages) then ChildrenOf(pages)[None] else []
  {
    SiblingsAt(pages, None);
    SiblingsAre(pages, None);
    var siblings := Siblings(pages, None);
    if siblings != [] {
      assert siblings[0] in Elements(siblings);
    }
  }

  lemma WholeDeepened(pages: Pages)
    requires Forest(pages)
    ensures Deepened(pages, pages, Whole(pages)) == GraphOf(pages).pages
  {
    WholeIsComplete(pages);
    hide Whole, Forest, Depth;
    forall route | route in pages
      ensures route in Whole(pages)
    {
      assert route in Elements(Whole(pages));
    }
  }

  /** Child lists and the walk, for pages that passed the checks; the count always agrees. */
  method Arrange(byRoute: Pages) returns (r: Result<Graph, Error>)
    requires Forest(byRoute)
    ensures r == if SomeShareWeight(byRoute) then Failure(SharedWeight) else Success(GraphOf(byRoute))
  {
    var groups := GroupByParent(byRoute);
    var sorted := SortChildren(byRoute, groups);
    if sorted.Failure? {
      return Failure(sorted.error);
    }
    var children := sorted.value;
    RootsOfGraph(byRoute);
    WholeUnfolds(byRoute);
    WholeIsComplete(byRoute);
    WholeDeepened(byRoute);
    hide Whole, Subtrees, Forest, Deepened, Siblings, AllAt, ChildrenOf, SomeShareWeight, Elements, Distinct;
    var roots := if None in children then children[None] else [];
    var current, ordered := CollectList(roots, 0, children, byRoute, [], byRoute);
    assert [] + Whole(byRoute) == Whole(byRoute);
    if |ordered| != |byRoute| {
      return Failure(UnreachableCycle);
    }
    r := Success(Graph(current, children, ordered));
  }

  /** `build_navigation`: the final count never disagrees, so `UnreachableCycle` is never answered. */
  method BuildNavigation(pages: seq<ContentPage>, visible: ContentPage -> bool) returns (r: Result<Graph, Error>)
    ensures r == Answer(Visible(pages, visible))
    ensures r != Failure(UnreachableCycle)
  {
    var selected := SelectVisible(pages, visible);
    var collected := CollectPages(selected);
    if collected.Failure? {
      return Failure(collected.error);
    }
    var byRoute := collected.value;
    var error := CheckPages(byRoute);
    ChecksAcceptForests(byRoute);
    if error.Some? {
      CheckErrors(byRoute, InOrder(byRoute.Keys), 0);
      return Failure(error.value);
    }
    r := Arrange(byRoute);
  }

  lemma {:induction false} CheckErrors(pages: Pages, routes: seq<Route>, i: nat)
    requires KeysIn(pages, routes)
    ensures FirstError(pages, routes, i) != Some(UnreachableCycle)
    decreases |routes| - i
  {
    if i < |routes| {
      CheckErrors(pages, routes, i + 1);
    }
  }

  /** The builder accepts exactly the distinct forests without shared sibling weights. */
  lemma AnswerAccepts(visible: seq<ContentPage>)
    ensures Answer(visible).Success? <==>
            DistinctRoutes(visible) && Forest(PagesOf(visible)) && !SomeShareWeight(PagesOf(visible))
    ensures Answer(visible).Success? ==>
              var graph := Answer(visible).value;
              Distinct(graph.ordered) && Elements(graph.ordered) == graph.pages.Keys == PagesOf(visible).Keys
  {
    if DistinctRoutes(visible) {
      ChecksAcceptForests(PagesOf(visible));
      if Forest(PagesOf(visible)) {
        WholeIsComplete(PagesOf(visible));
      }
    }
  }

  /** A parent cycle anywhere makes the build fail. */
  lemma CycleFails(visible: seq<ContentPage>, route: Route, k: nat)
    requires DistinctRoutes(visible) && route in PagesOf(visible)
    requires k > 0 && Up(PagesOf(visible), Some(route), k) == Some(route)
    ensures Answer(visible).Failure?
  {
    RepeatNeverEnds(PagesOf(visible), Some(route), 0, k);
    assert !Grounded(PagesOf(visible), route);
    AnswerAccepts(visible);
  }

  // ---------------------------------------------------------------- input order does not matter

  lemma {:induction false} VisibleCount(pages: seq<ContentPage>, visible: ContentPage -> bool, page: ContentPage)
    ensures multiset(Visible(pages, visible))[page] == if visible(page) then multiset(pages)[page] else 0
  {
    if pages != [] {
      var init, last := pages[..|pages| - 1], pages[|pages| - 1];
      assert pages == init + [last];
      VisibleCount(init, visible, page);
    }
  }

  lemma TwiceCounted(pages: seq<ContentPage>, i: nat, j: nat)
    requires i < j < |pages| && pages[i] == pages[j]
    ensures multiset(pages)[pages[i]] >= 2
  {
    assert pages == pages[..j] + [pages[j]] + pages[j + 1..];
    assert pages[..j] == pages[..i] + [pages[i]] + pages[i + 1..j];
  }

  lemma {:induction false} OnceCounted(pages: seq<ContentPage>, page: ContentPage)
    requires DistinctRoutes(pages)
    ensures multiset(pages)[page] <= 1
  {
    if pages != [] {
      var init, last := pages[..|pages| - 1], pages[|pages| - 1];
      assert pages == init + [last];
      OnceCounted(init, page);
      assert last !in init;
    }
  }

  lemma DistinctPermutes(a: seq<ContentPage>, b: seq<ContentPage>)
    requires multiset(a) == multiset(b) && DistinctRoutes(a)
    ensures DistinctRoutes(b)
  {
    forall i, j | 0 <= i < j < |b|
      ensures b[i].route != b[j].route
    {
      if b[i] == b[j] {
        TwiceCounted(b, i, j);
        OnceCounted(a, b[i]);
      } else {
        assert b[i] in multiset(a) && b[j] in multiset(a);
        var x :| 0 <= x < |a| && a[x] == b[i];
        var y :| 0 <= y < |a| && a[y] == b[j];
      }
    }
  }

  /** The answer depends on the pages only, never on the order they come in. */
  lemma {:induction false} OrderDoesNotMatter(a: seq<ContentPage>, b: seq<ContentPage>, visible: ContentPage -> bool)
    requires multiset(a) == multiset(b)
    ensures Answer(Visible(a, visible)) == Answer(Visible(b, visible))
  {
    var x, y := Visible(a, visible), Visible(b, visible);
    forall page
      ensures multiset(x)[page] == multiset(y)[page]
    {
      VisibleCount(a, visible, page);
      VisibleCount(b, visible, page);
    }
    assert multiset(x) == multiset(y);
    hide Visible, PagesOf, DistinctRoutes, InOrder, SomeShareWeight, FirstError, GraphOf;
    if DistinctRoutes(x) {
      DistinctPermutes(x, y);
      SamePages(x, y);
    } else if DistinctRoutes(y) {
      DistinctPermutes(y, x);
    }
  }

  lemma SamePages(x: seq<ContentPage>, y: seq<ContentPage>)
    requires multiset(x) == multiset(y) && DistinctRoutes(x) && DistinctRoutes(y)
    ensures PagesOf(x) == PagesOf(y)
  {
    forall page
      ensures page in x <==> page in y
    {
      assert page in x <==> page in multiset(x);
      assert page in y <==> page in multiset(y);
    }
  }

  // ---------------------------------------------------------------- ancestors

  /** `ancestor_routes`: follows parents to the root and returns exactly the proper ancestors. */
  method AncestorRoutes(pages: Pages, route: Route) returns (ancestors: set<Route>)
    requires Forest(pages) && route in pages
    ensures forall x :: x in ancestors <==> x != route && x in pages && Under(pages, route, x)
    ensures |ancestors| == Depth(pages, route)
  {
    ancestors := {};
    var cursor := pages[route].parent;
    ghost var k := 1;
    ghost var d := Depth(pages, route);
    ghost var trail: seq<Route> := [];
    DepthEnds(pages, route, d + 1);
    assert Up(pages, Some(route), 1) == cursor by {
      UpStep(pages, Some(route), 0);
    }
    UpEnds(pages, Some(route), d + 1, 1);
    while cursor.Some?
      invariant 1 <= k <= d + 1 && Up(pages, Some(route), k) == cursor && EndsIn(pages, cursor, d + 1 - k)
      invariant |trail| == k - 1 && (forall i | 0 <= i < |trail| :: Up(pages, Some(route), i + 1) == Some(trail[i]))
      invariant ancestors == Elements(trail)
      decreases d + 1 - k
    {
      ChainInside(pages, route, k);
      UpStep(pages, Some(route), k);
      ElementsConcat(trail, [cursor.value]);
      ElementsSingle(cursor.value);
      UpEnds(pages, Some(route), d + 1, k + 1);
      ancestors := ancestors + {cursor.value};
      trail := trail + [cursor.value];
      cursor := pages[cursor.value].parent;
      k := k + 1;
    }
    AncestorsAreTrail(pages, route, trail);
    DistinctSize(trail);
  }

  lemma AncestorsAreTrail(pages: Pages, route: Route, trail: seq<Route>)
    requires Forest(pages) && route in pages && |trail| == Depth(pages, route)
    requires forall i | 0 <= i < |trail| :: Up(pages, Some(route), i + 1) == Some(trail[i])
    ensures Distinct(trail)
    ensures forall x :: x in Elements(trail) <==> x != route && x in pages && Under(pages, route, x)
  {
    var d := Depth(pages, route);
    DepthEnds(pages, route, d + 1);
    forall i, j | 0 <= i < j < |trail|
      ensures trail[i] != trail[j]
    {
      if trail[i] == trail[j] {
        RepeatNeverEnds(pages, Some(route), i + 1, j + 1);
      }
    }
    forall i | 0 <= i < |trail|
      ensures trail[i] in pages && Depth(pages, trail[i]) == d - i - 1
    {
      ChainInside(pages, route, i + 1);
      UpEnds(pages, Some(route), d + 1, i + 1);
      DepthEnds(pages, trail[i], d - i);
    }
    forall x
      ensures x in Elements(trail) <==> x != route && x in pages && Under(pages, route, x)
    {
      if x != route && x in pages && Under(pages, route, x) {
        var k := d - Depth(pages, x);
        assert k > 0;
        assert trail[k - 1] == x;
      }
    }
  }

  /** The depth written into the graph is the number of proper ancestors. */
  lemma DepthCountsAncestors(pages: Pages, route: Route, ancestors: set<Route>)
    requires Forest(pages) && route in pages
    requires forall x :: x in ancestors <==> x != route && x in pages && Under(pages, route, x)
    ensures GraphOf(pages).pages[route].depth == |ancestors|
  {
    var d := Depth(pages, route);
    forall k: nat | 1 <= k <= d
      ensures Up(pages, Some(route), k).Some?
    {
      ChainInside(pages, route, k);
    }
    var trail := seq(d, i requires 0 <= i < d => Up(pages, Some(route), i + 1).value);
    AncestorsAreTrail(pages, route, trail);
    hide Forest, Under, Depth;
    DistinctSize(trail);
    assert ancestors == Elements(trail);
  }
}
