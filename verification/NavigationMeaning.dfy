/**
 What a built navigation says about the pages it was built from: titles and links, and the order of
 siblings told by weights and letters alone. And what a refusal says: which page is at fault.
 */
module NavigationMeaning {
  import opened Wrappers
  import opened Sequences
  import opened Orders
  import opened Navigation

  // ---------------------------------------------------------------- siblings

  /** The title a page is listed under. */
  function Shown(page: ContentPage): string {
    match page.navigationTitle
    case Some(title) => title
    case None => page.title
  }

  /** Weighted pages come first, light ones before heavy ones; the others by title, then by route. */
  ghost predicate ListedFirst(a: ContentPage, b: ContentPage) {
    match (a.weight, b.weight)
    case (Some(x), Some(y)) => x < y
    case (Some(_), None) => true
    case (None, Some(_)) => false
    case (None, None) => Sooner(Shown(a), Shown(b)) || (Shown(a) == Shown(b) && Sooner(a.route, b.route))
  }

  lemma ListedFirstCompares(a: ContentPage, b: ContentPage)
    requires a.route != b.route && (a.weight.None? || a.weight != b.weight)
    ensures ListedFirst(a, b) <==> ComparePages(Entry(a), Entry(b)) == Less
    ensures ComparePages(Entry(a), Entry(b)) != Equal
  {
    CompareTextMeans(Shown(a), Shown(b));
    CompareTextMeans(a.route, b.route);
    CompareTextLaws(Shown(a), Shown(b));
    CompareTextLaws(a.route, b.route);
    hide CompareText, Sooner;
  }

  lemma EntryAt(pages: seq<ContentPage>, page: ContentPage)
    requires DistinctRoutes(pages) && page in pages
    ensures page.route in PagesOf(pages) && PagesOf(pages)[page.route] == Entry(page)
  {
    forall other | other in pages && other.route == page.route
      ensures other == page
    {
      var i :| 0 <= i < |pages| && pages[i] == page;
      var j :| 0 <= j < |pages| && pages[j] == other;
    }
  }

  /** The listed order of two siblings is that of the walk. */
  lemma SiblingsListed(pages: seq<ContentPage>, a: ContentPage, b: ContentPage)
    requires DistinctRoutes(pages) && Forest(PagesOf(pages)) && !SomeShareWeight(PagesOf(pages))
    requires a in pages && b in pages && a.route != b.route && a.parent == b.parent
    ensures Precedes(Whole(PagesOf(pages)), a.route, b.route) || Precedes(Whole(PagesOf(pages)), b.route, a.route)
    ensures ListedFirst(a, b) ==> Precedes(Whole(PagesOf(pages)), a.route, b.route)
    ensures ListedFirst(a, b) || ListedFirst(b, a)
  {
    var all := PagesOf(pages);
    EntryAt(pages, a);
    EntryAt(pages, b);
    assert !ShareWeight(all, a.route, b.route);
    ListedFirstCompares(a, b);
    ListedFirstCompares(b, a);
    CompareBothWays(Entry(a), Entry(b));
    SiblingsAre(all, a.parent);
    var siblings := Siblings(all, a.parent);
    hide Siblings, Whole, ListedFirst, PagesOf, SomeShareWeight, ComparePages;
    assert a.route in Elements(siblings) && b.route in Elements(siblings);
    var i :| 0 <= i < |siblings| && siblings[i] == a.route;
    var j :| 0 <= j < |siblings| && siblings[j] == b.route;
    hide Ascending, Elements, Distinct, ChildSet;
    if i < j {
      SiblingsInOrder(all, a.parent, i, j);
    } else {
      SiblingsInOrder(all, a.parent, j, i);
    }
  }

  lemma CompareBothWays(a: Page, b: Page)
    ensures ComparePages(b, a) == Flip(ComparePages(a, b))
  {
    CompareTextLaws(a.title, b.title);
    CompareTextLaws(a.route, b.route);
  }

  lemma PrecedesOneWay(xs: seq<Route>, a: Route, b: Route)
    requires Distinct(xs) && Precedes(xs, a, b)
    ensures !Precedes(xs, b, a)
  {
  }

  // ---------------------------------------------------------------- the built graph

  /** A page of the graph shows what its source page says. */
  ghost predicate Shows(graph: Graph, page: ContentPage) {
    && page.route in graph.pages
    && var shown := graph.pages[page.route];
    && shown.title == Shown(page) && shown.route == page.route && shown.parent == page.parent
    && shown.weight == page.weight
  }

  /** The child lists are those of the pages: every list of one parent, each of its pages once, in listed order. */
  ghost predicate ListsChildren(graph: Graph, pages: seq<ContentPage>) {
    && (forall parent :: parent in graph.children <==> exists page :: page in pages && page.parent == parent)
    && (forall page | page in pages :: page.route in graph.children[page.parent])
    && (forall parent | parent in graph.children :: Distinct(graph.children[parent]))
    && (forall parent, route | parent in graph.children && route in graph.children[parent] ::
          exists page :: page in pages && page.route == route && page.parent == parent)
  }

  ghost predicate ShowsExactly(graph: Graph, pages: seq<ContentPage>) {
    && (forall page | page in pages :: Shows(graph, page))
    && forall route | route in graph.pages :: exists page :: page in pages && page.route == route
  }

  ghost predicate ParentsFirst(graph: Graph, pages: seq<ContentPage>) {
    forall page, parent | page in pages && page.parent == Some(parent) ::
      Precedes(graph.ordered, parent, page.route)
  }

  ghost predicate SiblingsOrdered(graph: Graph, pages: seq<ContentPage>) {
    forall a, b | a in pages && b in pages && a.route != b.route && a.parent == b.parent ::
      Precedes(graph.ordered, a.route, b.route) <==> ListedFirst(a, b)
  }

  /**
   A built navigation, said about the visible pages: it shows every one of them and nothing else, it lists
   every page once, parents before children, and siblings in the order of `ListedFirst` exactly.
   */
  lemma NavigationMeans(pages: seq<ContentPage>, graph: Graph)
    requires Answer(pages) == Success(graph)
    ensures ShowsExactly(graph, pages) && ListsChildren(graph, pages)
    ensures Distinct(graph.ordered) && Elements(graph.ordered) == graph.pages.Keys
    ensures ParentsFirst(graph, pages) && SiblingsOrdered(graph, pages)
  {
    AnswerAccepts(pages);
    hide Answer, SomeShareWeight, Forest, GraphOf, ShowsExactly, ListsChildren, ParentsFirst, SiblingsOrdered, PagesOf;
    AnswerIs(pages);
    ShownExactly(pages);
    ChildrenListed(pages);
    ParentsListed(pages);
    AllSiblingsListed(pages);
  }

  lemma AnswerIs(pages: seq<ContentPage>)
    requires Answer(pages).Success?
    ensures DistinctRoutes(pages) && Forest(PagesOf(pages)) && Answer(pages) == Success(GraphOf(PagesOf(pages)))
  {
    AnswerAccepts(pages);
    hide FirstError, GraphOf;
  }

  lemma RouteOf(pages: seq<ContentPage>, route: Route)
    requires DistinctRoutes(pages) && route in PagesOf(pages)
    ensures exists page :: page in pages && page.route == route && PagesOf(pages)[route] == Entry(page)
  {
  }

  lemma ShownExactly(pages: seq<ContentPage>)
    requires DistinctRoutes(pages) && Forest(PagesOf(pages))
    ensures ShowsExactly(GraphOf(PagesOf(pages)), pages)
  {
    forall page | page in pages
      ensures page.route in PagesOf(pages) && PagesOf(pages)[page.route] == Entry(page)
    {
      EntryAt(pages, page);
    }
    forall route | route in PagesOf(pages)
      ensures exists page :: page in pages && page.route == route
    {
      RouteOf(pages, route);
    }
    hide PagesOf, Forest, Whole, Depth, ChildrenOf;
  }

  lemma ParentsListed(pages: seq<ContentPage>)
    requires DistinctRoutes(pages) && Forest(PagesOf(pages))
    ensures ParentsFirst(GraphOf(PagesOf(pages)), pages)
  {
    hide PagesOf, Forest, Whole, Precedes, ChildrenOf;
    forall page, parent | page in pages && page.parent == Some(parent)
      ensures Precedes(GraphOf(PagesOf(pages)).ordered, parent, page.route)
    {
      EntryAt(pages, page);
      ParentPrecedesChild(PagesOf(pages), page.route);
    }
  }

  lemma AllSiblingsListed(pages: seq<ContentPage>)
    requires DistinctRoutes(pages) && Forest(PagesOf(pages)) && !SomeShareWeight(PagesOf(pages))
    ensures SiblingsOrdered(GraphOf(PagesOf(pages)), pages)
  {
    WholeIsComplete(PagesOf(pages));
    hide PagesOf, Forest, Whole, Precedes, ListedFirst, SomeShareWeight, Distinct, ChildrenOf;
    var ordered := GraphOf(PagesOf(pages)).ordered;
    forall a, b | a in pages && b in pages && a.route != b.route && a.parent == b.parent
      ensures Precedes(ordered, a.route, b.route) <==> ListedFirst(a, b)
    {
      SiblingsListed(pages, a, b);
      SiblingsListed(pages, b, a);
      if Precedes(ordered, a.route, b.route) {
        PrecedesOneWay(ordered, a.route, b.route);
      }
    }
  }

  lemma ChildIs(pages: seq<ContentPage>, parent: Option<Route>, route: Route)
    requires DistinctRoutes(pages)
    ensures route in ChildSet(PagesOf(pages), parent) <==>
            exists page :: page in pages && page.route == route && page.parent == parent
  {
    if route in ChildSet(PagesOf(pages), parent) {
      RouteOf(pages, route);
    }
    forall page | page in pages && page.route == route && page.parent == parent
      ensures route in ChildSet(PagesOf(pages), parent)
    {
      EntryAt(pages, page);
    }
  }

  lemma ParentIs(pages: seq<ContentPage>, parent: Option<Route>)
    requires DistinctRoutes(pages)
    ensures parent in Parents(PagesOf(pages)) <==> exists page :: page in pages && page.parent == parent
  {
    if parent in Parents(PagesOf(pages)) {
      var route :| route in PagesOf(pages) && PagesOf(pages)[route].parent == parent;
      RouteOf(pages, route);
    }
    forall page | page in pages && page.parent == parent
      ensures parent in Parents(PagesOf(pages))
    {
      EntryAt(pages, page);
    }
  }

  lemma ChildrenListed(pages: seq<ContentPage>)
    requires DistinctRoutes(pages) && Forest(PagesOf(pages))
    ensures ListsChildren(GraphOf(PagesOf(pages)), pages)
  {
    var all := PagesOf(pages);
    var children := ChildrenOf(all);
    hide PagesOf, Forest, Siblings, Whole, Depth, Distinct, ChildSet, Elements, Parents;
    assert GraphOf(all).children == children;
    forall parent
      ensures parent in children <==> exists page :: page in pages && page.parent == parent
    {
      ParentIs(pages, parent);
    }
    forall parent, route
      ensures route in Siblings(all, parent) <==>
              exists page :: page in pages && page.route == route && page.parent == parent
      ensures Distinct(Siblings(all, parent))
    {
      SiblingsAre(all, parent);
      InElements(Siblings(all, parent), route);
      ChildIs(pages, parent, route);
    }
  }

  lemma InElements(xs: seq<Route>, x: Route)
    ensures x in Elements(xs) <==> x in xs
  {
  }

  // ---------------------------------------------------------------- refusals

  ghost predicate HasPage(pages: seq<ContentPage>, route: Route) {
    exists page :: page in pages && page.route == route
  }

  /** Following parents never comes to an end. */
  ghost predicate Endless(pages: Pages, route: Route) {
    forall k: nat :: Up(pages, Some(route), k).Some?
  }

  /** What is wrong with the parent of one page, if anything. */
  ghost function Fault(pages: seq<ContentPage>, page: ContentPage): Option<Error>
    requires DistinctRoutes(pages)
  {
    match page.parent
    case None => None
    case Some(parent) =>
      if parent == page.route then Some(OwnParent)
      else if !HasPage(pages, parent) then Some(MissingParent)
      else if Endless(PagesOf(pages), page.route) then Some(Cycle)
      else None
  }

  /** No page with a smaller route is at fault. */
  ghost predicate FirstAtFault(pages: seq<ContentPage>, page: ContentPage, error: Error)
    requires DistinctRoutes(pages)
  {
    && page in pages && Fault(pages, page) == Some(error)
    && forall other | other in pages && Sooner(other.route, page.route) :: Fault(pages, other).None?
  }

  lemma GroundedMeans(pages: Pages, route: Route)
    ensures !Grounded(pages, route) <==> Endless(pages, route)
  {
    if Grounded(pages, route) {
      var n: nat :| EndsIn(pages, Some(route), n);
      UpPastEnd(pages, Some(route), n, n);
    } else {
      forall k: nat
        ensures Up(pages, Some(route), k).Some?
      {
        if Up(pages, Some(route), k).None? {
          var n := FirstEnd(pages, Some(route), k);
          ReachedEnd(pages, Some(route), n);
          assert false;
        }
      }
    }
  }

  lemma {:induction false} FirstEnd(pages: Pages, cursor: Option<Route>, k: nat) returns (n: nat)
    requires Up(pages, cursor, k).None?
    ensures Up(pages, cursor, n).None? && forall j: nat | j < n :: Up(pages, cursor, j).Some?
    decreases k
  {
    if forall j: nat | j < k :: Up(pages, cursor, j).Some? {
      n := k;
    } else {
      var j: nat :| j < k && Up(pages, cursor, j).None?;
      n := FirstEnd(pages, cursor, j);
    }
  }

  lemma FaultIs(pages: seq<ContentPage>, page: ContentPage)
    requires DistinctRoutes(pages) && page in pages
    ensures page.route in PagesOf(pages) && PageError(PagesOf(pages), page.route) == Fault(pages, page)
  {
    var all := PagesOf(pages);
    EntryAt(pages, page);
    GroundedMeans(all, page.route);
    assert all[page.route].parent == page.parent;
    if page.parent.None? {
      RootGrounded(all, page.route);
    } else {
      PageThere(pages, page.parent.value);
    }
    hide PagesOf, Grounded, HasPage, Endless;
  }

  lemma RootGrounded(pages: Pages, route: Route)
    requires route in pages && pages[route].parent.None?
    ensures Grounded(pages, route)
  {
    var n: nat := 1;
    assert EndsIn(pages, None, n - 1);
    assert EndsIn(pages, Some(route), n);
  }

  lemma PageThere(pages: seq<ContentPage>, route: Route)
    requires DistinctRoutes(pages)
    ensures HasPage(pages, route) <==> route in PagesOf(pages)
  {
    forall page | page in pages
      ensures page.route in PagesOf(pages)
    {
      EntryAt(pages, page);
    }
    if route in PagesOf(pages) {
      RouteOf(pages, route);
    }
  }

  lemma {:induction false} FirstErrorAt(pages: Pages, routes: seq<Route>, i: nat) returns (n: nat)
    requires KeysIn(pages, routes) && FirstError(pages, routes, i).Some?
    ensures i <= n < |routes| && PageError(pages, routes[n]) == FirstError(pages, routes, i)
    ensures forall j | i <= j < n :: PageError(pages, routes[j]).None?
    decreases |routes| - i
  {
    n := i;
    if PageError(pages, routes[i]).None? {
      n := FirstErrorAt(pages, routes, i + 1);
    }
  }

  lemma InOrderAscends(keys: set<Route>)
    ensures var xs := InOrder(keys);
      forall i, j | 0 <= i < |xs| && 0 <= j < |xs| && Sooner(xs[i], xs[j]) :: i < j
  {
    TextOrder();
    var xs := InOrder(keys);
    forall i, j | 0 <= i < |xs| && 0 <= j < |xs| && Sooner(xs[i], xs[j])
      ensures i < j
    {
      CompareTextMeans(xs[i], xs[j]);
      CompareTextLaws(xs[i], xs[j]);
      assert j < i ==> TextAtMost(xs[j], xs[i]);
    }
  }

  lemma FirstFault(pages: seq<ContentPage>, error: Error)
    requires DistinctRoutes(pages) && KeysIn(PagesOf(pages), InOrder(PagesOf(pages).Keys))
    requires FirstError(PagesOf(pages), InOrder(PagesOf(pages).Keys), 0) == Some(error)
    ensures exists page :: FirstAtFault(pages, page, error)
  {
    var all := PagesOf(pages);
    var routes := InOrder(all.Keys);
    InOrderAscends(all.Keys);
    InOrderInside(all);
    hide InOrder, PagesOf, Fault, Sooner, PageError;
    var n := FirstErrorAt(all, routes, 0);
    RouteOf(pages, routes[n]);
    var page :| page in pages && page.route == routes[n];
    FaultIs(pages, page);
    forall other | other in pages && Sooner(other.route, page.route)
      ensures Fault(pages, other).None?
    {
      FaultIs(pages, other);
      var i :| 0 <= i < |routes| && routes[i] == other.route;
      assert i < n;
    }
    assert FirstAtFault(pages, page, error);
  }

  ghost predicate TwoOfOneRoute(pages: seq<ContentPage>) {
    exists i, j :: 0 <= i < j < |pages| && pages[i].route == pages[j].route
  }

  ghost predicate SameWeight(a: ContentPage, b: ContentPage) {
    a.route != b.route && a.parent == b.parent && a.weight.Some? && a.weight == b.weight
  }

  /** Why a navigation is refused, said about the visible pages, one reason before the other. */
  lemma RefusalMeans(pages: seq<ContentPage>, error: Error)
    requires Answer(pages) == Failure(error)
    ensures error == DuplicateRoute <==> TwoOfOneRoute(pages)
    ensures error != DuplicateRoute && error != SharedWeight ==>
              DistinctRoutes(pages) && exists page :: FirstAtFault(pages, page, error)
    ensures error == SharedWeight ==>
              && DistinctRoutes(pages) && (forall page | page in pages :: Fault(pages, page).None?)
              && exists a, b :: a in pages && b in pages && SameWeight(a, b)
  {
    if DistinctRoutes(pages) {
      var all := PagesOf(pages);
      InOrderInside(all);
      ChecksAcceptForests(all);
      CheckErrors(all, InOrder(all.Keys), 0);
      var first := FirstError(all, InOrder(all.Keys), 0);
      assert first != Some(DuplicateRoute) && first != Some(SharedWeight) by {
        OtherErrors(all, InOrder(all.Keys), 0);
      }
      if first.Some? {
        FirstFault(pages, error);
      } else {
        assert SomeShareWeight(all);
        hide Answer, InOrder, FirstError, PagesOf, Fault;
        NoFaults(pages);
        SharingPages(pages);
      }
    }
  }

  lemma {:induction false} OtherErrors(pages: Pages, routes: seq<Route>, i: nat)
    requires KeysIn(pages, routes)
    ensures FirstError(pages, routes, i) != Some(DuplicateRoute) && FirstError(pages, routes, i) != Some(SharedWeight)
    decreases |routes| - i
  {
    if i < |routes| {
      OtherErrors(pages, routes, i + 1);
    }
  }

  lemma NoFaults(pages: seq<ContentPage>)
    requires DistinctRoutes(pages) && Forest(PagesOf(pages))
    ensures forall page | page in pages :: Fault(pages, page).None?
  {
    NoErrorAnywhere(PagesOf(pages));
    hide PagesOf, Forest, PageError, Fault;
    forall page | page in pages
      ensures Fault(pages, page).None?
    {
      FaultIs(pages, page);
    }
  }

  lemma SharingPages(pages: seq<ContentPage>)
    requires DistinctRoutes(pages) && SomeShareWeight(PagesOf(pages))
    ensures exists a, b :: a in pages && b in pages && SameWeight(a, b)
  {
    var all := PagesOf(pages);
    var x, y :| ShareWeight(all, x, y);
    RouteOf(pages, x);
    RouteOf(pages, y);
    hide PagesOf;
    var a :| a in pages && a.route == x && all[x] == Entry(a);
    var b :| b in pages && b.route == y && all[y] == Entry(b);
    assert SameWeight(a, b);
  }
}
