/**
 * The popular-galleries screen's reducer (`PopularReducer`) as a pure step
 * function: a single-shot fetch of one list, shown through a title filter.
 */
module Popular {
  import opened Wrappers
  import opened Text
  import opened Feature

  datatype Route = Filters | Detail(gid: string)

  /** The reducer's state, without the child screens' states. */
  datatype State = State(
    route: Option<Route>,
    keyword: string,
    galleries: seq<Gallery>,
    loadingState: LoadingState
  )

  function Initial(): (s: State)
    ensures s.route.None? && s.keyword == "" && s.galleries == [] && s.loadingState == Idle
  {
    State(None, "", [], Idle)
  }

  datatype Binding = RouteBinding(route: Option<Route>) | KeywordBinding(keyword: string)

  datatype Action =
    | Bind(binding: Binding)
    | SetNavigation(route: Option<Route>)
    | ClearSubStates
    | Teardown
    | FetchGalleries
    | FetchGalleriesDone(result: Result<seq<Gallery>>)
    | FiltersAction(child: ChildAction)
    | DetailAction(child: ChildAction)

  datatype Next = Next(state: State, effects: seq<Effect<Action>>)

  // ---------------------------------------------------------------------
  // filteredGalleries

  /** A gallery is shown for a keyword when its title contains it, ignoring case. */
  predicate Matches(g: Gallery, keyword: string) {
    ContainsIgnoringCase(g.title, keyword)
  }

  /** `filter` with the title test, keeping order and repetitions. */
  function FilterByTitle(galleries: seq<Gallery>, keyword: string): (r: seq<Gallery>)
    ensures |r| <= |galleries|
    decreases |galleries|
  {
    if |galleries| == 0 then []
    else
      var init, g := galleries[..|galleries| - 1], galleries[|galleries| - 1];
      FilterByTitle(init, keyword) + (if Matches(g, keyword) then [g] else [])
  }

  /** A gallery is in the filtered list exactly when it is listed and its title matches. */
  lemma {:induction false} FilterByTitleMembers(galleries: seq<Gallery>, keyword: string)
    ensures forall g :: g in FilterByTitle(galleries, keyword) <==> g in galleries && Matches(g, keyword)
    decreases |galleries|
  {
    if |galleries| > 0 {
      var init := galleries[..|galleries| - 1];
      FilterByTitleMembers(init, keyword);
      assert galleries == init + [galleries[|galleries| - 1]];
    }
  }

  /** Each matching gallery is kept as many times as it is listed; the others are dropped. */
  lemma {:induction false} FilterByTitleCounts(galleries: seq<Gallery>, keyword: string)
    ensures forall g ::
              multiset(FilterByTitle(galleries, keyword))[g] == (if Matches(g, keyword) then multiset(galleries)[g] else 0)
    decreases |galleries|
  {
    if |galleries| > 0 {
      var init, x := galleries[..|galleries| - 1], galleries[|galleries| - 1];
      var tail := if Matches(x, keyword) then [x] else [];
      FilterByTitleCounts(init, keyword);
      assert init + [x] == galleries;
      assert FilterByTitle(galleries, keyword) == FilterByTitle(init, keyword) + tail;
      assert multiset(galleries) == multiset(init) + multiset{x};
      assert multiset(FilterByTitle(galleries, keyword)) == multiset(FilterByTitle(init, keyword)) + multiset(tail);
    }
  }

  /** Filtering distributes over concatenation, so it is decided gallery by gallery. */
  lemma {:induction false} FilterByTitleAppend(a: seq<Gallery>, b: seq<Gallery>, keyword: string)
    ensures FilterByTitle(a + b, keyword) == FilterByTitle(a, keyword) + FilterByTitle(b, keyword)
    decreases |b|
  {
    if |b| == 0 {
      assert a + b == a;
    } else {
      var init, g := b[..|b| - 1], b[|b| - 1];
      var tail := if Matches(g, keyword) then [g] else [];
      var ab := a + b;
      assert ab[..|ab| - 1] == a + init;
      assert ab[|ab| - 1] == g;
      assert FilterByTitle(ab, keyword) == FilterByTitle(a + init, keyword) + tail;
      FilterByTitleAppend(a, init, keyword);
      assert FilterByTitle(b, keyword) == FilterByTitle(init, keyword) + tail;
    }
  }

  /** The filtered list is the list with the non-matching galleries left out, order kept. */
  lemma {:induction false} FilterByTitleIsSubsequence(galleries: seq<Gallery>, keyword: string)
    ensures IsSubsequence(FilterByTitle(galleries, keyword), galleries)
    decreases |galleries|
  {
    if |galleries| > 0 {
      var init, g := galleries[..|galleries| - 1], galleries[|galleries| - 1];
      var kept := FilterByTitle(init, keyword);
      FilterByTitleIsSubsequence(init, keyword);
      assert init + [g] == galleries;
      if Matches(g, keyword) {
        assert FilterByTitle(galleries, keyword) == kept + [g];
        SubsequenceAppend(kept, init, g);
      } else {
        assert FilterByTitle(galleries, keyword) == kept + [];
        assert kept + [] == kept;
        SubsequenceExtend(kept, init, g);
      }
    }
  }

  /** Filtering an already filtered list changes nothing. */
  lemma {:induction false} FilterByTitleIdempotent(galleries: seq<Gallery>, keyword: string)
    ensures FilterByTitle(FilterByTitle(galleries, keyword), keyword) == FilterByTitle(galleries, keyword)
    decreases |galleries|
  {
    if |galleries| > 0 {
      var init, g := galleries[..|galleries| - 1], galleries[|galleries| - 1];
      FilterByTitleIdempotent(init, keyword);
      var tail := if Matches(g, keyword) then [g] else [];
      FilterByTitleAppend(FilterByTitle(init, keyword), tail, keyword);
    }
  }

  /**
   * No title contains the empty keyword, so without its empty-keyword guard
   * `filteredGalleries` would show nothing; the guard is what shows the
   * whole list.
   */
  lemma {:induction false} EmptyKeywordMatchesNone(galleries: seq<Gallery>)
    ensures FilterByTitle(galleries, "") == []
    decreases |galleries|
  {
    if |galleries| > 0 {
      EmptyKeywordMatchesNone(galleries[..|galleries| - 1]);
      assert !Matches(galleries[|galleries| - 1], "");
    }
  }

  /** When every gallery matches, the filter returns the whole list. */
  lemma {:induction false} FilterByTitleKeepsAll(galleries: seq<Gallery>, keyword: string)
    requires forall g | g in galleries :: Matches(g, keyword)
    ensures FilterByTitle(galleries, keyword) == galleries
    decreases |galleries|
  {
    if |galleries| > 0 {
      var init := galleries[..|galleries| - 1];
      FilterByTitleKeepsAll(init, keyword);
      assert galleries == init + [galleries[|galleries| - 1]];
    }
  }

  /**
   * `State.filteredGalleries`: the whole list for an empty keyword,
   * otherwise the galleries whose titles contain the keyword, in list order.
   */
  function FilteredGalleries(s: State): (r: seq<Gallery>)
    ensures s.keyword == "" ==> r == s.galleries
    ensures s.keyword != "" ==> forall g :: g in r <==> g in s.galleries && Matches(g, s.keyword)
    ensures s.keyword != "" ==> forall g ::
              multiset(r)[g] == (if Matches(g, s.keyword) then multiset(s.galleries)[g] else 0)
    ensures IsSubsequence(r, s.galleries)
  {
    if s.keyword == "" then
      SubsequenceReflexive(s.galleries);
      s.galleries
    else
      FilterByTitleMembers(s.galleries, s.keyword);
      FilterByTitleCounts(s.galleries, s.keyword);
      FilterByTitleIsSubsequence(s.galleries, s.keyword);
      FilterByTitle(s.galleries, s.keyword)
  }

  /** Every sequence is a subsequence of itself. */
  lemma {:induction false} SubsequenceReflexive(s: seq<Gallery>)
    ensures IsSubsequence(s, s)
    decreases |s|
  {
    if |s| > 0 {
      SubsequenceReflexive(s[..|s| - 1]);
    }
  }

  // ---------------------------------------------------------------------
  // The reducer's cases

  /**
   * A binding write. After a route write the reducer looks at the route it
   * now holds: when there is none it asks for the child screens to be torn
   * down, whether or not a route was presented before.
   */
  function BindStep(s: State, b: Binding): (r: Next)
    ensures b.RouteBinding? ==> r.state == s.(route := b.route)
    ensures b.RouteBinding? ==> (r.effects == [Send(ClearSubStates)] <==> b.route.None?)
    ensures b.RouteBinding? && b.route.Some? ==> r.effects == []
    ensures b.KeywordBinding? ==> r == Next(s.(keyword := b.keyword), [])
  {
    match b
    case RouteBinding(route) => Next(s.(route := route), if route.None? then [Send(ClearSubStates)] else [])
    case KeywordBinding(keyword) => Next(s.(keyword := keyword), [])
  }

  /** `setNavigation`: assigns the route; a dismissal asks for the child screens to be torn down. */
  function SetNavigationStep(s: State, route: Option<Route>): (r: Next)
    ensures r.state == s.(route := route)
    ensures r.effects == [Send(ClearSubStates)] <==> route.None?
    ensures route.Some? ==> r.effects == []
  {
    Next(s.(route := route), if route.None? then [Send(ClearSubStates)] else [])
  }

  /**
   * `fetchGalleries`: ignored while loading; otherwise marks loading and
   * issues one request. Either way the screen is loading afterwards, and
   * nothing but the loading state changes.
   */
  function FetchGalleriesStep(filter: Filter, s: State): (r: Next)
    ensures r.state.loadingState == Loading
    ensures r.state.(loadingState := s.loadingState) == s
    ensures r.effects != [] <==> s.loadingState != Loading
    ensures r.effects != [] ==> r.effects == [Run(PopularGalleries(filter), PopularFetch)]
  {
    if s.loadingState == Loading then Next(s, [])
    else Next(s.(loadingState := Loading), [Run(PopularGalleries(filter), PopularFetch)])
  }

  /**
   * `fetchGalleriesDone`: a non-empty list replaces the old one and is
   * cached; an empty list is reported as not found; a failure is recorded.
   * Only the non-empty list touches the galleries.
   */
  function FetchGalleriesDoneStep(s: State, result: Result<seq<Gallery>>): (r: Next)
    ensures r.state.route == s.route && r.state.keyword == s.keyword
    ensures r.state.loadingState != Loading
    ensures r.state.loadingState == Idle <==> result.Success? && result.value != []
    ensures r.state.loadingState.Failed? ==>
      r.state.loadingState.error == (if result.Failure? then result.error else NotFound)
    ensures r.state.galleries != [] <==> s.galleries != [] || r.state.loadingState == Idle
    ensures r.state.loadingState == Idle ==> r.state.galleries == result.value
    ensures r.state.loadingState != Idle ==> r.state.galleries == s.galleries
    ensures r.effects != [] <==> r.state.loadingState == Idle
    ensures r.effects != [] ==> r.effects == [Cache(r.state.galleries)]
  {
    match result
    case Success(galleries) =>
      if galleries == [] then Next(s.(loadingState := Failed(NotFound)), [])
      else Next(s.(loadingState := Idle, galleries := galleries), [Cache(galleries)])
    case Failure(error) => Next(s.(loadingState := Failed(error)), [])
  }

  /**
   * One step of the reducer; the stored filter is an input. `teardown`
   * cancels the one request this screen issues, and `clearSubStates` tells
   * the detail screen to tear down.
   */
  function Step(filter: Filter, s: State, a: Action): (r: Next)
    ensures a.Teardown? ==> r == Next(s, [Cancel(PopularFetch)])
    ensures a.ClearSubStates? ==> r == Next(s, [Send(DetailAction(ChildTeardown))])
    ensures a.FiltersAction? || a.DetailAction? ==> r == Next(s, [])
    ensures !(a.Bind? || a.SetNavigation?) ==> r.state.route == s.route && r.state.keyword == s.keyword
    ensures !a.FetchGalleriesDone? ==> r.state.galleries == s.galleries
  {
    match a
    case Bind(b) => BindStep(s, b)
    case SetNavigation(route) => SetNavigationStep(s, route)
    case ClearSubStates => Next(s, [Send(DetailAction(ChildTeardown))])
    case Teardown => Next(s, [Cancel(PopularFetch)])
    case FetchGalleries => FetchGalleriesStep(filter, s)
    case FetchGalleriesDone(result) => FetchGalleriesDoneStep(s, result)
    case FiltersAction(_) => Next(s, [])
    case DetailAction(_) => Next(s, [])
  }

  // ---------------------------------------------------------------------
  // Properties of the whole reducer

  /**
   * The screen never has two list requests in flight: a step issues the
   * request only from a state that is not loading, and leaves it loading.
   */
  lemma RequestOnlyWhenIdle(filter: Filter, s: State, a: Action)
    ensures var r := Step(filter, s, a);
      forall e | e in r.effects && e.Run? ::
        e == Run(PopularGalleries(filter), PopularFetch) && s.loadingState != Loading && r.state.loadingState == Loading
  {
  }

  /** Once the screen lists galleries, no step empties the list. */
  lemma ListNeverEmptied(filter: Filter, s: State, a: Action)
    requires s.galleries != []
    ensures Step(filter, s, a).state.galleries != []
  {
  }

  /** Dismissing the route, by binding or by `setNavigation`, asks for exactly the child teardown. */
  lemma DismissalClearsSubStates(filter: Filter, s: State)
    ensures Step(filter, s, Bind(RouteBinding(None))).effects == [Send(ClearSubStates)]
    ensures Step(filter, s, SetNavigation(None)).effects == [Send(ClearSubStates)]
    ensures Step(filter, Step(filter, s, SetNavigation(None)).state, ClearSubStates).effects
      == [Send(DetailAction(ChildTeardown))]
  {
  }
}
