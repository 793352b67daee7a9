/**
 * The detail-search screen's reducer (`DetailSearchReducer`) as a pure step
 * function. A search issues one request for the first page; later pages are
 * fetched on demand, anchored on the id of the last gallery shown, and merged
 * into the list without duplicates. An empty page whose cursor promises more
 * triggers one automatic continuation.
 */
module DetailSearch {
  import opened Wrappers
  import opened Feature

  /**
   * Where the screen has navigated. The two sheet cases carry a fresh token
   * each time they are built (`EquatableVoid.unique`), so two of them are
   * never equal unless they are the same presentation.
   */
  datatype Route = Filters(token: nat) | QuickSearch(token: nat) | Detail(gid: string)

  /** The reducer's state, without the child screens' states. */
  datatype State = State(
    route: Option<Route>,
    keyword: string,
    lastKeyword: string,
    galleries: seq<Gallery>,
    pageNumber: PageNumber,
    loadingState: LoadingState,
    footerLoadingState: LoadingState
  )

  /** The initial state; the default cursor `PageNumber()` is supplied by the caller. */
  function Initial(start: PageNumber): (s: State)
    ensures s.route.None? && s.keyword == "" && s.lastKeyword == "" && s.galleries == []
    ensures s.pageNumber == start && s.loadingState == Idle && s.footerLoadingState == Idle
  {
    State(None, "", "", [], start, Idle, Idle)
  }

  /** One page of search results: the service's cursor and the galleries on the page. */
  datatype Page = Page(pageNumber: PageNumber, galleries: seq<Gallery>)

  /** The bindings the view writes through. */
  datatype Binding = RouteBinding(route: Option<Route>) | KeywordBinding(keyword: string)

  datatype Action =
    | Bind(binding: Binding)
    | SetNavigation(route: Option<Route>)
    | ClearSubStates
    | Teardown
    | FetchGalleries(keyword: Option<string>)
    | FetchGalleriesDone(result: Result<Page>)
    | FetchMoreGalleries
    | FetchMoreGalleriesDone(result: Result<Page>)
    | DetailAction(child: ChildAction)
    | FiltersAction(child: ChildAction)
    | QuickSearchAction(child: ChildAction)

  /** The state after a step and the effects the step returns. */
  datatype Next = Next(state: State, effects: seq<Effect<Action>>)

  // ---------------------------------------------------------------------
  // insertGalleries

  /**
   * `State.insertGalleries`: walks the batch in order and appends each
   * gallery that the list does not yet contain, so a gallery repeated inside
   * the batch is appended once. Defined as a fold that handles the batch's
   * last gallery after all the others.
   */
  function InsertGalleries(galleries: seq<Gallery>, batch: seq<Gallery>): (r: seq<Gallery>)
    ensures |galleries| <= |r| <= |galleries| + |batch|
    ensures r[..|galleries|] == galleries
    decreases |batch|
  {
    if |batch| == 0 then galleries
    else
      var prior := InsertGalleries(galleries, batch[..|batch| - 1]);
      var g := batch[|batch| - 1];
      if g in prior then prior else prior + [g]
  }

  /** Nothing is lost and nothing foreign is added: the result lists the old galleries and the batch's. */
  lemma {:induction false} InsertGalleriesMembers(galleries: seq<Gallery>, batch: seq<Gallery>)
    ensures forall g :: g in InsertGalleries(galleries, batch) <==> g in galleries || g in batch
    decreases |batch|
  {
    if |batch| > 0 {
      var init := batch[..|batch| - 1];
      InsertGalleriesMembers(galleries, init);
      assert batch == init + [batch[|batch| - 1]];
    }
  }

  /**
   * What the merge appends is new: no appended gallery was listed before,
   * none is appended twice, so a duplicate-free list stays duplicate-free.
   */
  lemma {:induction false} InsertGalleriesNoDuplicates(galleries: seq<Gallery>, batch: seq<Gallery>)
    ensures var r := InsertGalleries(galleries, batch);
      && (forall i | |galleries| <= i < |r| :: r[i] !in galleries)
      && NoDuplicates(r[|galleries|..])
      && (NoDuplicates(galleries) ==> NoDuplicates(r))
    decreases |batch|
  {
    var r := InsertGalleries(galleries, batch);
    if |batch| > 0 {
      var prior := InsertGalleries(galleries, batch[..|batch| - 1]);
      InsertGalleriesNoDuplicates(galleries, batch[..|batch| - 1]);
      if r != prior {
        var g := batch[|batch| - 1];
        assert r == prior + [g] && g !in prior;
        assert r[|galleries|..] == prior[|galleries|..] + [g];
        assert g !in prior[|galleries|..];
      }
    }
  }

  /** The appended galleries keep the order they have in the batch. */
  lemma {:induction false} InsertGalleriesKeepsBatchOrder(galleries: seq<Gallery>, batch: seq<Gallery>)
    ensures var r := InsertGalleries(galleries, batch);
      IsSubsequence(r[|galleries|..], batch)
    decreases |batch|
  {
    var r := InsertGalleries(galleries, batch);
    if |batch| == 0 {
      assert r[|galleries|..] == [];
    } else {
      var init, g := batch[..|batch| - 1], batch[|batch| - 1];
      var prior := InsertGalleries(galleries, init);
      InsertGalleriesKeepsBatchOrder(galleries, init);
      assert batch == init + [g];
      if g in prior {
        SubsequenceExtend(prior[|galleries|..], init, g);
      } else {
        assert r[|galleries|..] == prior[|galleries|..] + [g];
        SubsequenceAppend(prior[|galleries|..], init, g);
      }
    }
  }

  /**
   * The galleries a merge should append, as an independent definition: each
   * gallery of the batch at its first occurrence in the batch, unless it is
   * already listed, in batch order.
   */
  function NewGalleries(galleries: seq<Gallery>, batch: seq<Gallery>): seq<Gallery>
    decreases |batch|
  {
    if |batch| == 0 then []
    else
      var init, g := batch[..|batch| - 1], batch[|batch| - 1];
      NewGalleries(galleries, init) + (if g in galleries || g in init then [] else [g])
  }

  /** The merge appends exactly the first occurrences of the unlisted galleries, in batch order. */
  lemma {:induction false} InsertGalleriesAppendsFirstOccurrences(galleries: seq<Gallery>, batch: seq<Gallery>)
    ensures InsertGalleries(galleries, batch) == galleries + NewGalleries(galleries, batch)
    decreases |batch|
  {
    if |batch| > 0 {
      var init := batch[..|batch| - 1];
      InsertGalleriesAppendsFirstOccurrences(galleries, init);
      InsertGalleriesMembers(galleries, init);
    }
  }

  /** The same merge as the source writes it: a loop over the batch with a `contains` test. */
  method InsertGalleriesLoop(galleries: seq<Gallery>, batch: seq<Gallery>) returns (r: seq<Gallery>)
    ensures r == InsertGalleries(galleries, batch)
  {
    r := galleries;
    for i := 0 to |batch|
      invariant r == InsertGalleries(galleries, batch[..i])
    {
      assert batch[..i + 1][..i] == batch[..i];
      if batch[i] !in r {
        r := r + [batch[i]];
      }
    }
    assert batch[..|batch|] == batch;
  }

  /** A batch whose galleries are all already listed changes nothing. */
  lemma {:induction false} InsertKnownGalleries(galleries: seq<Gallery>, batch: seq<Gallery>)
    requires forall g | g in batch :: g in galleries
    ensures InsertGalleries(galleries, batch) == galleries
    decreases |batch|
  {
    if |batch| > 0 {
      InsertKnownGalleries(galleries, batch[..|batch| - 1]);
    }
  }

  /** Merging the same batch twice is the same as merging it once. */
  lemma InsertGalleriesIdempotent(galleries: seq<Gallery>, batch: seq<Gallery>)
    ensures InsertGalleries(InsertGalleries(galleries, batch), batch) == InsertGalleries(galleries, batch)
  {
    InsertGalleriesMembers(galleries, batch);
    InsertKnownGalleries(InsertGalleries(galleries, batch), batch);
  }

  /** A duplicate-free batch disjoint from the list is appended whole. */
  lemma {:induction false} InsertFreshGalleries(galleries: seq<Gallery>, batch: seq<Gallery>)
    requires NoDuplicates(batch)
    requires forall g | g in batch :: g !in galleries
    ensures InsertGalleries(galleries, batch) == galleries + batch
    decreases |batch|
  {
    if |batch| > 0 {
      var init := batch[..|batch| - 1];
      InsertFreshGalleries(galleries, init);
      assert batch == init + [batch[|batch| - 1]];
      assert batch[|batch| - 1] !in init;
    }
  }

  // ---------------------------------------------------------------------
  // The reducer's cases

  /**
   * A binding write followed by the two `onChange` hooks: dismissing a
   * presented route asks for the child screens to be torn down, and a
   * changed, non-empty keyword becomes the remembered `lastKeyword`.
   */
  function BindStep(s: State, b: Binding): (r: Next)
    ensures b.RouteBinding? ==> r.state == s.(route := b.route)
    ensures b.RouteBinding? ==>
      (r.effects == [Send(ClearSubStates)] <==> s.route.Some? && b.route.None?)
    ensures b.RouteBinding? && !(s.route.Some? && b.route.None?) ==> r.effects == []
    ensures b.KeywordBinding? ==>
      r.state == s.(keyword := b.keyword, lastKeyword := r.state.lastKeyword) && r.effects == []
    ensures b.KeywordBinding? && b.keyword != "" && b.keyword != s.keyword ==>
      r.state.lastKeyword == b.keyword
    ensures b.KeywordBinding? && (b.keyword == "" || b.keyword == s.keyword) ==>
      r.state.lastKeyword == s.lastKeyword
  {
    match b
    case RouteBinding(route) =>
      Next(s.(route := route), if route != s.route && route.None? then [Send(ClearSubStates)] else [])
    case KeywordBinding(keyword) =>
      var changed := keyword != s.keyword;
      Next(s.(keyword := keyword, lastKeyword := if changed && keyword != "" then keyword else s.lastKeyword), [])
  }

  /** `setNavigation`: assigns the route; a dismissal asks for the child screens to be torn down. */
  function SetNavigationStep(s: State, route: Option<Route>): (r: Next)
    ensures r.state == s.(route := route)
    ensures r.effects == [Send(ClearSubStates)] <==> route.None?
    ensures route.Some? ==> r.effects == []
  {
    Next(s.(route := route), if route.None? then [Send(ClearSubStates)] else [])
  }

  /**
   * `fetchGalleries`: ignored while a first-page load is in flight. Otherwise
   * a supplied keyword (even an empty one) becomes both the keyword and the
   * remembered keyword, the cursor is reset, and one request for the first
   * page is issued with the remembered keyword.
   */
  function FetchGalleriesStep(pager: Pager, filter: Filter, s: State, keyword: Option<string>): (r: Next)
    ensures s.loadingState == Loading ==> r == Next(s, [])
    ensures s.loadingState != Loading ==>
      && r.state.loadingState == Loading
      && r.state.pageNumber == pager.resetPages(s.pageNumber)
      && r.state.galleries == s.galleries
      && r.state.footerLoadingState == s.footerLoadingState
      && r.state.route == s.route
      && r.effects == [Run(SearchGalleries(r.state.lastKeyword, filter), SearchFetch)]
    ensures s.loadingState != Loading && keyword.Some? ==>
      r.state.keyword == keyword.value && r.state.lastKeyword == keyword.value
    ensures keyword.None? ==> r.state.keyword == s.keyword && r.state.lastKeyword == s.lastKeyword
  {
    if s.loadingState == Loading then Next(s, [])
    else
      var s1 := match keyword
        case Some(k) => s.(keyword := k, lastKeyword := k)
        case None => s;
      var s2 := s1.(loadingState := Loading, pageNumber := pager.resetPages(s1.pageNumber));
      Next(s2, [Run(SearchGalleries(s2.lastKeyword, filter), SearchFetch)])
  }

  /**
   * `fetchGalleriesDone`: a non-empty first page replaces the list and the
   * cursor and is cached; an empty one is reported as not found, keeps the
   * list and the cursor, and asks for the next page when its own cursor
   * promises one; a failure is recorded and nothing else happens.
   */
  function FetchGalleriesDoneStep(pager: Pager, s: State, result: Result<Page>): (r: Next)
    ensures r.state.route == s.route && r.state.keyword == s.keyword && r.state.lastKeyword == s.lastKeyword
    ensures r.state.footerLoadingState == s.footerLoadingState
    ensures r.state.loadingState != Loading
    ensures r.state.loadingState == Idle <==> result.Success? && result.value.galleries != []
    ensures r.state.loadingState.Failed? ==>
      r.state.loadingState.error == (if result.Failure? then result.error else NotFound)
    ensures r.state.loadingState == Idle ==>
      && r.state.galleries == result.value.galleries && r.state.pageNumber == result.value.pageNumber
      && r.effects == [Cache(r.state.galleries)]
    ensures r.state.loadingState != Idle ==>
      && r.state.galleries == s.galleries && r.state.pageNumber == s.pageNumber
      && r.effects <= [Send(FetchMoreGalleries)]
    ensures Send(FetchMoreGalleries) in r.effects <==>
      result.Success? && result.value.galleries == [] && pager.hasNextPage(result.value.pageNumber)
  {
    match result
    case Success(Page(pageNumber, galleries)) =>
      if galleries == [] then
        Next(s.(loadingState := Failed(NotFound)),
             if pager.hasNextPage(pageNumber) then [Send(FetchMoreGalleries)] else [])
      else
        Next(s.(loadingState := Idle, pageNumber := pageNumber, galleries := galleries), [Cache(galleries)])
    case Failure(error) =>
      Next(s.(loadingState := Failed(error)), [])
  }

  /** The guard of `fetchMoreGalleries`: a next page, an idle footer, and a gallery to anchor on. */
  predicate CanFetchMore(pager: Pager, s: State) {
    pager.hasNextPage(s.pageNumber) && s.footerLoadingState != Loading && |s.galleries| > 0
  }

  /**
   * `fetchMoreGalleries`: unless the guard fails, marks the footer as loading
   * and issues one request for the page after the last listed gallery.
   */
  function FetchMoreGalleriesStep(pager: Pager, filter: Filter, s: State): (r: Next)
    ensures r.state.(footerLoadingState := s.footerLoadingState) == s
    ensures r.effects != [] <==> CanFetchMore(pager, s)
    ensures r.effects == [] ==> r.state == s
    ensures r.effects != [] ==>
      && s.footerLoadingState != Loading && r.state.footerLoadingState == Loading
      && r.effects == [Run(MoreSearchGalleries(s.lastKeyword, filter, Last(s.galleries).id), SearchFetchMore)]
  {
    if !CanFetchMore(pager, s) then Next(s, [])
    else
      var lastID := Last(s.galleries).id;
      Next(s.(footerLoadingState := Loading), [Run(MoreSearchGalleries(s.lastKeyword, filter, lastID), SearchFetchMore)])
  }

  /**
   * `fetchMoreGalleriesDone`: a page is merged into the list, its cursor
   * stored and its galleries cached; an empty page whose cursor promises
   * more asks for the next one, a non-empty one settles the first-page
   * state to idle. A failure is recorded on the footer and nothing else
   * changes.
   */
  function FetchMoreGalleriesDoneStep(pager: Pager, s: State, result: Result<Page>): (r: Next)
    ensures result.Success? ==>
      && r.state.footerLoadingState == Idle
      && r.state.pageNumber == result.value.pageNumber
      && r.state.galleries == InsertGalleries(s.galleries, result.value.galleries)
      && r.state.route == s.route && r.state.keyword == s.keyword && r.state.lastKeyword == s.lastKeyword
      && r.state.loadingState == (if result.value.galleries != [] then Idle else s.loadingState)
      && |r.effects| > 0 && r.effects[0] == Cache(result.value.galleries)
      && (Send(FetchMoreGalleries) in r.effects <==>
            result.value.galleries == [] && pager.hasNextPage(result.value.pageNumber))
      && r.effects[1..] <= [Send(FetchMoreGalleries)]
    ensures result.Failure? ==> r == Next(s.(footerLoadingState := Failed(result.error)), [])
  {
    match result
    case Success(Page(pageNumber, galleries)) =>
      var s1 := s.(footerLoadingState := Idle, pageNumber := pageNumber,
                   galleries := InsertGalleries(s.galleries, galleries));
      if galleries == [] && pager.hasNextPage(pageNumber) then
        Next(s1, [Cache(galleries), Send(FetchMoreGalleries)])
      else if galleries != [] then
        Next(s1.(loadingState := Idle), [Cache(galleries)])
      else
        Next(s1, [Cache(galleries)])
    case Failure(error) =>
      Next(s.(footerLoadingState := Failed(error)), [])
  }

  /** `teardown`: cancels both in-flight requests. */
  const TeardownEffects: seq<Effect<Action>> := [Cancel(SearchFetch), Cancel(SearchFetchMore)]

  /** `clearSubStates`: the child screens are reset and told to tear down. */
  const ClearSubStatesEffects: seq<Effect<Action>> :=
    [Send(DetailAction(ChildTeardown)), Send(QuickSearchAction(ChildTeardown))]

  /**
   * One step of the reducer. The cursor's behaviour and the stored search
   * filter are inputs. Besides the per-case contracts, only the fetch cases
   * touch the list, the cursor or the loading states.
   */
  function Step(pager: Pager, filter: Filter, s: State, a: Action): (r: Next)
    ensures a.Teardown? ==> r == Next(s, TeardownEffects)
    ensures a.ClearSubStates? ==> r == Next(s, ClearSubStatesEffects)
    ensures a.DetailAction? || a.FiltersAction? || a.QuickSearchAction? ==> r == Next(s, [])
    ensures a.Bind? || a.SetNavigation? ==>
      && r.state.galleries == s.galleries && r.state.pageNumber == s.pageNumber
      && r.state.loadingState == s.loadingState && r.state.footerLoadingState == s.footerLoadingState
    ensures !(a.Bind? || a.SetNavigation?) ==> r.state.route == s.route
  {
    match a
    case Bind(b) => BindStep(s, b)
    case SetNavigation(route) => SetNavigationStep(s, route)
    case ClearSubStates => Next(s, ClearSubStatesEffects)
    case Teardown => Next(s, TeardownEffects)
    case FetchGalleries(keyword) => FetchGalleriesStep(pager, filter, s, keyword)
    case FetchGalleriesDone(result) => FetchGalleriesDoneStep(pager, s, result)
    case FetchMoreGalleries => FetchMoreGalleriesStep(pager, filter, s)
    case FetchMoreGalleriesDone(result) => FetchMoreGalleriesDoneStep(pager, s, result)
    case DetailAction(_) => Next(s, [])
    case FiltersAction(_) => Next(s, [])
    case QuickSearchAction(_) => Next(s, [])
  }

  // ---------------------------------------------------------------------
  // Properties of the whole reducer

  /**
   * What every reachable state keeps: the list has no duplicates, and a
   * non-empty keyword is the remembered keyword.
   */
  predicate Consistent(s: State) {
    NoDuplicates(s.galleries) && (s.keyword != "" ==> s.lastKeyword == s.keyword)
  }

  /** The initial state is consistent. */
  lemma InitialConsistent(start: PageNumber)
    ensures Consistent(Initial(start))
  {
  }

  /**
   * Every step keeps the state consistent, provided a first page from the
   * service has no duplicates (later pages may repeat anything).
   */
  lemma StepKeepsConsistent(pager: Pager, filter: Filter, s: State, a: Action)
    requires Consistent(s)
    requires a.FetchGalleriesDone? && a.result.Success? ==> NoDuplicates(a.result.value.galleries)
    ensures Consistent(Step(pager, filter, s, a).state)
  {
    if a.FetchMoreGalleriesDone? && a.result.Success? {
      InsertGalleriesNoDuplicates(s.galleries, a.result.value.galleries);
    }
  }

  /** Both search requests always carry the keyword the step leaves remembered. */
  lemma RequestsUseLastKeyword(pager: Pager, filter: Filter, s: State, a: Action)
    ensures var r := Step(pager, filter, s, a);
      forall e | e in r.effects && e.Run? ::
        && (e.request.SearchGalleries? || e.request.MoreSearchGalleries?)
        && e.request.keyword == r.state.lastKeyword
        && e.request.filter == filter
  {
  }

  /**
   * The loading guards: a first-page request is issued only from a state
   * that is not loading and leaves it loading, and a next-page request
   * likewise for the footer. This does not mean one request of each kind is
   * in flight: see `SecondSearchWhileFirstRuns`.
   */
  lemma RequestOnlyWhenIdle(pager: Pager, filter: Filter, s: State, a: Action)
    ensures var r := Step(pager, filter, s, a);
      forall e | e in r.effects && e.Run? ::
        && (e.request.SearchGalleries? ==>
              e.id == SearchFetch && s.loadingState != Loading && r.state.loadingState == Loading)
        && (e.request.MoreSearchGalleries? ==>
              e.id == SearchFetchMore && s.footerLoadingState != Loading && r.state.footerLoadingState == Loading)
  {
  }

  /**
   * A next page that arrives while a new search is running sets the
   * first-page state back to idle, so a second search is issued before the
   * first one completes. Both requests carry the same cancellation id, and
   * the second does not cancel the first.
   */
  lemma SecondSearchWhileFirstRuns(pager: Pager, filter: Filter, s: State, page: Page)
    requires s.loadingState == Idle && CanFetchMore(pager, s)
    requires page.galleries != []
    ensures
      var n1 := Step(pager, filter, s, FetchMoreGalleries);
      var n2 := Step(pager, filter, n1.state, FetchGalleries(Some("a")));
      var n3 := Step(pager, filter, n2.state, FetchMoreGalleriesDone(Success(page)));
      var n4 := Step(pager, filter, n3.state, FetchGalleries(Some("b")));
      && n2.effects == [Run(SearchGalleries("a", filter), SearchFetch)]
      && n3.state.loadingState == Idle
      && n4.effects == [Run(SearchGalleries("b", filter), SearchFetch)]
  {
  }

  /** A page delivered twice adds its galleries once. */
  lemma RepeatedPageAddsNothing(pager: Pager, s: State, page: Page)
    ensures var r1 := FetchMoreGalleriesDoneStep(pager, s, Success(page));
      var r2 := FetchMoreGalleriesDoneStep(pager, r1.state, Success(page));
      r2.state.galleries == r1.state.galleries
  {
    InsertGalleriesIdempotent(s.galleries, page.galleries);
  }

  /**
   * A search whose first page is full, whose second page is empty but
   * promises more, and whose third page brings new galleries and ends the
   * results: the empty page triggers the continuation by itself, the list
   * ends as the first page followed by the third, both loading states end
   * idle, and nothing asks for more.
   */
  lemma SearchScenario(
    pager: Pager, filter: Filter, s0: State, keyword: string,
    p1: PageNumber, g1: seq<Gallery>, p2: PageNumber, p3: PageNumber, g3: seq<Gallery>)
    requires s0.loadingState != Loading && s0.footerLoadingState != Loading
    requires |g1| > 0 && pager.hasNextPage(p1)
    requires pager.hasNextPage(p2)
    requires |g3| > 0 && NoDuplicates(g3) && !pager.hasNextPage(p3)
    requires forall g | g in g3 :: g !in g1
    ensures
      var n1 := Step(pager, filter, s0, FetchGalleries(Some(keyword)));
      var n2 := Step(pager, filter, n1.state, FetchGalleriesDone(Success(Page(p1, g1))));
      var n3 := Step(pager, filter, n2.state, FetchMoreGalleries);
      var n4 := Step(pager, filter, n3.state, FetchMoreGalleriesDone(Success(Page(p2, []))));
      var n5 := Step(pager, filter, n4.state, FetchMoreGalleries);
      var n6 := Step(pager, filter, n5.state, FetchMoreGalleriesDone(Success(Page(p3, g3))));
      && n1.effects == [Run(SearchGalleries(keyword, filter), SearchFetch)]
      && n3.effects == [Run(MoreSearchGalleries(keyword, filter, g1[|g1| - 1].id), SearchFetchMore)]
      && n4.effects == [Cache([]), Send(FetchMoreGalleries)]
      && n5.effects == [Run(MoreSearchGalleries(keyword, filter, g1[|g1| - 1].id), SearchFetchMore)]
      && n6.effects == [Cache(g3)]
      && n6.state.galleries == g1 + g3
      && n6.state.loadingState == Idle && n6.state.footerLoadingState == Idle
      && !CanFetchMore(pager, n6.state)
  {
    InsertFreshGalleries(g1, g3);
  }

  /**
   * An empty first page leaves the cursor as the search reset it and the
   * list as the previous search left it, so the automatic continuation it
   * sends consults the reset cursor and, if it runs, is anchored on the
   * previous search's last gallery.
   */
  lemma EmptyFirstPageContinuation(pager: Pager, filter: Filter, s: State, keyword: Option<string>, p: PageNumber)
    requires s.loadingState != Loading && pager.hasNextPage(p)
    ensures
      var n1 := Step(pager, filter, s, FetchGalleries(keyword));
      var n2 := Step(pager, filter, n1.state, FetchGalleriesDone(Success(Page(p, []))));
      var n3 := Step(pager, filter, n2.state, FetchMoreGalleries);
      && n2.effects == [Send(FetchMoreGalleries)]
      && n2.state.loadingState == Failed(NotFound)
      && n2.state.galleries == s.galleries
      && n2.state.pageNumber == pager.resetPages(s.pageNumber)
      && (n3.effects != [] <==>
            pager.hasNextPage(pager.resetPages(s.pageNumber)) && s.footerLoadingState != Loading && |s.galleries| > 0)
      && (n3.effects != [] ==> n3.effects[0].request.lastID == s.galleries[|s.galleries| - 1].id)
  {
  }

  /** On a screen that has not listed anything yet, an empty first page ends the search. */
  lemma EmptyFirstSearchStops(pager: Pager, filter: Filter, start: PageNumber, keyword: string, p: PageNumber)
    ensures
      var n1 := Step(pager, filter, Initial(start), FetchGalleries(Some(keyword)));
      var n2 := Step(pager, filter, n1.state, FetchGalleriesDone(Success(Page(p, []))));
      var n3 := Step(pager, filter, n2.state, FetchMoreGalleries);
      && n3.effects == []
      && n3.state.galleries == []
      && n3.state.footerLoadingState == Idle
      && n3.state.loadingState == Failed(NotFound)
  {
  }
}
