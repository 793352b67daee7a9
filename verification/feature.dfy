/**
 * Types shared by the listing and login reducers: loading states, errors,
 * galleries, the opaque page cursor, and the effects a reducer step emits.
 * Effects are tokens in a list, not running tasks: a request token stands
 * for `.run { … }.cancellable(id:)`, a cancel token for `.cancel(id:)`.
 */
module Feature {
  import opened Wrappers

  /** The errors the reducers store; `Other` stands for every other case of `AppError`. */
  datatype AppError = NotFound | Unknown | Other(code: int)

  /** `LoadingState`: idle, loading, or failed with an error. */
  datatype LoadingState = Idle | Loading | Failed(error: AppError)

  /** `Result<T, AppError>`. */
  datatype Result<T> = Success(value: T) | Failure(error: AppError)

  /**
   * A gallery: its id, its title and the rest of its stored properties.
   * The app's `Gallery` type is not part of this model; its equality is
   * taken to be on the whole value, as a synthesized `Equatable` would be.
   */
  datatype Gallery = Gallery(id: string, title: string, details: string)

  /** The service's page cursor; its contents are opaque to the reducers. */
  datatype PageNumber = PageNumber(contents: seq<int>)

  /** What the reducers may ask of a cursor: `hasNextPage()` and `resetPages()`, left uninterpreted. */
  datatype Pager = Pager(hasNextPage: PageNumber -> bool, resetPages: PageNumber -> PageNumber)

  /** The filter read from the database for a search; forwarded, never inspected. */
  datatype Filter = Filter(settings: seq<int>)

  /** An HTTP response, reduced to its `Set-Cookie` header text, if any. */
  datatype Response = Response(setCookie: Option<string>)

  /** The network requests the reducers issue. */
  datatype Request =
    | SearchGalleries(keyword: string, filter: Filter)
    | MoreSearchGalleries(keyword: string, filter: Filter, lastID: string)
    | PopularGalleries(filter: Filter)
    | LoginRequest(username: string, password: string)

  /** The cancellation ids of the three reducers. */
  datatype CancelID = SearchFetch | SearchFetchMore | PopularFetch | LoginSubmit

  /** The haptic feedback the login screen plays. */
  datatype Feedback = Soft | SuccessNotice | ErrorNotice

  /** One effect a reducer step returns. */
  datatype Effect<A> =
    | Run(request: Request, id: CancelID)            // a request whose completion is sent back
    | Cache(galleries: seq<Gallery>)                 // `databaseClient.cacheGalleries`
    | Send(action: A)                                // `.send(action)`
    | Cancel(id: CancelID)                           // `.cancel(id:)`
    | SetCredentials(response: Response)             // `cookieClient.setCredentials(response:)`
    | Haptic(feedback: Feedback)                     // `hapticsClient`

  /** The actions of a scoped child reducer, as far as a parent sends them. */
  datatype ChildAction = ChildTeardown | ChildOther(tag: int)

  /** No element occurs twice. */
  predicate NoDuplicates<T(==)>(s: seq<T>) {
    forall i, j | 0 <= i < j < |s| :: s[i] != s[j]
  }

  /** `a` is `b` with some elements left out, order kept. */
  predicate IsSubsequence<T(==)>(a: seq<T>, b: seq<T>)
    decreases |b|
  {
    if |a| == 0 then true
    else if |b| == 0 then false
    else if a[|a| - 1] == b[|b| - 1] then IsSubsequence(a[..|a| - 1], b[..|b| - 1])
    else IsSubsequence(a, b[..|b| - 1])
  }

  /** Dropping the last element of a subsequence leaves a subsequence. */
  lemma {:induction false} SubsequenceDropLast<T>(a: seq<T>, b: seq<T>)
    requires |a| > 0 && IsSubsequence(a, b)
    ensures IsSubsequence(a[..|a| - 1], b)
    decreases |b|, 0
  {
    var a', b' := a[..|a| - 1], b[..|b| - 1];
    if a[|a| - 1] == b[|b| - 1] {
      SubsequenceExtend(a', b', b[|b| - 1]);
      assert b' + [b[|b| - 1]] == b;
    } else {
      SubsequenceDropLast(a, b');
      SubsequenceExtend(a', b', b[|b| - 1]);
      assert b' + [b[|b| - 1]] == b;
    }
  }

  /** A subsequence of `b` is a subsequence of `b` with one more element at the end. */
  lemma {:induction false} SubsequenceExtend<T>(a: seq<T>, b: seq<T>, x: T)
    requires IsSubsequence(a, b)
    ensures IsSubsequence(a, b + [x])
    decreases |b|, 1
  {
    assert (b + [x])[..|b|] == b;
    if |a| > 0 && a[|a| - 1] == x {
      SubsequenceDropLast(a, b);
    }
  }

  /** Appending the same element to both keeps the relation. */
  lemma SubsequenceAppend<T>(a: seq<T>, b: seq<T>, x: T)
    requires IsSubsequence(a, b)
    ensures IsSubsequence(a + [x], b + [x])
  {
    assert (a + [x])[..|a|] == a;
    assert (b + [x])[..|b|] == b;
  }

  /** Every element of a subsequence is an element of the sequence. */
  lemma {:induction false} SubsequenceMembers<T>(a: seq<T>, b: seq<T>)
    requires IsSubsequence(a, b)
    ensures forall x | x in a :: x in b
    decreases |b|
  {
    if |a| > 0 {
      var a', b' := a[..|a| - 1], b[..|b| - 1];
      if a[|a| - 1] == b[|b| - 1] {
        SubsequenceMembers(a', b');
        assert a == a' + [a[|a| - 1]];
        assert b == b' + [b[|b| - 1]];
      } else {
        SubsequenceMembers(a, b');
        assert b == b' + [b[|b| - 1]];
      }
    }
  }
}
