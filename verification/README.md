# EhPanda session cookies and listing reducers, in Dafny

This project models two cooperating pieces of the EhPanda client for the
E-Hentai gallery service, and proves properties about them.

**The session cookie client (`CookieClient`).** The process-wide cookie jar
is an immutable sequence of cookie records. Each record has a host, name,
value, optional expiry and path, and time is an integer `now`.

- Reads (`getCookie`) report one of four outcomes: empty, expired, mystery
  or ok. The last usable cookie of that name decides the outcome.
- Writes: `clearAll`, `removeCookie`, `setCookie`, `editCookie` and
  `setOrEditCookie`.
- Synchronisation routines copy the identity cookies between hosts. The
  identity cookies are the member id, the pass hash and igneous. The hosts
  are the gallery host (e-hentai), the alternate host (exhentai) and the
  failover host (sexhentai).
- Two scans of a `Set-Cookie` header text (section 4.1 of RFC 6265)
  extract cookies from a response. They are deliberately not the parsing
  algorithm of section 5.2 of RFC 6265. They split on `", "` and then
  `"; "`, and take the text after the first `name=` in each fragment.

**Three reducers (`DetailSearchReducer`, `PopularReducer`,
`LoginReducer`).** Each is a pure step from a state and an action to a new
state and a list of effect tokens: requests, cache writes, follow-up
actions, cancellations, credential hand-offs and haptics.

- The detail search is a paginated fetch. Later pages are anchored on the
  last listed gallery and merged without duplicates (`insertGalleries`).
  An empty page whose cursor promises more sends one automatic
  continuation.
- The popular list is a single-shot fetch shown through a case-insensitive
  title filter.
- The login screen submits credentials, and hands the response's cookies
  to the cookie client.

Files, one module each:
- `wrappers.dfy`: `Option` and `last`.
- `text.dfy`: `range(of:)`, `components(separatedBy:)` and ASCII
  case-insensitive containment.
- `cookie_jar.dfy`: the jar and its primitive operations.
- `cookie_client.dfy`: accessors, synchronisation and header scans.
- `feature.dfy`: shared reducer types and subsequence facts.
- `detail_search.dfy`, `popular.dfy`, `login.dfy`: the reducers.

Some of the code's behaviour differs from what a reader might expect. The
model follows the code:

- **De-duplication uses `Gallery`'s own equality.** One might expect
  galleries to be compared by id. `insertGalleries` tests
  `contains(gallery)`, which uses `Gallery`'s `Equatable`. `Gallery` is not
  part of this model, and the model takes that equality to compare whole
  values (see "## Left out").
- **An empty keyword still overwrites `lastKeyword`.** One might expect
  empty keywords never to be remembered. `fetchGalleries` with a supplied
  keyword sets `lastKeyword` even when that keyword is empty. Only the
  keyword binding's `onChange` hook skips empty values.
- **A new search does not cancel a pending next-page request.** One might
  expect a new search to cancel it. `fetchGalleries` cancels nothing.
- **The continuation after an empty first page reads the reset cursor.**
  One might expect it to fetch the page after the empty one. The code sends
  `fetchMoreGalleries`, which consults the cursor that the search reset,
  not the cursor the response carried. It goes ahead only when that reset
  cursor has a next page, the footer is not loading and the list is not
  empty. It is then anchored on the last gallery of the previous search
  (`DetailSearch.EmptyFirstPageContinuation`). On a screen that has listed
  nothing, it does nothing and the footer stays idle
  (`DetailSearch.EmptyFirstSearchStops`).
- **A next page ends a running search's loading state.** One might expect
  at most one first-page request in flight. When a non-empty next page
  arrives, `fetchMoreGalleriesDone` sets the first-page state to idle even
  if a new search is loading. A second `fetchGalleries` then goes ahead,
  and the first is not cancelled (`DetailSearch.SecondSearchWhileFirstRuns`).
- **An edit keeps the old expiry.** One might expect a written cookie to be
  fresh. `setOrEditCookie` edits an existing cookie in place and keeps its
  expiry. So a value copied into an expired slot still reads as expired.
  The read-back lemmas therefore assume the destination slot was empty or
  unexpired.
- **A pending login can be submitted again.** One might expect the button
  guard to hold throughout. `login` also goes ahead while a login is
  already loading, even with empty fields:
  `Login.LoginWhileLoadingResubmits`.

## Model

| member | source | states |
|---|---|---|
| Text.Find | EhPanda/App/Tools/Clients/CookieClient.swift:229 | `range(of:)` finds a non-empty literal exactly when it occurs, and reports its first position |
| Text.After | EhPanda/App/Tools/Clients/CookieClient.swift:229-230 | the text after a literal exists iff the literal occurs, and starts right after its first occurrence |
| Text.Split | EhPanda/App/Tools/Clients/CookieClient.swift:220-221 | `components(separatedBy:)` yields at least one piece and no piece contains the separator |
| Text.JoinSplit | EhPanda/App/Tools/Clients/CookieClient.swift:220-221 | splitting loses nothing: the pieces joined with the separator give the input back |
| Text.LowerChar | EhPanda/View/Home/Popular/PopularReducer.swift:26 | an ASCII capital becomes its own lower-case letter; every other character is kept |
| Text.Lower | EhPanda/View/Home/Popular/PopularReducer.swift:26 | case folding keeps the length and folds each character on its own |
| Text.ContainsIgnoringCase | EhPanda/View/Home/Popular/PopularReducer.swift:26 | a match needs a non-empty pattern no longer than the text, as with `range(of:)` |
| Text.ContainsIgnoringCaseAt | EhPanda/View/Home/Popular/PopularReducer.swift:26 | the test holds iff the pattern is non-empty and some stretch of the text equals it once both are lower-cased |
| Text.OccurrenceMatches | EhPanda/View/Home/Popular/PopularReducer.swift:26 | an exact occurrence of a non-empty pattern matches |
| Text.CaseIgnored | EhPanda/View/Home/Popular/PopularReducer.swift:26 | changing the case of the title or of the keyword does not change the test |
| CookieJar.Select | EhPanda/App/Tools/Clients/CookieClient.swift:55-58 | filtering never yields more cookies than the jar holds |
| CookieJar.SelectMembers | EhPanda/App/Tools/Clients/CookieClient.swift:55-58 | a cookie is in the filtered list iff it is in the jar and the selector accepts it |
| CookieJar.SelectNone | EhPanda/App/Tools/Clients/CookieClient.swift:55-58 | when the selector accepts no cookie of the jar, the filtered list is empty |
| CookieJar.Judge | EhPanda/App/Tools/Clients/CookieClient.swift:36-49 | for a usable cookie, expiry is checked before the mystery sentinel; expired hides the value, mystery and ok keep it |
| CookieJar.ReadEach | EhPanda/App/Tools/Clients/CookieClient.swift:34-50 | the read carries raw text exactly when its status is ok or mystery |
| CookieJar.ReadEachLastDecides | EhPanda/App/Tools/Clients/CookieClient.swift:34-50 | the last cookie with the name, a value and an expiry decides the read; with none the read is empty |
| CookieJar.GetCookie | EhPanda/App/Tools/Clients/CookieClient.swift:28-53 | the raw text is non-empty iff the status is ok or mystery |
| CookieJar.GetCookieLastDecides | EhPanda/App/Tools/Clients/CookieClient.swift:28-53 | a host with no cookies, or no usable one of the name, reads empty; otherwise the host's last usable cookie of the name decides |
| CookieJar.ReadSelect | EhPanda/App/Tools/Clients/CookieClient.swift:34-35 | cookies that do not take part in a read can be dropped without changing it |
| CookieJar.GetCookieReadsNamed | EhPanda/App/Tools/Clients/CookieClient.swift:32-35 | a read of a name on a host depends only on that host's cookies with that name |
| CookieJar.ReadEndsWith | EhPanda/App/Tools/Clients/CookieClient.swift:34-50 | last-write-wins: a usable cookie at the end decides the read whatever precedes it |
| CookieJar.ReadSkipsLast | EhPanda/App/Tools/Clients/CookieClient.swift:35 | a trailing cookie that is unnamed, valueless or without expiry is ignored |
| CookieJar.ClearAll | EhPanda/App/Tools/Clients/CookieClient.swift:21-27 | after clearing, every read of every host and name is empty |
| CookieJar.RemoveCookie | EhPanda/App/Tools/Clients/CookieClient.swift:54-61 | exactly the host's cookies with that name are deleted; every other cookie and every other slot is kept |
| CookieJar.CheckExistence | EhPanda/App/Tools/Clients/CookieClient.swift:62-73 | holds iff the host has a cookie of that name, whatever its value or expiry |
| CookieJar.InitializeCookie | EhPanda/App/Tools/Clients/CookieClient.swift:74-78 | the rebuilt cookie differs from the original only in its value |
| CookieJar.Store | EhPanda/App/Tools/Clients/CookieClient.swift:94 | storing replaces the cookies with the same host, name and path and keeps everything else |
| CookieJar.StoreNamed | EhPanda/App/Tools/Clients/CookieClient.swift:94 | a store changes only the slot of the stored cookie's host and name |
| CookieJar.SetCookie | EhPanda/App/Tools/Clients/CookieClient.swift:84-96 | the slot's last cookie becomes the new value with the given path and a one-year expiry; other slots are unchanged |
| CookieJar.EditCookie | EhPanda/App/Tools/Clients/CookieClient.swift:97-108 | the slot shrinks to one copy of its last cookie with the new value; an empty slot leaves the jar as it was; other slots are unchanged |
| CookieJar.Written | EhPanda/App/Tools/Clients/CookieClient.swift:97-115 | the cookie left behind carries the new value; when the slot existed it is the slot's last cookie with only its value replaced, so path and expiry are kept; otherwise it has path `/` and expires a year from now |
| CookieJar.SetOrEditCookie | EhPanda/App/Tools/Clients/CookieClient.swift:109-115 | afterwards the slot holds exactly one cookie, with the new value, and no other slot changes |
| CookieJar.ReadSingle | EhPanda/App/Tools/Clients/CookieClient.swift:28-53 | a slot holding one cookie reads as that cookie's verdict, or empty if it does not take part |
| CookieJar.ReadFrame | EhPanda/App/Tools/Clients/CookieClient.swift:28-53 | two jars with the same slot read the same for it |
| CookieClient.WrittenReads | EhPanda/App/Tools/Clients/CookieClient.swift:109-115 | after set-or-edit into an empty or unexpired slot, the read reports the written value |
| CookieClient.ApiUid | EhPanda/App/Tools/Clients/CookieClient.swift:123-125 | the user id is non-empty iff the current host's member id reads ok or mystery |
| CookieClient.IsSameAccount | EhPanda/App/Tools/Clients/CookieClient.swift:126-130 | holds iff both hosts' member ids are non-empty and equal |
| CookieClient.SameAccountNeedsLiveIds | EhPanda/App/Tools/Clients/CookieClient.swift:126-130 | the same account on both hosts implies neither member id is absent or expired |
| CookieClient.ShouldFetchIgneous | EhPanda/App/Tools/Clients/CookieClient.swift:131-136 | holds iff the alternate host's member id and pass hash read ok or mystery and its igneous reads empty or expired |
| CookieClient.RemoveYay | EhPanda/App/Tools/Clients/CookieClient.swift:137-140 | the `yay` slots of the alternate and failover hosts end empty; nothing else changes |
| CookieClient.SyncExCookies | EhPanda/App/Tools/Clients/CookieClient.swift:141-154 | each of the failover host's identity slots is set-or-edited to the alternate host's raw value, empty or not; other slots are unchanged |
| CookieClient.SyncReadsAlternateHost | EhPanda/App/Tools/Clients/CookieClient.swift:147-153 | writing the failover host never changes what the sync later reads from the alternate host |
| CookieClient.SyncSteps | EhPanda/App/Tools/Clients/CookieClient.swift:147-153 | three successive set-or-edits on distinct failover slots each keep their result to the end |
| CookieClient.SyncFrame | EhPanda/App/Tools/Clients/CookieClient.swift:147-153 | three single-slot writes together change only the three slots |
| CookieClient.SyncMirrorsRawValues | EhPanda/App/Tools/Clients/CookieClient.swift:141-154 | after a sync the failover host reads what the alternate host read, for each identity cookie whose failover slot was empty or unexpired |
| CookieClient.IgnoreOffensive | EhPanda/App/Tools/Clients/CookieClient.swift:155-158 | the `nw` slots of both gallery hosts end holding "1"; nothing else changes |
| CookieClient.CopyCredentials | EhPanda/App/Tools/Clients/CookieClient.swift:169-174 | member id and pass hash of one host are set-or-edited into the other; only those two slots change |
| CookieClient.FulfillAnotherHostField | EhPanda/App/Tools/Clients/CookieClient.swift:159-176 | at most one direction fires, gallery to alternate first; otherwise the jar is unchanged |
| CookieClient.FulfillIsNoOpWhenBothPopulated | EhPanda/App/Tools/Clients/CookieClient.swift:169-176 | when both hosts have both credentials nothing changes |
| CookieClient.FulfillEhToExReadsBack | EhPanda/App/Tools/Clients/CookieClient.swift:169-171 | after copying gallery to alternate, the alternate host reads the gallery host's values |
| CookieClient.FulfillExToEhReadsBack | EhPanda/App/Tools/Clients/CookieClient.swift:172-174 | after copying alternate to gallery, the gallery host reads the alternate host's values |
| CookieClient.SplitAll | EhPanda/App/Tools/Clients/CookieClient.swift:220-221 | every part yields at least one fragment, and no fragment contains the separator |
| CookieClient.Fragments | EhPanda/App/Tools/Clients/CookieClient.swift:220-221 | a header yields at least one fragment, and no fragment contains `"; "` |
| CookieClient.LastValue | EhPanda/App/Tools/Clients/CookieClient.swift:221-231 | there is no value exactly when no fragment contains `name=` |
| CookieClient.LastValueFromLastNaming | EhPanda/App/Tools/Clients/CookieClient.swift:221-231 | the value is the text after `name=` in the last fragment containing it |
| CookieClient.WriteIdentity | EhPanda/App/Tools/Clients/CookieClient.swift:226-230 | one try writes the slot only if it is not the gallery host's igneous and the fragment names it, then with the text after `name=`, fresh at `/`; no other slot changes |
| CookieClient.WritePairsSlot | EhPanda/App/Tools/Clients/CookieClient.swift:222-231 | one fragment writes a slot iff the slot is among the tried pairs, is not the gallery host's igneous, and the fragment names it |
| CookieClient.CredentialsSlot | EhPanda/App/Tools/Clients/CookieClient.swift:221-233 | across all fragments, the last fragment naming a cookie decides its target slots; non-targets never change |
| CookieClient.SetCredentials | EhPanda/App/Tools/Clients/CookieClient.swift:218-234 | a missing header changes nothing; each target slot ends with the last value found for its name, fresh with path `/`; all other slots are unchanged |
| CookieClient.SetCredentialsKeepsEhIgneous | EhPanda/App/Tools/Clients/CookieClient.swift:228 | igneous is never written to the gallery host |
| CookieClient.SetCredentialsThenRead | EhPanda/App/Tools/Clients/CookieClient.swift:218-234 | a non-empty identity value from the header is what the target host then reads |
| CookieClient.SkipServerSlot | EhPanda/App/Tools/Clients/CookieClient.swift:237-247 | the last fragment naming `skipserver` decides the host's slot; no other slot changes |
| CookieClient.SetSkipServer | EhPanda/App/Tools/Clients/CookieClient.swift:235-248 | the current host's `skipserver` ends with the last value found, path `/s/`; nothing else changes, and a missing header changes nothing |
| DetailSearch.Initial | EhPanda/View/Detail/DetailSearch/DetailSearchReducer.swift:25-40 | a fresh screen has no route, no keywords, no galleries, and both loading states idle |
| DetailSearch.InsertGalleries | EhPanda/View/Detail/DetailSearch/DetailSearchReducer.swift:42-48 | the old list is kept as a prefix, and at most the batch's length is added |
| DetailSearch.InsertGalleriesMembers | EhPanda/View/Detail/DetailSearch/DetailSearchReducer.swift:42-48 | the result holds exactly the old galleries and the batch's |
| DetailSearch.InsertGalleriesNoDuplicates | EhPanda/View/Detail/DetailSearch/DetailSearchReducer.swift:42-48 | no appended gallery was listed before or is appended twice, so a duplicate-free list stays duplicate-free |
| DetailSearch.InsertGalleriesKeepsBatchOrder | EhPanda/View/Detail/DetailSearch/DetailSearchReducer.swift:42-48 | the appended galleries form a subsequence of the batch (exact order: the next row) |
| DetailSearch.InsertGalleriesAppendsFirstOccurrences | EhPanda/View/Detail/DetailSearch/DetailSearchReducer.swift:42-48 | the merge appends exactly the batch's galleries that are not yet listed, each at its first occurrence in the batch, in batch order |
| DetailSearch.InsertGalleriesLoop | EhPanda/View/Detail/DetailSearch/DetailSearchReducer.swift:42-48 | the loop with a containment test computes the same merge |
| DetailSearch.InsertKnownGalleries | EhPanda/View/Detail/DetailSearch/DetailSearchReducer.swift:42-48 | a batch of already-listed galleries changes nothing |
| DetailSearch.InsertGalleriesIdempotent | EhPanda/View/Detail/DetailSearch/DetailSearchReducer.swift:42-48 | merging a batch twice equals merging it once |
| DetailSearch.InsertFreshGalleries | EhPanda/View/Detail/DetailSearch/DetailSearchReducer.swift:42-48 | a duplicate-free batch disjoint from the list is appended whole |
| DetailSearch.BindStep | EhPanda/View/Detail/DetailSearch/DetailSearchReducer.swift:71-87 | dismissing a presented route asks for the sub-state clear; a changed non-empty keyword becomes `lastKeyword`, an empty one leaves it |
| DetailSearch.SetNavigationStep | EhPanda/View/Detail/DetailSearch/DetailSearchReducer.swift:89-91 | the route is assigned; the sub-state clear is sent iff the route is nil |
| DetailSearch.FetchGalleriesStep | EhPanda/View/Detail/DetailSearch/DetailSearchReducer.swift:105-118 | nothing while loading; otherwise a supplied keyword, even empty, becomes both keywords, the cursor is reset, and one first-page request with `lastKeyword` is issued |
| DetailSearch.FetchGalleriesDoneStep | EhPanda/View/Detail/DetailSearch/DetailSearchReducer.swift:120-135 | a completion always ends the first-page load and never touches route, keywords or footer; the list and cursor change, and a cache write happens, exactly when a non-empty page arrives; otherwise the error (not-found for an empty page) is recorded, and a continuation is sent iff the page was empty and its cursor has a next page |
| DetailSearch.FetchMoreGalleriesStep | EhPanda/View/Detail/DetailSearch/DetailSearchReducer.swift:137-152 | only the footer state changes; a request is issued iff the guard holds, only from a footer that is not loading, which it leaves loading, anchored on the last listed gallery |
| DetailSearch.FetchMoreGalleriesDoneStep | EhPanda/View/Detail/DetailSearch/DetailSearchReducer.swift:154-174 | a page is merged, its cursor stored and only its galleries cached; it continues iff it is empty with a next page; a non-empty page settles the first-page state to idle; a failure touches only the footer |
| DetailSearch.Step | EhPanda/View/Detail/DetailSearch/DetailSearchReducer.swift:84-184 | teardown cancels both requests; the sub-state clear tears down the children; child actions do nothing; only navigation and bindings touch the route |
| DetailSearch.StepKeepsConsistent | EhPanda/View/Detail/DetailSearch/DetailSearchReducer.swift:70-184 | every step keeps the list duplicate-free and a non-empty keyword equal to `lastKeyword`, given a duplicate-free first page |
| DetailSearch.InitialConsistent | EhPanda/View/Detail/DetailSearch/DetailSearchReducer.swift:38-40 | the fresh state satisfies that invariant |
| DetailSearch.RequestOnlyWhenIdle | EhPanda/View/Detail/DetailSearch/DetailSearchReducer.swift:105-152 | a request is issued only from a slot of its kind that is not loading (idle or failed), which it leaves loading |
| DetailSearch.SecondSearchWhileFirstRuns | EhPanda/View/Detail/DetailSearch/DetailSearchReducer.swift:105-169 | a non-empty next page arriving during a search sets the first-page state to idle, so a second search is issued before the first completes |
| DetailSearch.RequestsUseLastKeyword | EhPanda/View/Detail/DetailSearch/DetailSearchReducer.swift:105-152 | every search request carries the remembered keyword and the stored filter |
| DetailSearch.RepeatedPageAddsNothing | EhPanda/View/Detail/DetailSearch/DetailSearchReducer.swift:154-160 | the same page delivered twice adds its galleries once |
| DetailSearch.SearchScenario | EhPanda/View/Detail/DetailSearch/DetailSearchReducer.swift:105-169 | full first page, empty second page with more to come, final page of new galleries: continuation is automatic, the list is first page then final page, both states end idle, nothing more is asked |
| DetailSearch.EmptyFirstPageContinuation | EhPanda/View/Detail/DetailSearch/DetailSearchReducer.swift:105-152 | after an empty first page the continuation consults the reset cursor and is anchored on the previous search's last gallery |
| DetailSearch.EmptyFirstSearchStops | EhPanda/View/Detail/DetailSearch/DetailSearchReducer.swift:105-152 | on a screen that has listed nothing, an empty first page ends the search with the footer idle |
| Popular.Initial | EhPanda/View/Home/Popular/PopularReducer.swift:20-36 | a fresh screen has no route, no keyword, no galleries and is idle |
| Popular.FilterByTitle | EhPanda/View/Home/Popular/PopularReducer.swift:26 | never yields more galleries than the list |
| Popular.FilterByTitleMembers | EhPanda/View/Home/Popular/PopularReducer.swift:26 | keeps exactly the listed galleries whose titles contain the keyword |
| Popular.FilterByTitleAppend | EhPanda/View/Home/Popular/PopularReducer.swift:26 | the filter of a concatenation is the concatenation of the filters, so it decides gallery by gallery |
| Popular.FilterByTitleIsSubsequence | EhPanda/View/Home/Popular/PopularReducer.swift:26 | the filtered list keeps list order |
| Popular.FilterByTitleIdempotent | EhPanda/View/Home/Popular/PopularReducer.swift:26 | filtering twice equals filtering once |
| Popular.FilterByTitleKeepsAll | EhPanda/View/Home/Popular/PopularReducer.swift:26 | when every title matches, the whole list is kept |
| Popular.EmptyKeywordMatchesNone | EhPanda/View/Home/Popular/PopularReducer.swift:24-27 | no title contains the empty keyword, so it is the guard that makes an empty keyword show every gallery |
| Popular.FilterByTitleCounts | EhPanda/View/Home/Popular/PopularReducer.swift:26 | each matching gallery is kept as many times as it is listed, and the others are dropped |
| Popular.FilteredGalleries | EhPanda/View/Home/Popular/PopularReducer.swift:24-27 | the whole list for an empty keyword, else each matching gallery as many times as it is listed and no other, always in list order |
| Popular.BindStep | EhPanda/View/Home/Popular/PopularReducer.swift:56-64 | after a route binding, a nil route asks for the sub-state clear even if nothing was presented |
| Popular.SetNavigationStep | EhPanda/View/Home/Popular/PopularReducer.swift:66-68 | the route is assigned; the sub-state clear is sent iff the route is nil |
| Popular.FetchGalleriesStep | EhPanda/View/Home/Popular/PopularReducer.swift:78-86 | the screen is loading afterwards and nothing else changes; one request is issued iff it was not loading before |
| Popular.FetchGalleriesDoneStep | EhPanda/View/Home/Popular/PopularReducer.swift:88-101 | a completion always ends the load and never touches route or keyword; the galleries change, only to the delivered non-empty list, and a cache write happens, exactly when the screen ends idle; otherwise the error (not-found for an empty list) is recorded and a listed screen stays listed |
| Popular.Step | EhPanda/View/Home/Popular/PopularReducer.swift:58-108 | teardown cancels only the list request; the sub-state clear tears down the detail child; only navigation and bindings touch route and keyword |
| Popular.RequestOnlyWhenIdle | EhPanda/View/Home/Popular/PopularReducer.swift:78-86 | the list request is issued only when not loading, and leaves the screen loading |
| Popular.ListNeverEmptied | EhPanda/View/Home/Popular/PopularReducer.swift:88-101 | once galleries are listed, no step empties the list |
| Popular.DismissalClearsSubStates | EhPanda/View/Home/Popular/PopularReducer.swift:60-73 | a nil route by binding or by navigation sends the clear, and the clear tears down the detail child |
| Login.Initial | EhPanda/View/Setting/Login/LoginReducer.swift:28-33 | a fresh screen has empty fields, no route or focus, and is idle |
| Login.BindStep | EhPanda/View/Setting/Login/LoginReducer.swift:57-62 | a binding writes one field and emits nothing |
| Login.LogInStep | EhPanda/View/Setting/Login/LoginReducer.swift:35-82 | goes ahead iff both fields are filled or a login is loading; going ahead clears focus, loads, plays a soft haptic and submits the fields |
| Login.LoginDoneStep | EhPanda/View/Setting/Login/LoginReducer.swift:84-97 | the route is cleared; idle iff the session check passes, else failed-unknown, whatever the result; credentials are handed on iff a response arrived |
| Login.Step | EhPanda/View/Setting/Login/LoginReducer.swift:59-98 | teardown cancels only the login; navigation only assigns the route; only a finished login hands on credentials |
| Login.LoginRequestsCarryCredentials | EhPanda/View/Setting/Login/LoginReducer.swift:71-82 | a submitted login carries the fields, both filled unless a login was already loading |
| Login.FilledFieldsSubmit | EhPanda/View/Setting/Login/LoginReducer.swift:35-82 | from a screen that is not loading, binding a username and a password and then logging in submits exactly those values iff both are non-empty (the button is disabled iff one is empty), and otherwise does nothing |
| Login.LoginWhileLoadingResubmits | EhPanda/View/Setting/Login/LoginReducer.swift:72 | while loading, `login` submits again even with empty fields |
| Login.LoginDoneStoresCredentials | EhPanda/View/Setting/Login/LoginReducer.swift:94-97 | running a finished login's effects stores the response's credentials, or leaves the jar as it was when no response arrived |
| Login.LoginStoresMemberId | EhPanda/View/Setting/Login/LoginReducer.swift:94-97 | a login response naming a member id makes both gallery hosts read that id |

## Left out

- Foundation's `HTTPCookieStorage`: `cookies(for:)` is modelled as the cookies whose host field equals the url. Domain and path matching are not modelled.
- Foundation's `HTTPCookieStorage.setCookie`: modelled by its replace-same-host-name-path rule. Cookie acceptance policies are not modelled.
- CookieJar.Store: assumes `cookies(for:)` lists cookies in insertion order, and that a stored cookie moves to the end of that order. Foundation does not document this order. The reads take the last cookie in it, so "last write wins" is a property of this assumed order.
- CookieJar.SetCookie: the new cookie is last in its slot only under that assumed order. A slot that also holds a usable cookie of the same name under another path (such as `/s/`) reads as the new cookie here; in the system the winner depends on Foundation's order. The same holds for `CookieClient.WrittenReads`, `CookieClient.SetCredentialsThenRead` and `Login.LoginStoresMemberId`.
- `HTTPCookie(properties:)` failing is not modelled: `setCookie` always stores, and `initializeCookie` never falls back to the empty `HTTPCookie()`.
- The values of `Defaults.Cookie.*` and of the mystery sentinel are not part of this model. Fixed strings stand in for them, and only their distinctness matters.
- `Defaults.URL.host`, the current gallery host, is a parameter.
- `Date` is an integer `now`. `.oneYear` is 365 days of seconds.
- `loadCookiesState`, `setCookies` and `getCookiesDescription` are not modelled. They depend on `CookiesState` and `GalleryHost`, which are not part of this model, or only format text.
- `didLogin` comes from `CookieUtil`, which is not part of this model, so it is an input of the login step.
- `Gallery`'s `Equatable` is not part of this model. Dafny's `==` on `Feature.Gallery` is whole-value equality, and `DetailSearch.InsertGalleries`, `DetailSearch.InsertGalleriesNoDuplicates` and `DetailSearch.RepeatedPageAddsNothing` use it. If the app's equality compares only `gid`, the app drops a gallery that shares an id with a listed one but differs elsewhere, while the model keeps both. So the de-duplication here is finer than the app's.
- Unicode: strings are sequences of code points, with no canonical equivalence, normalisation or grapheme clustering. Foundation's `range(of:)`, `components(separatedBy:)` and case-insensitive comparison treat canonically equivalent strings as equal and never split a composed character. So for non-ASCII text, such as gallery titles in `Popular.FilterByTitle` or unusual cookie values, a match or split here can differ from the app's.
- `caseInsensitiveContains` is a `String` extension that is not part of this model. It is modelled as `range(of:options:.caseInsensitive)`, which folds case for all of Unicode and finds nothing for an empty pattern. `Text.Lower` folds only ASCII letters.
- Text.Contains: holds for the empty pattern (at index 0), while Foundation's `range(of: "")` is nil. Every caller outside `Text.ContainsIgnoringCase` passes a non-empty pattern, and `Text.ContainsIgnoringCase` excludes the empty one.
- `PageNumber` internals are not modelled. `hasNextPage()` and `resetPages()` are uninterpreted functions supplied with each step.
- Network requests, the database filter and cache, and haptics are not modelled beyond effect tokens. The filter is an input.
- Async execution and cancellation (`.run`, `.cancellable`, `.cancel`) become tokens, so in-flight tasks are not modelled. As a result, discarding stale completions is not modelled.
- Child screens (`DetailReducer`, `FiltersReducer`, `QuickSearchReducer`), `Scope`, `Heap`, and the `.haptics` route modifiers are not modelled. Their resets in `clearSubStates` are not modelled beyond the teardown actions sent.
- Bindings cover only the fields the views bind: route and keyword on the listing screens, and route, focus, username and password on the login screen.
- `loginButtonColor` is not modelled: it computes a view colour.
- A concrete header example with explicit strings is not proved. The cookie-client lemmas state the scan for any header instead.
