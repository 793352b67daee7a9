/**
 * The accessors and synchronisation routines of `CookieClient` built on the
 * jar primitives: `apiuid`, `isSameAccount`, `shouldFetchIgneous`,
 * `removeYay`, `syncExCookies`, `ignoreOffensive`, `fulfillAnotherHostField`,
 * and the two scans of a `Set-Cookie` header text, `setCredentials` and
 * `setSkipServer`.
 */
module CookieClient {
  import opened Wrappers
  import opened Text
  import opened CookieJar

  /** The three cookies that together make up a session. */
  predicate IsIdentityKey(key: string) {
    key == MemberId || key == PassHash || key == Igneous
  }

  /** The raw text a read of `key` on `url` reports. */
  function Raw(jar: Jar, url: Url, key: string, now: int): string {
    GetCookie(jar, url, key, now).rawValue
  }

  /**
   * The slot of `url`/`key` in `r` holds exactly the one cookie that
   * `setOrEditCookie` of `value` into `jar` leaves there.
   */
  predicate SetTo(jar: Jar, r: Jar, url: Url, key: string, value: string, now: int) {
    NamedIn(r, url, key) == [Written(jar, url, key, value, now)]
  }

  /** The slot was empty, or its last cookie has an expiry after `now`. */
  predicate LiveOrEmpty(jar: Jar, url: Url, key: string, now: int) {
    var slot := NamedIn(jar, url, key);
    |slot| == 0 || (Last(slot).expires.Some? && now < Last(slot).expires.value)
  }

  /** After `setOrEditCookie` into a slot that was empty or unexpired, a read reports the written value. */
  lemma WrittenReads(jar: Jar, r: Jar, url: Url, key: string, value: string, now: int)
    requires SetTo(jar, r, url, key, value, now)
    requires LiveOrEmpty(jar, url, key, now)
    ensures Raw(r, url, key, now) == value
  {
    var c := Written(jar, url, key, value, now);
    ReadSingle(r, url, key, c, now);
    assert c.expires.Some? && now < c.expires.value;
  }

  /** Every slot outside `touched` is the same in `jar` and `jar'`. */
  ghost predicate SameElsewhere(jar: Jar, jar': Jar, touched: set<(Url, string)>) {
    forall u, k | (u, k) !in touched :: NamedIn(jar', u, k) == NamedIn(jar, u, k)
  }

  lemma DistinctNames()
    ensures MemberId != PassHash && MemberId != Igneous && PassHash != Igneous
    ensures Yay != MemberId && IgnoreOffensiveName != MemberId && SkipServer != MemberId
  {
    assert MemberId[4] == 'm' && PassHash[4] == 'p';
    assert Igneous[0] == 'i' && Igneous[1] == 'g' && MemberId[1] == 'p';
  }

  /** What `setOrEditCookie` leaves in a slot depends only on that slot. */
  lemma WrittenFrame(jar: Jar, jar': Jar, url: Url, key: string, value: string, now: int)
    requires NamedIn(jar', url, key) == NamedIn(jar, url, key)
    ensures Written(jar', url, key, value, now) == Written(jar, url, key, value, now)
  {
  }

  /*************************************************************************
   * Accessors
   *************************************************************************/

  /** `apiuid`: the member id on the current gallery host `host`, or "" when there is no usable one. */
  function ApiUid(jar: Jar, host: Url, now: int): (r: string)
    ensures r != "" <==> GetCookie(jar, host, MemberId, now).status in {Ok, Mystery}
  {
    Raw(jar, host, MemberId, now)
  }

  /** `isSameAccount`: both hosts report the same non-empty member id. */
  predicate IsSameAccount(jar: Jar, now: int)
    ensures IsSameAccount(jar, now) <==>
      Raw(jar, EHentai, MemberId, now) != "" && Raw(jar, EHentai, MemberId, now) == Raw(jar, ExHentai, MemberId, now)
  {
    var ehUid := Raw(jar, EHentai, MemberId, now);
    var exUid := Raw(jar, ExHentai, MemberId, now);
    if ehUid != "" && exUid != "" then ehUid == exUid else false
  }

  /**
   * The same account means both hosts hold a member id cookie that is not
   * expired: an expired or absent one reads as "".
   */
  lemma SameAccountNeedsLiveIds(jar: Jar, now: int)
    requires IsSameAccount(jar, now)
    ensures GetCookie(jar, EHentai, MemberId, now).status in {Ok, Mystery}
    ensures GetCookie(jar, ExHentai, MemberId, now).status in {Ok, Mystery}
  {
  }

  /** `shouldFetchIgneous`: the alternate host has member id and pass hash but no igneous. */
  predicate ShouldFetchIgneous(jar: Jar, now: int)
    ensures ShouldFetchIgneous(jar, now) <==>
      && GetCookie(jar, ExHentai, MemberId, now).status in {Ok, Mystery}
      && GetCookie(jar, ExHentai, PassHash, now).status in {Ok, Mystery}
      && GetCookie(jar, ExHentai, Igneous, now).status in {Empty, Expired}
  {
    Raw(jar, ExHentai, MemberId, now) != ""
    && Raw(jar, ExHentai, PassHash, now) != ""
    && Raw(jar, ExHentai, Igneous, now) == ""
  }

  /*************************************************************************
   * Synchronisation
   *************************************************************************/

  /** `removeYay`: the `yay` cookies of both alternate hosts are deleted and nothing else. */
  function RemoveYay(jar: Jar): (r: Jar)
    ensures NamedIn(r, ExHentai, Yay) == [] && NamedIn(r, SExHentai, Yay) == []
    ensures SameElsewhere(jar, r, {(ExHentai, Yay), (SExHentai, Yay)})
  {
    RemoveCookie(RemoveCookie(jar, ExHentai, Yay), SExHentai, Yay)
  }

  /**
   * `syncExCookies`: each identity cookie of the alternate host is copied, one
   * at a time through `setOrEditCookie`, to the failover host, empty or not.
   */
  function SyncExCookies(jar: Jar, now: int): (r: Jar)
    ensures SetTo(jar, r, SExHentai, MemberId, Raw(jar, ExHentai, MemberId, now), now)
    ensures SetTo(jar, r, SExHentai, PassHash, Raw(jar, ExHentai, PassHash, now), now)
    ensures SetTo(jar, r, SExHentai, Igneous, Raw(jar, ExHentai, Igneous, now), now)
    ensures SameElsewhere(jar, r, {(SExHentai, MemberId), (SExHentai, PassHash), (SExHentai, Igneous)})
  {
    var memberId := Raw(jar, ExHentai, MemberId, now);
    var j1 := SetOrEditCookie(jar, SExHentai, MemberId, memberId, now);
    var passHash := Raw(j1, ExHentai, PassHash, now);
    var j2 := SetOrEditCookie(j1, SExHentai, PassHash, passHash, now);
    var igneous := Raw(j2, ExHentai, Igneous, now);
    var j3 := SetOrEditCookie(j2, SExHentai, Igneous, igneous, now);
    SyncReadsAlternateHost(jar, now);
    SyncSteps(jar, memberId, passHash, igneous, now);
    j3
  }

  /** The writes of `syncExCookies` leave the alternate host's cookies, which it reads, alone. */
  lemma SyncReadsAlternateHost(jar: Jar, now: int)
    ensures var j1 := SetOrEditCookie(jar, SExHentai, MemberId, Raw(jar, ExHentai, MemberId, now), now);
      && Raw(j1, ExHentai, PassHash, now) == Raw(jar, ExHentai, PassHash, now)
      && var j2 := SetOrEditCookie(j1, SExHentai, PassHash, Raw(j1, ExHentai, PassHash, now), now);
         Raw(j2, ExHentai, Igneous, now) == Raw(jar, ExHentai, Igneous, now)
  {
    var j1 := SetOrEditCookie(jar, SExHentai, MemberId, Raw(jar, ExHentai, MemberId, now), now);
    var j2 := SetOrEditCookie(j1, SExHentai, PassHash, Raw(j1, ExHentai, PassHash, now), now);
    ReadFrame(jar, j1, ExHentai, PassHash, now);
    ReadFrame(jar, j1, ExHentai, Igneous, now);
    ReadFrame(j1, j2, ExHentai, Igneous, now);
  }

  /** The three writes of `syncExCookies` each fill their own slot and leave the others alone. */
  lemma SyncSteps(jar: Jar, a: string, b: string, c: string, now: int)
    ensures var j3 := SetOrEditCookie(SetOrEditCookie(SetOrEditCookie(jar,
        SExHentai, MemberId, a, now), SExHentai, PassHash, b, now), SExHentai, Igneous, c, now);
      && SetTo(jar, j3, SExHentai, MemberId, a, now)
      && SetTo(jar, j3, SExHentai, PassHash, b, now)
      && SetTo(jar, j3, SExHentai, Igneous, c, now)
      && SameElsewhere(jar, j3, {(SExHentai, MemberId), (SExHentai, PassHash), (SExHentai, Igneous)})
  {
    var j1 := SetOrEditCookie(jar, SExHentai, MemberId, a, now);
    var j2 := SetOrEditCookie(j1, SExHentai, PassHash, b, now);
    var j3 := SetOrEditCookie(j2, SExHentai, Igneous, c, now);
    DistinctNames();
    SyncFrame(jar, j1, j2, j3);
    assert NamedIn(j2, SExHentai, PassHash) == NamedIn(j3, SExHentai, PassHash);
    WrittenFrame(jar, j1, SExHentai, PassHash, b, now);
    assert NamedIn(j2, SExHentai, Igneous) == NamedIn(jar, SExHentai, Igneous);
    WrittenFrame(jar, j2, SExHentai, Igneous, c, now);
  }

  /** Three writes to three distinct failover slots leave every other slot alone. */
  lemma SyncFrame(jar: Jar, j1: Jar, j2: Jar, j3: Jar)
    requires SameElsewhere(jar, j1, {(SExHentai, MemberId)})
    requires SameElsewhere(j1, j2, {(SExHentai, PassHash)})
    requires SameElsewhere(j2, j3, {(SExHentai, Igneous)})
    ensures NamedIn(j3, SExHentai, MemberId) == NamedIn(j1, SExHentai, MemberId)
    ensures SameElsewhere(jar, j3, {(SExHentai, MemberId), (SExHentai, PassHash), (SExHentai, Igneous)})
  {
    DistinctNames();
    assert NamedIn(j3, SExHentai, MemberId) == NamedIn(j2, SExHentai, MemberId);
  }

  /**
   * After a sync, the failover host reads the same raw text as the alternate
   * host for every identity cookie whose failover slot was empty or whose last
   * cookie there had not expired (an edited cookie keeps its old expiry).
   */
  lemma SyncMirrorsRawValues(jar: Jar, now: int, key: string)
    requires IsIdentityKey(key)
    requires LiveOrEmpty(jar, SExHentai, key, now)
    ensures Raw(SyncExCookies(jar, now), SExHentai, key, now) == Raw(jar, ExHentai, key, now)
  {
    WrittenReads(jar, SyncExCookies(jar, now), SExHentai, key, Raw(jar, ExHentai, key, now), now);
  }

  /** `ignoreOffensive`: the `nw` cookie is set or edited to "1" on both gallery hosts. */
  function IgnoreOffensive(jar: Jar, now: int): (r: Jar)
    ensures SetTo(jar, r, EHentai, IgnoreOffensiveName, "1", now)
    ensures SetTo(jar, r, ExHentai, IgnoreOffensiveName, "1", now)
    ensures SameElsewhere(jar, r, {(EHentai, IgnoreOffensiveName), (ExHentai, IgnoreOffensiveName)})
  {
    var j1 := SetOrEditCookie(jar, EHentai, IgnoreOffensiveName, "1", now);
    var r := SetOrEditCookie(j1, ExHentai, IgnoreOffensiveName, "1", now);
    WrittenFrame(jar, j1, ExHentai, IgnoreOffensiveName, "1", now);
    r
  }

  /** The host has a non-empty member id and pass hash. */
  predicate HasBoth(jar: Jar, url: Url, now: int) {
    Raw(jar, url, MemberId, now) != "" && Raw(jar, url, PassHash, now) != ""
  }

  /** `fulfillAnotherHostField` copies the gallery host's credentials to the alternate host. */
  predicate CopiesEhToEx(jar: Jar, now: int) {
    HasBoth(jar, EHentai, now) && !HasBoth(jar, ExHentai, now)
  }

  /** `fulfillAnotherHostField` copies the alternate host's credentials to the gallery host. */
  predicate CopiesExToEh(jar: Jar, now: int) {
    !CopiesEhToEx(jar, now) && HasBoth(jar, ExHentai, now) && !HasBoth(jar, EHentai, now)
  }

  /** Copies member id and pass hash from `src` into `dst` with `setOrEditCookie`. */
  function CopyCredentials(jar: Jar, src: Url, dst: Url, now: int): (r: Jar)
    requires src != dst
    ensures SetTo(jar, r, dst, MemberId, Raw(jar, src, MemberId, now), now)
    ensures SetTo(jar, r, dst, PassHash, Raw(jar, src, PassHash, now), now)
    ensures SameElsewhere(jar, r, {(dst, MemberId), (dst, PassHash)})
  {
    DistinctNames();
    var memberId := Raw(jar, src, MemberId, now);
    var passHash := Raw(jar, src, PassHash, now);
    var j1 := SetOrEditCookie(jar, dst, MemberId, memberId, now);
    var r := SetOrEditCookie(j1, dst, PassHash, passHash, now);
    WrittenFrame(jar, j1, dst, PassHash, passHash, now);
    r
  }

  /**
   * `fulfillAnotherHostField`: at most one direction fires. A host with both
   * member id and pass hash fills in a host that lacks either, the gallery
   * host taking precedence; otherwise nothing changes.
   */
  function FulfillAnotherHostField(jar: Jar, now: int): (r: Jar)
    ensures CopiesEhToEx(jar, now) ==>
      && SetTo(jar, r, ExHentai, MemberId, Raw(jar, EHentai, MemberId, now), now)
      && SetTo(jar, r, ExHentai, PassHash, Raw(jar, EHentai, PassHash, now), now)
      && SameElsewhere(jar, r, {(ExHentai, MemberId), (ExHentai, PassHash)})
    ensures CopiesExToEh(jar, now) ==>
      && SetTo(jar, r, EHentai, MemberId, Raw(jar, ExHentai, MemberId, now), now)
      && SetTo(jar, r, EHentai, PassHash, Raw(jar, ExHentai, PassHash, now), now)
      && SameElsewhere(jar, r, {(EHentai, MemberId), (EHentai, PassHash)})
    ensures !CopiesEhToEx(jar, now) && !CopiesExToEh(jar, now) ==> r == jar
  {
    var ehMemberId := Raw(jar, EHentai, MemberId, now);
    var ehPassHash := Raw(jar, EHentai, PassHash, now);
    var exMemberId := Raw(jar, ExHentai, MemberId, now);
    var exPassHash := Raw(jar, ExHentai, PassHash, now);
    if ehMemberId != "" && ehPassHash != "" && (exMemberId == "" || exPassHash == "") then
      CopyCredentials(jar, EHentai, ExHentai, now)
    else if exMemberId != "" && exPassHash != "" && (ehMemberId == "" || ehPassHash == "") then
      CopyCredentials(jar, ExHentai, EHentai, now)
    else
      jar
  }

  /** When both hosts are already fully populated, `fulfillAnotherHostField` changes nothing. */
  lemma FulfillIsNoOpWhenBothPopulated(jar: Jar, now: int)
    requires HasBoth(jar, EHentai, now) && HasBoth(jar, ExHentai, now)
    ensures FulfillAnotherHostField(jar, now) == jar
  {
  }

  /**
   * When the gallery host's credentials are copied, the alternate host reads
   * them back, provided its slots were empty or unexpired (an edited cookie
   * keeps its old expiry).
   */
  lemma FulfillEhToExReadsBack(jar: Jar, now: int)
    requires CopiesEhToEx(jar, now)
    requires LiveOrEmpty(jar, ExHentai, MemberId, now) && LiveOrEmpty(jar, ExHentai, PassHash, now)
    ensures Raw(FulfillAnotherHostField(jar, now), ExHentai, MemberId, now) == Raw(jar, EHentai, MemberId, now)
    ensures Raw(FulfillAnotherHostField(jar, now), ExHentai, PassHash, now) == Raw(jar, EHentai, PassHash, now)
  {
    var r := FulfillAnotherHostField(jar, now);
    WrittenReads(jar, r, ExHentai, MemberId, Raw(jar, EHentai, MemberId, now), now);
    WrittenReads(jar, r, ExHentai, PassHash, Raw(jar, EHentai, PassHash, now), now);
  }

  /** The mirror image: the alternate host's credentials copied to the gallery host read back there. */
  lemma FulfillExToEhReadsBack(jar: Jar, now: int)
    requires CopiesExToEh(jar, now)
    requires LiveOrEmpty(jar, EHentai, MemberId, now) && LiveOrEmpty(jar, EHentai, PassHash, now)
    ensures Raw(FulfillAnotherHostField(jar, now), EHentai, MemberId, now) == Raw(jar, ExHentai, MemberId, now)
    ensures Raw(FulfillAnotherHostField(jar, now), EHentai, PassHash, now) == Raw(jar, ExHentai, PassHash, now)
  {
    var r := FulfillAnotherHostField(jar, now);
    WrittenReads(jar, r, EHentai, MemberId, Raw(jar, ExHentai, MemberId, now), now);
    WrittenReads(jar, r, EHentai, PassHash, Raw(jar, ExHentai, PassHash, now), now);
  }

  /*************************************************************************
   * Scanning a Set-Cookie header
   *************************************************************************/

  /** Splits every part on `sep` and concatenates the pieces (`flatMap { $0.components(separatedBy:) }`). */
  function SplitAll(parts: seq<string>, sep: string): (r: seq<string>)
    requires |sep| > 0
    ensures |r| >= |parts|
    ensures forall k | 0 <= k < |r| :: !Contains(r[k], sep)
  {
    if |parts| == 0 then [] else Split(parts[0], sep) + SplitAll(parts[1..], sep)
  }

  /** The fragments the scans look at: the header split on ", ", each piece split on "; ". */
  function Fragments(header: string): (r: seq<string>)
    ensures |r| > 0
    ensures forall k | 0 <= k < |r| :: !Contains(r[k], "; ")
  {
    SplitAll(Split(header, ", "), "; ")
  }

  /** The text after `pat` in the last fragment that contains `pat`. */
  function LastValue(frags: seq<string>, pat: string): (r: Option<string>)
    requires |pat| > 0
    ensures r.None? <==> forall k | 0 <= k < |frags| :: !Contains(frags[k], pat)
  {
    if |frags| == 0 then None
    else match After(frags[|frags| - 1], pat)
      case Some(v) => Some(v)
      case None =>
        assert forall k | 0 <= k < |frags| - 1 :: frags[..|frags| - 1][k] == frags[k];
        LastValue(frags[..|frags| - 1], pat)
  }

  /** `k` is the last fragment that contains `pat`. */
  predicate LastNaming(frags: seq<string>, pat: string, k: int) {
    && 0 <= k < |frags| && Contains(frags[k], pat)
    && forall j | k < j < |frags| :: !Contains(frags[j], pat)
  }

  /** The value found is the text after `pat` in the last fragment that contains it. */
  lemma {:induction false} LastValueFromLastNaming(frags: seq<string>, pat: string)
    requires |pat| > 0
    ensures forall k | LastNaming(frags, pat, k) :: LastValue(frags, pat) == After(frags[k], pat)
    decreases |frags|
  {
    if |frags| > 0 {
      var init := frags[..|frags| - 1];
      LastValueFromLastNaming(init, pat);
      forall k | LastNaming(frags, pat, k)
        ensures LastValue(frags, pat) == After(frags[k], pat)
      {
        if k < |frags| - 1 {
          assert !Contains(frags[|frags| - 1], pat);
          assert init[k] == frags[k];
          assert LastNaming(init, pat, k);
        }
      }
    }
  }

  /** The (host, name) pairs `setCredentials` tries for each fragment, in its loop order. */
  const CredentialPairs: seq<(Url, string)> := [
    (EHentai, MemberId), (EHentai, PassHash), (EHentai, Igneous),
    (ExHentai, MemberId), (ExHentai, PassHash), (ExHentai, Igneous)
  ]

  /** The slots `setCredentials` may write: igneous is never written to the gallery host. */
  predicate CredentialTarget(url: Url, key: string) {
    (url, key) in CredentialPairs && !(url == EHentai && key == Igneous)
  }

  /** One iteration of the innermost loop of `setCredentials`. */
  function WriteIdentity(jar: Jar, url: Url, key: string, frag: string, now: int): (r: Jar)
    ensures (url == EHentai && key == Igneous) || !Contains(frag, key + "=") ==> r == jar
    ensures !(url == EHentai && key == Igneous) && Contains(frag, key + "=") ==>
      |NamedIn(r, url, key)| > 0 && Last(NamedIn(r, url, key)) == Fresh(url, key, After(frag, key + "=").value, "/", now)
    ensures SameElsewhere(jar, r, {(url, key)})
  {
    if url == EHentai && key == Igneous then jar
    else match After(frag, key + "=")
      case None => jar
      case Some(v) => SetCookie(jar, url, key, v, "/", now)
  }

  /** The pairs of `pairs` tried in order against one fragment. */
  function WritePairs(jar: Jar, pairs: seq<(Url, string)>, frag: string, now: int): Jar {
    if |pairs| == 0 then jar
    else
      var (url, key) := pairs[|pairs| - 1];
      WriteIdentity(WritePairs(jar, pairs[..|pairs| - 1], frag, now), url, key, frag, now)
  }

  /** How trying `pairs` against one fragment changes a slot. */
  lemma {:induction false} WritePairsSlot(jar: Jar, pairs: seq<(Url, string)>, frag: string, url: Url, key: string, now: int)
    ensures var r := WritePairs(jar, pairs, frag, now);
      if (url, key) in pairs && !(url == EHentai && key == Igneous) && Contains(frag, key + "=") then
        |NamedIn(r, url, key)| > 0 && Last(NamedIn(r, url, key)) == Fresh(url, key, After(frag, key + "=").value, "/", now)
      else
        NamedIn(r, url, key) == NamedIn(jar, url, key)
  {
    if |pairs| > 0 {
      var init := pairs[..|pairs| - 1];
      var (u, k) := pairs[|pairs| - 1];
      WritePairsSlot(jar, init, frag, url, key, now);
      assert pairs == init + [(u, k)];
      assert (url, key) in pairs <==> (url, key) in init || (url, key) == (u, k);
    }
  }

  /** The writes `setCredentials` makes for one fragment. */
  function WriteFragment(jar: Jar, frag: string, now: int): Jar {
    WritePairs(jar, CredentialPairs, frag, now)
  }

  /** `setCredentials` over a sequence of fragments, first to last. */
  function CredentialsFrom(jar: Jar, frags: seq<string>, now: int): Jar {
    if |frags| == 0 then jar
    else WriteFragment(CredentialsFrom(jar, frags[..|frags| - 1], now), frags[|frags| - 1], now)
  }

  /** How scanning `frags` changes a slot: the last fragment naming it decides. */
  lemma {:induction false} CredentialsSlot(jar: Jar, frags: seq<string>, url: Url, key: string, now: int)
    ensures var r := CredentialsFrom(jar, frags, now);
      match LastValue(frags, key + "=")
      case Some(v) =>
        CredentialTarget(url, key) ==>
          |NamedIn(r, url, key)| > 0 && Last(NamedIn(r, url, key)) == Fresh(url, key, v, "/", now)
      case None => NamedIn(r, url, key) == NamedIn(jar, url, key)
    ensures !CredentialTarget(url, key) ==>
      NamedIn(CredentialsFrom(jar, frags, now), url, key) == NamedIn(jar, url, key)
  {
    if |frags| > 0 {
      var init := frags[..|frags| - 1];
      var frag := frags[|frags| - 1];
      CredentialsSlot(jar, init, url, key, now);
      WritePairsSlot(CredentialsFrom(jar, init, now), CredentialPairs, frag, url, key, now);
    }
  }

  /**
   * `setCredentials(response:)`: for every fragment of the header containing
   * `name=` for an identity cookie, the text after it is written to the
   * gallery and alternate hosts, except that igneous only goes to the
   * alternate host. The last such fragment decides each slot; a response
   * without the header changes nothing.
   */
  function SetCredentials(jar: Jar, header: Option<string>, now: int): (r: Jar)
    ensures header.None? ==> r == jar
    ensures forall url, key | !CredentialTarget(url, key) :: NamedIn(r, url, key) == NamedIn(jar, url, key)
    ensures header.Some? ==> forall url, key | CredentialTarget(url, key) ::
      match LastValue(Fragments(header.value), key + "=")
      case Some(v) => |NamedIn(r, url, key)| > 0 && Last(NamedIn(r, url, key)) == Fresh(url, key, v, "/", now)
      case None => NamedIn(r, url, key) == NamedIn(jar, url, key)
  {
    match header
    case None => jar
    case Some(h) =>
      var r := CredentialsFrom(jar, Fragments(h), now);
      forall url, key
        ensures !CredentialTarget(url, key) ==> NamedIn(r, url, key) == NamedIn(jar, url, key)
        ensures CredentialTarget(url, key) ==>
          match LastValue(Fragments(h), key + "=")
          case Some(v) => |NamedIn(r, url, key)| > 0 && Last(NamedIn(r, url, key)) == Fresh(url, key, v, "/", now)
          case None => NamedIn(r, url, key) == NamedIn(jar, url, key)
      {
        CredentialsSlot(jar, Fragments(h), url, key, now);
      }
      r
  }

  /** The igneous cookie of the gallery host is never touched by `setCredentials`. */
  lemma SetCredentialsKeepsEhIgneous(jar: Jar, header: Option<string>, now: int)
    ensures NamedIn(SetCredentials(jar, header, now), EHentai, Igneous) == NamedIn(jar, EHentai, Igneous)
  {
  }

  /**
   * A non-empty identity value found in the header is what a later read on a
   * target host reports.
   */
  lemma SetCredentialsThenRead(jar: Jar, header: string, url: Url, key: string, now: int)
    requires CredentialTarget(url, key)
    requires LastValue(Fragments(header), key + "=").Some?
    requires LastValue(Fragments(header), key + "=").value != ""
    ensures Raw(SetCredentials(jar, Some(header), now), url, key, now)
      == LastValue(Fragments(header), key + "=").value
  {
    var r := SetCredentials(jar, Some(header), now);
    var v := LastValue(Fragments(header), key + "=").value;
    CredentialsSlot(jar, Fragments(header), url, key, now);
    assert r == CredentialsFrom(jar, Fragments(header), now);
    var slot := NamedIn(r, url, key);
    GetCookieReadsNamed(r, url, key, now);
    assert slot == slot[..|slot| - 1] + [Fresh(url, key, v, "/", now)];
    ReadEndsWith(slot[..|slot| - 1], Fresh(url, key, v, "/", now), key, now);
  }

  /** `setSkipServer` over a sequence of fragments, first to last. */
  function SkipServerFrom(jar: Jar, host: Url, frags: seq<string>, now: int): Jar {
    if |frags| == 0 then jar
    else
      var prior := SkipServerFrom(jar, host, frags[..|frags| - 1], now);
      match After(frags[|frags| - 1], SkipServer + "=")
      case None => prior
      case Some(v) => SetCookie(prior, host, SkipServer, v, "/s/", now)
  }

  lemma {:induction false} SkipServerSlot(jar: Jar, host: Url, frags: seq<string>, now: int)
    ensures var r := SkipServerFrom(jar, host, frags, now);
      match LastValue(frags, SkipServer + "=")
      case Some(v) => |NamedIn(r, host, SkipServer)| > 0 && Last(NamedIn(r, host, SkipServer)) == Fresh(host, SkipServer, v, "/s/", now)
      case None => NamedIn(r, host, SkipServer) == NamedIn(jar, host, SkipServer)
    ensures SameElsewhere(jar, SkipServerFrom(jar, host, frags, now), {(host, SkipServer)})
  {
    if |frags| > 0 {
      SkipServerSlot(jar, host, frags[..|frags| - 1], now);
    }
  }

  /**
   * `setSkipServer(response:)`: the text after `skipserver=` in the last
   * fragment containing it is written to the current host under path `/s/`;
   * nothing else changes, and a response without the header changes nothing.
   */
  function SetSkipServer(jar: Jar, host: Url, header: Option<string>, now: int): (r: Jar)
    ensures header.None? ==> r == jar
    ensures SameElsewhere(jar, r, {(host, SkipServer)})
    ensures header.Some? ==>
      match LastValue(Fragments(header.value), SkipServer + "=")
      case Some(v) => |NamedIn(r, host, SkipServer)| > 0 && Last(NamedIn(r, host, SkipServer)) == Fresh(host, SkipServer, v, "/s/", now)
      case None => NamedIn(r, host, SkipServer) == NamedIn(jar, host, SkipServer)
  {
    match header
    case None => jar
    case Some(h) =>
      SkipServerSlot(jar, host, Fragments(h), now);
      SkipServerFrom(jar, host, Fragments(h), now)
  }
}
