/**
 * The process-wide cookie jar as an immutable sequence of cookie records, and
 * the primitive operations of `CookieClient.live`: `getCookie`, `clearAll`,
 * `removeCookie`, `checkExistence`, `initializeCookie`, plus the jar's own
 * `setCookie` (which replaces a cookie with the same name, host and path).
 * Time is an integer `now` supplied by the caller.
 */
module CookieJar {
  import opened Wrappers

  /** The hosts the client stores cookies for. */
  datatype Url = EHentai | ExHentai | SExHentai | Other(address: string)

  /** One stored cookie; `expires` is `None` for a session cookie. */
  datatype Cookie = Cookie(url: Url, name: string, value: string, expires: Option<int>, path: string)

  type Jar = seq<Cookie>

  /** The four outcomes a read reports (the localized label of `CookieValue`). */
  datatype Status = Empty | Expired | Mystery | Ok

  /** What `getCookie` returns: the raw text and its status. */
  datatype CookieValue = CookieValue(rawValue: string, status: Status)

  /** The value a read reports when no usable cookie is found. */
  const NoValue := CookieValue("", Empty)

  /** The placeholder value the server issues instead of a real session. */
  const MysteryText: string := "mystery"

  /** The lifetime of a cookie written by `setCookie`: one year, in seconds. */
  const OneYear: int := 365 * 24 * 60 * 60

  // Cookie names.
  const MemberId: string := "ipb_member_id"
  const PassHash: string := "ipb_pass_hash"
  const Igneous: string := "igneous"
  const Yay: string := "yay"
  const IgnoreOffensiveName: string := "nw"
  const SkipServer: string := "skipserver"

  /*************************************************************************
   * Selecting cookies
   *************************************************************************/

  /** Which cookies a filter keeps. */
  datatype Selector =
    | OfUrl(url: Url)                                // every cookie of a host
    | Named(url: Url, name: string)                  // the cookies of a host with a name
    | Spot(url: Url, name: string, path: string)     // the cookies a `setCookie` replaces
    | Not(sel: Selector)
    | Both(left: Selector, right: Selector)

  predicate Selects(sel: Selector, c: Cookie) {
    match sel
    case OfUrl(u) => c.url == u
    case Named(u, n) => c.url == u && c.name == n
    case Spot(u, n, p) => c.url == u && c.name == n && c.path == p
    case Not(s) => !Selects(s, c)
    case Both(l, r) => Selects(l, c) && Selects(r, c)
  }

  /** The cookies of `jar` that `sel` keeps, in jar order. */
  function Select(jar: Jar, sel: Selector): (r: Jar)
    ensures |r| <= |jar|
  {
    if |jar| == 0 then []
    else (if Selects(sel, jar[0]) then [jar[0]] else []) + Select(jar[1..], sel)
  }

  /** The filter keeps exactly the cookies the selector accepts. */
  lemma {:induction false} SelectMembers(jar: Jar, sel: Selector)
    ensures forall c :: c in Select(jar, sel) <==> c in jar && Selects(sel, c)
  {
    if |jar| > 0 {
      SelectMembers(jar[1..], sel);
      assert jar == [jar[0]] + jar[1..];
    }
  }

  lemma {:induction false} SelectAppend(a: Jar, b: Jar, sel: Selector)
    ensures Select(a + b, sel) == Select(a, sel) + Select(b, sel)
  {
    if |a| > 0 {
      assert (a + b)[1..] == a[1..] + b;
      SelectAppend(a[1..], b, sel);
    } else {
      assert a + b == b;
    }
  }

  /** A selector that keeps none of the jar's cookies selects nothing. */
  lemma {:induction false} SelectNone(jar: Jar, sel: Selector)
    requires forall c | c in jar :: !Selects(sel, c)
    ensures Select(jar, sel) == []
  {
    if |jar| > 0 {
      assert jar[0] in jar;
      assert forall c | c in jar[1..] :: c in jar;
      SelectNone(jar[1..], sel);
    }
  }

  /** Two selectors that keep the same cookies select the same subsequence. */
  lemma {:induction false} SelectSame(jar: Jar, s1: Selector, s2: Selector)
    requires forall c :: Selects(s1, c) <==> Selects(s2, c)
    ensures Select(jar, s1) == Select(jar, s2)
  {
    if |jar| > 0 {
      SelectSame(jar[1..], s1, s2);
    }
  }

  /** Filtering twice is filtering once by both selectors. */
  lemma {:induction false} SelectSelect(jar: Jar, s1: Selector, s2: Selector)
    ensures Select(Select(jar, s1), s2) == Select(jar, Both(s1, s2))
  {
    if |jar| > 0 {
      SelectSelect(jar[1..], s1, s2);
      var head: Jar := if Selects(s1, jar[0]) then [jar[0]] else [];
      SelectAppend(head, Select(jar[1..], s1), s2);
    }
  }

  /** The cookies of `url` named `key`, in jar order. */
  function NamedIn(jar: Jar, url: Url, key: string): Jar {
    Select(jar, Named(url, key))
  }

  /** `HTTPCookieStorage.cookies(for: url)`. */
  function CookiesFor(jar: Jar, url: Url): Jar {
    Select(jar, OfUrl(url))
  }

  /*************************************************************************
   * Reading
   *************************************************************************/

  /** A cookie takes part in a read of `key` only if it has that name, a non-empty value and an expiry. */
  predicate Counts(c: Cookie, key: string) {
    c.name == key && c.expires.Some? && c.value != ""
  }

  /** What a read reports for a cookie that takes part: expiry is checked before the sentinel. */
  function Judge(c: Cookie, now: int): (r: CookieValue)
    requires c.expires.Some? && c.value != ""
    ensures r.status == Expired <==> c.expires.value <= now
    ensures r.status == Mystery <==> now < c.expires.value && c.value == MysteryText
    ensures r.status == Ok <==> now < c.expires.value && c.value != MysteryText
    ensures r.status != Expired ==> r.rawValue == c.value
    ensures r.status == Expired ==> r.rawValue == ""
  {
    if c.expires.value <= now then CookieValue("", Expired)
    else if c.value == MysteryText then CookieValue(c.value, Mystery)
    else CookieValue(c.value, Ok)
  }

  /**
   * The `forEach` of `getCookie` over `cs`: each cookie that takes part
   * overwrites the result, so the last one decides.
   */
  function ReadEach(cs: Jar, key: string, now: int): (r: CookieValue)
    ensures r.rawValue != "" <==> r.status == Ok || r.status == Mystery
  {
    if |cs| == 0 then NoValue
    else
      var prior := ReadEach(cs[..|cs| - 1], key, now);
      var c := cs[|cs| - 1];
      if Counts(c, key) then Judge(c, now) else prior
  }

  /** No cookie of `cs` takes part in a read of `key`. */
  predicate NoneCounts(cs: Jar, key: string) {
    forall i | 0 <= i < |cs| :: !Counts(cs[i], key)
  }

  /** `cs[i]` is the last cookie of `cs` that takes part in a read of `key`. */
  predicate LastCounting(cs: Jar, key: string, i: int) {
    0 <= i < |cs| && Counts(cs[i], key) && forall j | i < j < |cs| :: !Counts(cs[j], key)
  }

  /** The last cookie that takes part decides a read; with none, the read is empty. */
  lemma {:induction false} ReadEachLastDecides(cs: Jar, key: string, now: int)
    ensures NoneCounts(cs, key) ==> ReadEach(cs, key, now) == NoValue
    ensures forall i | LastCounting(cs, key, i) :: ReadEach(cs, key, now) == Judge(cs[i], now)
  {
    if |cs| > 0 {
      var init, c := cs[..|cs| - 1], cs[|cs| - 1];
      ReadEachLastDecides(init, key, now);
      if NoneCounts(cs, key) {
        assert !Counts(c, key);
        assert NoneCounts(init, key) by {
          forall i | 0 <= i < |init| ensures !Counts(init[i], key) {
            assert init[i] == cs[i];
          }
        }
      }
      forall i | LastCounting(cs, key, i)
        ensures ReadEach(cs, key, now) == Judge(cs[i], now)
      {
        if i < |cs| - 1 {
          assert !Counts(c, key);
          assert LastCounting(init, key, i) by {
            assert init[i] == cs[i];
            forall j | i < j < |init| ensures !Counts(init[j], key) {
              assert init[j] == cs[j];
            }
          }
        }
      }
    }
  }

  /**
   * `getCookie(url, key)`: the last cookie of `url` that takes part decides
   * the outcome; with none, the read is empty. The raw text is non-empty
   * exactly for a usable value.
   */
  function GetCookie(jar: Jar, url: Url, key: string, now: int): (r: CookieValue)
    ensures r.rawValue != "" <==> r.status == Ok || r.status == Mystery
  {
    var cookies := CookiesFor(jar, url);
    if |cookies| == 0 then NoValue else ReadEach(cookies, key, now)
  }

  /** The reading rule of `getCookie`, over the cookies of `url` in jar order. */
  lemma GetCookieLastDecides(jar: Jar, url: Url, key: string, now: int)
    ensures NoneCounts(CookiesFor(jar, url), key) ==> GetCookie(jar, url, key, now) == NoValue
    ensures forall i | LastCounting(CookiesFor(jar, url), key, i) ::
      GetCookie(jar, url, key, now) == Judge(CookiesFor(jar, url)[i], now)
  {
    ReadEachLastDecides(CookiesFor(jar, url), key, now);
  }

  /** Dropping cookies that do not take part in a read of `key` does not change the read. */
  lemma {:induction false} ReadSelect(cs: Jar, sel: Selector, key: string, now: int)
    requires forall c | c in cs && Counts(c, key) :: Selects(sel, c)
    ensures ReadEach(Select(cs, sel), key, now) == ReadEach(cs, key, now)
  {
    if |cs| > 0 {
      var prefix, c := cs[..|cs| - 1], cs[|cs| - 1];
      assert cs == prefix + [c];
      SelectAppend(prefix, [c], sel);
      ReadSelect(prefix, sel, key, now);
      var kept := Select(prefix, sel);
      if Selects(sel, c) {
        assert Select(cs, sel) == kept + [c];
        assert (kept + [c])[..|kept|] == kept;
      } else {
        assert Select(cs, sel) == kept;
      }
    }
  }

  /** A read of `key` on `url` looks only at the cookies of `url` named `key`. */
  lemma GetCookieReadsNamed(jar: Jar, url: Url, key: string, now: int)
    ensures GetCookie(jar, url, key, now) == ReadEach(NamedIn(jar, url, key), key, now)
  {
    var cookies := CookiesFor(jar, url);
    SelectMembers(jar, OfUrl(url));
    SelectSelect(jar, OfUrl(url), Named(url, key));
    SelectSame(jar, Both(OfUrl(url), Named(url, key)), Named(url, key));
    ReadSelect(cookies, Named(url, key), key, now);
  }

  /** Whatever was in the jar, after a read whose last taking-part cookie is `c`, `c` decides. */
  lemma ReadEndsWith(cs: Jar, c: Cookie, key: string, now: int)
    requires Counts(c, key)
    ensures ReadEach(cs + [c], key, now) == Judge(c, now)
  {
    assert (cs + [c])[..|cs|] == cs;
  }

  /** A trailing cookie that does not take part leaves the read to the cookies before it. */
  lemma ReadSkipsLast(cs: Jar, c: Cookie, key: string, now: int)
    requires !Counts(c, key)
    ensures ReadEach(cs + [c], key, now) == ReadEach(cs, key, now)
  {
    assert (cs + [c])[..|cs|] == cs;
  }

  /** Filtering by `sel` keeps the whole named slot when `sel` keeps every cookie in it. */
  lemma NamedThroughSelect(jar: Jar, sel: Selector, url: Url, key: string)
    requires forall c :: Selects(Named(url, key), c) ==> Selects(sel, c)
    ensures NamedIn(Select(jar, sel), url, key) == NamedIn(jar, url, key)
  {
    SelectSelect(jar, sel, Named(url, key));
    SelectSame(jar, Both(sel, Named(url, key)), Named(url, key));
  }

  /** Filtering by `sel` empties the named slot when `sel` keeps no cookie of it. */
  lemma NamedThroughExclusion(jar: Jar, sel: Selector, url: Url, key: string)
    requires forall c :: Selects(Named(url, key), c) ==> !Selects(sel, c)
    ensures NamedIn(Select(jar, sel), url, key) == []
  {
    SelectSelect(jar, sel, Named(url, key));
    SelectNone(jar, Both(sel, Named(url, key)));
  }

  /*************************************************************************
   * Writing
   *************************************************************************/

  /** `clearAll`: every cookie is deleted, so every later read is empty. */
  function ClearAll(jar: Jar): (r: Jar)
    ensures forall url, key, now :: GetCookie(r, url, key, now) == NoValue
  {
    []
  }

  /**
   * `removeCookie(url, key)`: deletes every cookie of `url` named `key` and
   * keeps every other cookie, in order.
   */
  function RemoveCookie(jar: Jar, url: Url, key: string): (r: Jar)
    ensures forall c :: c in r <==> c in jar && !(c.url == url && c.name == key)
    ensures NamedIn(r, url, key) == []
    ensures forall u, k | (u, k) != (url, key) :: NamedIn(r, u, k) == NamedIn(jar, u, k)
  {
    var r := Select(jar, Not(Named(url, key)));
    SelectMembers(jar, Not(Named(url, key)));
    forall c
      ensures c in r <==> c in jar && !(c.url == url && c.name == key)
    {
      assert Selects(Not(Named(url, key)), c) <==> !(c.url == url && c.name == key);
    }
    NamedThroughExclusion(jar, Not(Named(url, key)), url, key);
    forall u, k | (u, k) != (url, key)
      ensures NamedIn(r, u, k) == NamedIn(jar, u, k)
    {
      NamedThroughSelect(jar, Not(Named(url, key)), u, k);
    }
    r
  }

  /** `checkExistence(url, key)`: some cookie of `url` is named `key`, whatever its value or expiry. */
  predicate CheckExistence(jar: Jar, url: Url, key: string)
    ensures CheckExistence(jar, url, key) <==> |NamedIn(jar, url, key)| > 0
  {
    var found := exists c | c in CookiesFor(jar, url) :: c.name == key;
    SelectMembers(jar, OfUrl(url));
    SelectMembers(jar, Named(url, key));
    assert found ==> |NamedIn(jar, url, key)| > 0 by {
      if found {
        var c :| c in CookiesFor(jar, url) && c.name == key;
        assert c in NamedIn(jar, url, key);
      }
    }
    assert |NamedIn(jar, url, key)| > 0 ==> found by {
      if |NamedIn(jar, url, key)| > 0 {
        var c := NamedIn(jar, url, key)[0];
        assert c in NamedIn(jar, url, key);
        assert c in CookiesFor(jar, url);
      }
    }
    found
  }

  /** `initializeCookie`: the same cookie with only its value replaced. */
  function InitializeCookie(c: Cookie, value: string): (r: Cookie)
    ensures r.url == c.url && r.name == c.name && r.expires == c.expires && r.path == c.path
    ensures r.value == value
  {
    c.(value := value)
  }

  /**
   * `HTTPCookieStorage.setCookie`: the new cookie replaces any cookie with the
   * same host, name and path and becomes the last cookie of the jar.
   */
  function Store(jar: Jar, c: Cookie): (r: Jar)
    ensures |r| > 0 && r[|r| - 1] == c
    ensures forall d :: d in r <==> d == c || (d in jar && !Selects(Spot(c.url, c.name, c.path), d))
  {
    SelectMembers(jar, Not(Spot(c.url, c.name, c.path)));
    Select(jar, Not(Spot(c.url, c.name, c.path))) + [c]
  }

  /** How a store changes each named slot: only the stored cookie's own slot changes. */
  lemma StoreNamed(jar: Jar, c: Cookie, url: Url, key: string)
    ensures c.url == url && c.name == key ==>
      NamedIn(Store(jar, c), url, key) == Select(NamedIn(jar, url, key), Not(Spot(url, key, c.path))) + [c]
    ensures !(c.url == url && c.name == key) ==>
      NamedIn(Store(jar, c), url, key) == NamedIn(jar, url, key)
  {
    var sel := Not(Spot(c.url, c.name, c.path));
    SelectAppend(Select(jar, sel), [c], Named(url, key));
    if c.url == url && c.name == key {
      SelectSelect(jar, sel, Named(url, key));
      SelectSelect(jar, Named(url, key), sel);
      SelectSame(jar, Both(sel, Named(url, key)), Both(Named(url, key), sel));
    } else {
      NamedThroughSelect(jar, sel, url, key);
    }
  }

  /** The cookie `setCookie` writes: the given path and an expiry one year after `now`. */
  function Fresh(url: Url, key: string, value: string, path: string, now: int): Cookie {
    Cookie(url, key, value, Some(now + OneYear), path)
  }

  /** `setCookie(for: url, key:, value:, path:)`, with the default one-year lifetime. */
  function SetCookie(jar: Jar, url: Url, key: string, value: string, path: string, now: int): (r: Jar)
    ensures |NamedIn(r, url, key)| > 0 && Last(NamedIn(r, url, key)) == Fresh(url, key, value, path, now)
    ensures forall u, k | (u, k) != (url, key) :: NamedIn(r, u, k) == NamedIn(jar, u, k)
  {
    var c := Fresh(url, key, value, path, now);
    var r := Store(jar, c);
    StoreNamed(jar, c, url, key);
    forall u, k | (u, k) != (url, key)
      ensures NamedIn(r, u, k) == NamedIn(jar, u, k)
    {
      StoreNamed(jar, c, u, k);
    }
    r
  }

  /**
   * `editCookie(for: url, key:, value:)`: every cookie of `url` named `key` is
   * removed and one copy of the last of them, with the new value, is stored.
   * Without such a cookie nothing happens.
   */
  function EditCookie(jar: Jar, url: Url, key: string, value: string): (r: Jar)
    ensures |NamedIn(jar, url, key)| == 0 ==> r == jar
    ensures |NamedIn(jar, url, key)| > 0 ==>
      NamedIn(r, url, key) == [InitializeCookie(Last(NamedIn(jar, url, key)), value)]
    ensures forall u, k | (u, k) != (url, key) :: NamedIn(r, u, k) == NamedIn(jar, u, k)
  {
    match LastOf(NamedIn(jar, url, key))
    case None => jar
    case Some(c) =>
      SelectMembers(jar, Named(url, key));
      assert c in NamedIn(jar, url, key);
      var removed := RemoveCookie(jar, url, key);
      var edited := InitializeCookie(c, value);
      var r := Store(removed, edited);
      StoreNamed(removed, edited, url, key);
      forall u, k | (u, k) != (url, key)
        ensures NamedIn(r, u, k) == NamedIn(jar, u, k)
      {
        StoreNamed(removed, edited, u, k);
      }
      r
  }

  /**
   * The single cookie `setOrEditCookie` leaves in its slot: for an existing
   * slot its last cookie with only the value replaced (so path and expiry
   * are kept), otherwise a fresh cookie at `/` expiring in a year.
   */
  function Written(jar: Jar, url: Url, key: string, value: string, now: int): (c: Cookie)
    ensures c.url == url && c.name == key && c.value == value
    ensures CheckExistence(jar, url, key) ==> c == Last(NamedIn(jar, url, key)).(value := value)
    ensures !CheckExistence(jar, url, key) ==> c.expires == Some(now + OneYear) && c.path == "/"
  {
    if CheckExistence(jar, url, key) then
      var slot := NamedIn(jar, url, key);
      SelectMembers(jar, Named(url, key));
      assert Last(slot) in slot && Selects(Named(url, key), Last(slot));
      InitializeCookie(Last(slot), value)
    else Fresh(url, key, value, "/", now)
  }

  /**
   * `setOrEditCookie(for: url, key:, value:)`: afterwards the slot holds exactly
   * one cookie with the new value. It keeps the path and expiry of the last
   * same-named cookie if there was one, and otherwise has path `/` and a
   * one-year expiry. Every other slot is unchanged.
   */
  function SetOrEditCookie(jar: Jar, url: Url, key: string, value: string, now: int): (r: Jar)
    ensures NamedIn(r, url, key) == [Written(jar, url, key, value, now)]
    ensures Written(jar, url, key, value, now).value == value
    ensures forall u, k | (u, k) != (url, key) :: NamedIn(r, u, k) == NamedIn(jar, u, k)
  {
    if CheckExistence(jar, url, key) then EditCookie(jar, url, key, value)
    else
      var r := SetCookie(jar, url, key, value, "/", now);
      StoreNamed(jar, Fresh(url, key, value, "/", now), url, key);
      assert Select(NamedIn(jar, url, key), Not(Spot(url, key, "/"))) == [];
      r
  }

  /** A read of a slot holding exactly one cookie reports that cookie, or nothing if it does not take part. */
  lemma ReadSingle(jar: Jar, url: Url, key: string, c: Cookie, now: int)
    requires NamedIn(jar, url, key) == [c]
    ensures Counts(c, key) ==> GetCookie(jar, url, key, now) == Judge(c, now)
    ensures !Counts(c, key) ==> GetCookie(jar, url, key, now) == NoValue
  {
    GetCookieReadsNamed(jar, url, key, now);
    assert [c] == [] + [c];
    if Counts(c, key) {
      ReadEndsWith([], c, key, now);
    } else {
      ReadSkipsLast([], c, key, now);
    }
  }

  /** Reads of a slot depend on nothing but the slot. */
  lemma ReadFrame(jar: Jar, jar': Jar, url: Url, key: string, now: int)
    requires NamedIn(jar', url, key) == NamedIn(jar, url, key)
    ensures GetCookie(jar', url, key, now) == GetCookie(jar, url, key, now)
  {
    GetCookieReadsNamed(jar, url, key, now);
    GetCookieReadsNamed(jar', url, key, now);
  }
}
