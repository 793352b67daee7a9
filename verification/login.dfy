/**
 * The login screen's reducer (`LoginReducer`) as a pure step function. The
 * session check `cookieClient.didLogin` reads cookie state this model does
 * not define, so it is an input of the step.
 */
module Login {
  import opened Wrappers
  import opened Feature
  import CookieJar
  import CookieClient

  /** The sign-in web page the screen can present. */
  datatype Route = WebView(url: string)

  datatype Field = Username | Password

  datatype State = State(
    route: Option<Route>,
    focusedField: Option<Field>,
    username: string,
    password: string,
    loginState: LoadingState
  )

  function Initial(): (s: State)
    ensures s.route.None? && s.focusedField.None? && s.username == "" && s.password == ""
    ensures s.loginState == Idle
  {
    State(None, None, "", "", Idle)
  }

  /** The bindings the view writes through. */
  datatype Binding =
    | RouteBinding(route: Option<Route>)
    | FocusBinding(field: Option<Field>)
    | UsernameBinding(username: string)
    | PasswordBinding(password: string)

  datatype Action =
    | Bind(binding: Binding)
    | SetNavigation(route: Option<Route>)
    | Teardown
    | LogIn
    | LoginDone(result: Result<Option<Response>>)

  datatype Next = Next(state: State, effects: seq<Effect<Action>>)

  /** `loginButtonDisabled`: a credential is missing. */
  predicate LoginButtonDisabled(s: State) {
    s.username == "" || s.password == ""
  }

  /** A binding write; no effect follows. */
  function BindStep(s: State, b: Binding): (r: Next)
    ensures r.effects == []
    ensures r.state.loginState == s.loginState
    ensures b.RouteBinding? ==> r.state == s.(route := b.route)
    ensures b.FocusBinding? ==> r.state == s.(focusedField := b.field)
    ensures b.UsernameBinding? ==> r.state == s.(username := b.username)
    ensures b.PasswordBinding? ==> r.state == s.(password := b.password)
  {
    match b
    case RouteBinding(route) => Next(s.(route := route), [])
    case FocusBinding(field) => Next(s.(focusedField := field), [])
    case UsernameBinding(username) => Next(s.(username := username), [])
    case PasswordBinding(password) => Next(s.(password := password), [])
  }

  /**
   * `login`: goes ahead when both credentials are filled in, and also
   * whenever a login is already loading; otherwise nothing happens. Going
   * ahead drops the keyboard focus, marks the login as loading, plays a soft
   * haptic and submits the credentials.
   */
  function LogInStep(s: State): (r: Next)
    ensures r.effects != [] <==> (s.username != "" && s.password != "") || s.loginState == Loading
    ensures r.effects == [] ==> r.state == s
    ensures r.effects != [] ==>
      && r.state == s.(focusedField := None, loginState := Loading)
      && r.effects == [Haptic(Soft), Run(LoginRequest(s.username, s.password), LoginSubmit)]
  {
    if LoginButtonDisabled(s) && s.loginState != Loading then Next(s, [])
    else
      Next(s.(focusedField := None, loginState := Loading),
           [Haptic(Soft), Run(LoginRequest(s.username, s.password), LoginSubmit)])
  }

  /**
   * `loginDone`: the web page is dismissed, the outcome is decided by the
   * session check alone (not by the response), a notice haptic reports it,
   * and a response that arrived is handed to the cookie client.
   */
  function LoginDoneStep(didLogin: bool, s: State, result: Result<Option<Response>>): (r: Next)
    ensures r.state == s.(route := None, loginState := if didLogin then Idle else Failed(Unknown))
    ensures 1 <= |r.effects| <= 2
    ensures r.effects[0] == Haptic(if didLogin then SuccessNotice else ErrorNotice)
    ensures |r.effects| == 2 <==> result.Success? && result.value.Some?
    ensures |r.effects| == 2 ==> r.effects[1] == SetCredentials(result.value.value)
  {
    var notice := if didLogin then SuccessNotice else ErrorNotice;
    var s1 := s.(route := None, loginState := if didLogin then Idle else Failed(Unknown));
    match result
    case Success(Some(response)) => Next(s1, [Haptic(notice), SetCredentials(response)])
    case _ => Next(s1, [Haptic(notice)])
  }

  /** One step of the reducer; `didLogin` is the session check at the time of the step. */
  function Step(didLogin: bool, s: State, a: Action): (r: Next)
    ensures a.Teardown? ==> r == Next(s, [Cancel(LoginSubmit)])
    ensures a.SetNavigation? ==> r == Next(s.(route := a.route), [])
    ensures a.Bind? ==> r.effects == []
    ensures !a.LoginDone? ==> forall e | e in r.effects :: !e.SetCredentials?
  {
    match a
    case Bind(b) => BindStep(s, b)
    case SetNavigation(route) => Next(s.(route := route), [])
    case Teardown => Next(s, [Cancel(LoginSubmit)])
    case LogIn => LogInStep(s)
    case LoginDone(result) => LoginDoneStep(didLogin, s, result)
  }

  // ---------------------------------------------------------------------
  // Properties

  /**
   * A submitted login carries two filled-in credentials unless a login was
   * already loading, in which case the request is sent again with whatever
   * the fields hold.
   */
  lemma LoginRequestsCarryCredentials(didLogin: bool, s: State, a: Action)
    ensures var r := Step(didLogin, s, a);
      forall e | e in r.effects && e.Run? ::
        && e == Run(LoginRequest(s.username, s.password), LoginSubmit)
        && ((s.username != "" && s.password != "") || s.loginState == Loading)
        && r.state.loginState == Loading
  {
  }

  /**
   * Typing the credentials and pressing the button: from a screen that is not
   * loading, writing a username and a password through the bindings and then
   * `login` submits exactly those two values when both are non-empty, and
   * does nothing at all when either is empty (the button is disabled).
   */
  lemma FilledFieldsSubmit(didLogin: bool, s: State, username: string, password: string)
    requires s.loginState != Loading
    ensures
      var s1 := Step(didLogin, s, Bind(UsernameBinding(username))).state;
      var s2 := Step(didLogin, s1, Bind(PasswordBinding(password))).state;
      var r := Step(didLogin, s2, LogIn);
      && (LoginButtonDisabled(s2) <==> username == "" || password == "")
      && (r.effects != [] <==> username != "" && password != "")
      && (r.effects != [] ==>
            && r.effects == [Haptic(Soft), Run(LoginRequest(username, password), LoginSubmit)]
            && r.state.loginState == Loading)
      && (r.effects == [] ==> r.state == s2)
  {
  }

  /** A second `login` while the first is loading submits again, even with empty fields. */
  lemma LoginWhileLoadingResubmits(s: State)
    requires s.loginState == Loading
    ensures Step(false, s, LogIn).effects == [Haptic(Soft), Run(LoginRequest(s.username, s.password), LoginSubmit)]
  {
  }

  /** The cookie jar after the cookie-client effects of a list of effects run in order. */
  function ApplyCookieEffects(jar: CookieJar.Jar, effects: seq<Effect<Action>>, now: int): CookieJar.Jar
    decreases |effects|
  {
    if |effects| == 0 then jar
    else
      var prior := ApplyCookieEffects(jar, effects[..|effects| - 1], now);
      match effects[|effects| - 1]
      case SetCredentials(response) => CookieClient.SetCredentials(prior, response.setCookie, now)
      case _ => prior
  }

  /**
   * Finishing a login stores the credentials of the response that arrived,
   * and leaves the jar alone when the request failed or returned nothing.
   */
  lemma LoginDoneStoresCredentials(didLogin: bool, s: State, result: Result<Option<Response>>, jar: CookieJar.Jar, now: int)
    ensures var r := Step(didLogin, s, LoginDone(result));
      ApplyCookieEffects(jar, r.effects, now) ==
        if result.Success? && result.value.Some? then CookieClient.SetCredentials(jar, result.value.value.setCookie, now)
        else jar
  {
    var r := Step(didLogin, s, LoginDone(result));
    var first := r.effects[..1];
    assert first[..0] == [];
    assert ApplyCookieEffects(jar, first, now) == jar;
    if |r.effects| == 2 {
      assert r.effects[..1] == first;
      assert ApplyCookieEffects(jar, r.effects, now)
        == CookieClient.SetCredentials(jar, result.value.value.setCookie, now);
    } else {
      assert r.effects == first;
    }
  }

  /**
   * End to end: a successful login whose `Set-Cookie` header names a member
   * id hands that id to the cookie client, which then reads it back for
   * both gallery hosts.
   */
  lemma LoginStoresMemberId(didLogin: bool, s: State, header: string, jar: CookieJar.Jar, now: int, url: CookieJar.Url)
    requires url == CookieJar.EHentai || url == CookieJar.ExHentai
    requires CookieClient.LastValue(CookieClient.Fragments(header), CookieJar.MemberId + "=").Some?
    requires CookieClient.LastValue(CookieClient.Fragments(header), CookieJar.MemberId + "=").value != ""
    ensures var r := Step(didLogin, s, LoginDone(Success(Some(Response(Some(header))))));
      CookieClient.Raw(ApplyCookieEffects(jar, r.effects, now), url, CookieJar.MemberId, now)
        == CookieClient.LastValue(CookieClient.Fragments(header), CookieJar.MemberId + "=").value
  {
    LoginDoneStoresCredentials(didLogin, s, Success(Some(Response(Some(header)))), jar, now);
    CookieClient.SetCredentialsThenRead(jar, header, url, CookieJar.MemberId, now);
  }
}
