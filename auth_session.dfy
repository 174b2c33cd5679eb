/** The server half of the session gate (server/api/auth/): login sets the
    `auth_session` cookie to `authenticated` when the credentials match the
    configured administrator, verify and session read it, logout deletes
    it. The cookie jar is the browser's store of cookies, which the
    responses update and the next requests send back. */
module AuthSession {
  import opened JsValues

  const SessionCookie: string := "auth_session"
  const Authenticated: string := "authenticated"
  /** Fourteen days in seconds. */
  const TwoWeeks: int := 60 * 60 * 24 * 14

  /** The attributes a `Set-Cookie` carries. */
  datatype CookieOptions = CookieOptions(httpOnly: bool, path: string, maxAge: Option<int>, secure: bool)

  datatype Cookie = Cookie(value: string, options: CookieOptions)

  /** The body of a login or logout answer. */
  datatype AuthResult = AuthResult(success: bool, message: string)

  /** What the session endpoint answers. */
  datatype SessionView = SessionView(cookies: map<string, string>, authSession: Option<string>, isLoggedIn: bool)

  /** The cookie the login sets: `authenticated`, http-only, for the whole
      site, for fourteen days, secure in production. */
  function SessionCookieFor(production: bool): (c: Cookie)
    ensures c.value == Authenticated && c.options.maxAge == Some(1209600)
    ensures c.options.httpOnly && c.options.path == "/" && c.options.secure == production
  {
    Cookie(Authenticated, CookieOptions(true, "/", Some(TwoWeeks), production))
  }

  class CookieJar {
    var cookies: map<string, Cookie>

    constructor ()
      ensures cookies == map[]
    {
      cookies := map[];
    }

    /** The name/value pairs the browser sends back. */
    function Values(): (m: map<string, string>)
      reads this
      ensures m.Keys == cookies.Keys
      ensures forall k :: k in m ==> m[k] == cookies[k].value
    {
      map k | k in cookies :: cookies[k].value
    }

    /** POST /api/auth/login: missing or empty credentials, or credentials
        that are not strictly equal to the configured ones, fail without
        touching the jar; matching ones set the session cookie. */
    method Login(username: Value, password: Value, adminUsername: Value, adminPassword: Value, production: bool)
      returns (r: AuthResult)
      modifies this
      ensures !Truthy(username) || !Truthy(password) ==> r == AuthResult(false, "请提供用户名和密码")
      ensures Truthy(username) && Truthy(password) ==>
        (StrictEquals(username, adminUsername) && StrictEquals(password, adminPassword) <==> r.success)
      ensures r.success ==> r.message == "登录成功" && cookies == old(cookies)[SessionCookie := SessionCookieFor(production)]
      ensures Truthy(username) && Truthy(password) && !r.success ==> r == AuthResult(false, "用户名或密码错误")
      ensures !r.success ==> cookies == old(cookies)
      ensures r.success ==> Verify(Values())
      ensures Verify(old(Values())) ==> Verify(Values())
    {
      if !Truthy(username) || !Truthy(password) {
        return AuthResult(false, "请提供用户名和密码");
      }
      if StrictEquals(username, adminUsername) && StrictEquals(password, adminPassword) {
        cookies := cookies[SessionCookie := SessionCookieFor(production)];
        return AuthResult(true, "登录成功");
      }
      r := AuthResult(false, "用户名或密码错误");
    }

    /** POST /api/auth/logout: the session cookie goes, every other cookie
        stays, and the answer is always a success. */
    method Logout() returns (r: AuthResult)
      modifies this
      ensures r == AuthResult(true, "已成功登出")
      ensures cookies == old(cookies) - {SessionCookie}
      ensures !Verify(Values())
      ensures forall k :: k != SessionCookie ==> (k in cookies <==> k in old(cookies))
      ensures SessionCookie !in old(cookies) ==> cookies == old(cookies)
    {
      cookies := cookies - {SessionCookie};
      r := AuthResult(true, "已成功登出");
    }
  }

  /** GET /api/auth/verify: whether the cookies sent with a request carry
      a live session, that is the session cookie holds exactly
      `authenticated` (case matters). */
  function Verify(cookies: map<string, string>): (isLoggedIn: bool)
    ensures isLoggedIn <==> SessionCookie in cookies && cookies[SessionCookie] == "authenticated"
    ensures SessionCookie !in cookies ==> !isLoggedIn
  {
    SessionCookie in cookies && cookies[SessionCookie] == Authenticated
  }

  /** GET /api/auth/session: all cookies echoed, the session cookie's value
      (undefined when absent) and the same decision as verify. */
  function Session(cookies: map<string, string>): (v: SessionView)
    ensures v.cookies == cookies
    ensures v.authSession.Some? <==> SessionCookie in cookies
    ensures v.authSession.Some? ==> v.authSession.value == cookies[SessionCookie]
    ensures v.isLoggedIn == Verify(cookies)
  {
    var auth := if SessionCookie in cookies then Some(cookies[SessionCookie]) else None;
    SessionView(cookies, auth, auth == Some(Authenticated))
  }

  /** A successful login is seen by verify and by the session endpoint; a
      failed one leaves their answer as it was. After a logout verify says
      no, and the jar holds what it held before the login, less the session
      cookie. Logging out a second time leaves the jar as the first logout
      left it. */
  method LoginUntilLogout(jar: CookieJar, username: Value, password: Value, adminUsername: Value,
                          adminPassword: Value, production: bool)
    returns (login: AuthResult, seen: bool, sessionSeen: bool, afterLogout: bool)
    modifies jar
    ensures login.success ==> seen && sessionSeen
    ensures !login.success ==> seen == sessionSeen == Verify(old(jar.Values()))
    ensures !afterLogout
    ensures jar.cookies == old(jar.cookies) - {SessionCookie}
  {
    login := jar.Login(username, password, adminUsername, adminPassword, production);
    seen := Verify(jar.Values());
    sessionSeen := Session(jar.Values()).isLoggedIn;
    var out := jar.Logout();
    out := jar.Logout();
    assert old(jar.cookies)[SessionCookie := SessionCookieFor(production)] - {SessionCookie}
        == old(jar.cookies) - {SessionCookie};
    afterLogout := Verify(jar.Values());
  }
}
