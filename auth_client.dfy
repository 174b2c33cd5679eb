/** The client half of the session gate: the auth plugin's `isLoggedIn`
    flag and its transitions (plugins/auth.ts), and the two route guards
    (middleware/global.ts, middleware/auth.ts), which decide whether a
    navigation passes or is redirected. Calls to the server are inputs:
    their outcome is a parameter. */
module AuthClient {
  import opened JsValues

  /** A route guard's decision. */
  datatype Decision = Pass | Redirect(target: string)

  /** How the login request went: the server answered with a `success`
      and a `message` field, or the request itself failed. */
  datatype LoginReply = Answered(success: Value, message: Value) | LoginRequestFailed

  /** What the plugin's `login` returns. */
  datatype LoginOutcome = LoginOutcome(success: bool, message: Option<Value>)

  /** How the verify request went. */
  datatype VerifyReply = Verified(isLoggedIn: bool) | VerifyRequestFailed

  const LoginPath: string := "/login"
  const DebugPath: string := "/debug"

  class AuthPlugin {
    /** The shared logged-in flag. */
    var isLoggedIn: bool

    /** The flag starts false. */
    constructor ()
      ensures !isLoggedIn
    {
      isLoggedIn := false;
    }

    method SetLoggedIn(value: bool)
      modifies this
      ensures isLoggedIn == value
    {
      isLoggedIn := value;
    }

    /** `login`: a truthy `success` in the answer sets the flag; any other
        answer leaves it and passes the server's message on (or a default
        when it is empty); a failed request leaves it too. */
    method Login(reply: LoginReply) returns (r: LoginOutcome)
      modifies this
      ensures reply.Answered? && Truthy(reply.success) ==> isLoggedIn && r == LoginOutcome(true, None)
      ensures reply.Answered? && !Truthy(reply.success) ==>
        && isLoggedIn == old(isLoggedIn)
        && r == LoginOutcome(false, Some(if Truthy(reply.message) then reply.message else Str("登录失败")))
      ensures reply.LoginRequestFailed? ==>
        isLoggedIn == old(isLoggedIn) && r == LoginOutcome(false, Some(Str("登录失败，请稍后重试")))
    {
      if reply.LoginRequestFailed? {
        return LoginOutcome(false, Some(Str("登录失败，请稍后重试")));
      }
      if Truthy(reply.success) {
        isLoggedIn := true;
        return LoginOutcome(true, None);
      }
      r := LoginOutcome(false, Some(if Truthy(reply.message) then reply.message else Str("登录失败")));
    }

    /** `logout`: the flag is false afterwards whether or not the request
        succeeded. */
    method Logout(requestFailed: bool)
      modifies this
      ensures !isLoggedIn
    {
      isLoggedIn := false;
    }
  }

  /** The debug page is open only when the public flag is exactly the
      string "true". */
  predicate DebugEnabled(enableDebug: Value)
    ensures DebugEnabled(enableDebug) <==> enableDebug == Str("true")
  {
    StrictEquals(enableDebug, Str("true"))
  }

  /** middleware/auth.ts: the login page always passes; any other page
      passes exactly when the flag is set, and otherwise goes to the login
      page, so it never sends a page to itself. The flag is only read. */
  function AuthGuard(path: string, isLoggedIn: bool): (d: Decision)
    ensures d != Redirect(path)
    ensures path == LoginPath ==> d == Pass
    ensures path != LoginPath ==> (d == Pass <==> isLoggedIn)
    ensures d.Redirect? ==> d.target == LoginPath
  {
    if path == LoginPath then Pass
    else if !isLoggedIn then Redirect(LoginPath)
    else Pass
  }

  /** middleware/global.ts: the login page passes at once; the debug page
      with debug off goes home; every other navigation asks the server and
      sets the flag to its answer (false when the request fails), passing
      when logged in and going to the login page otherwise. */
  method GlobalGuard(plugin: AuthPlugin, path: string, enableDebug: Value, verify: VerifyReply)
    returns (d: Decision)
    modifies plugin
    ensures path == LoginPath ==> d == Pass && plugin.isLoggedIn == old(plugin.isLoggedIn)
    ensures path == DebugPath && !DebugEnabled(enableDebug) ==>
      d == Redirect("/") && plugin.isLoggedIn == old(plugin.isLoggedIn)
    ensures path != LoginPath && (path != DebugPath || DebugEnabled(enableDebug)) ==>
      && plugin.isLoggedIn == (verify.Verified? && verify.isLoggedIn)
      && (d == Pass <==> plugin.isLoggedIn)
      && (d != Pass ==> d == Redirect(LoginPath))
    ensures d != Redirect(path)
    ensures path != LoginPath && (path != DebugPath || DebugEnabled(enableDebug)) ==>
      d == AuthGuard(path, plugin.isLoggedIn)
  {
    if path == LoginPath {
      return Pass;
    }
    if path == DebugPath && !DebugEnabled(enableDebug) {
      return Redirect("/");
    }
    match verify
    case Verified(loggedIn) =>
      plugin.SetLoggedIn(loggedIn);
      if !loggedIn {
        return Redirect(LoginPath);
      }
      d := Pass;
    case VerifyRequestFailed =>
      plugin.SetLoggedIn(false);
      d := Redirect(LoginPath);
  }
}
