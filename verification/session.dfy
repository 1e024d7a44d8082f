/** The signed-in session as the store holds it: the identity kept by the
    auth slice and the two tokens kept by the token slice. The slices'
    reducers are not part of this model; `Logout` and `EndSession` state the
    effect the pages rely on. */
module Session {
  import opened JsValue

  datatype Session = Session(userInfo: Value, accessToken: Value, refreshToken: Value)

  /** Nobody signed in, no tokens. */
  const SignedOut := Session(Null, Null, Null)

  /** `dispatch(logout())`: the auth slice forgets the identity; the token
      slice is a different reducer and keeps its tokens. */
  function Logout(s: Session): (r: Session)
    ensures !Truthy(r.userInfo)
    ensures r.accessToken == s.accessToken && r.refreshToken == s.refreshToken
  {
    s.(userInfo := Null)
  }

  /** `dispatch(setRefreshToken(null)); dispatch(logout())`: what the
      interceptor does when the token-regeneration call itself is refused. */
  function EndSession(s: Session): (r: Session)
    ensures !Truthy(r.userInfo) && r.refreshToken == Null
    ensures r.accessToken == s.accessToken
  {
    Logout(s).(refreshToken := Null)
  }

  /** `user?.role === "admin"` */
  predicate IsAdmin(userInfo: Value) {
    Field(userInfo, "role") == Str("admin")
  }

  /** Signing out twice is signing out once. */
  lemma LogoutIdempotent(s: Session)
    ensures Logout(Logout(s)) == Logout(s)
    ensures EndSession(EndSession(s)) == EndSession(s)
  {
  }
}

/** The two route guards: `AdminGuard` wraps the protected area and
    `AuthGuard` wraps the login page. Both read only `userInfo.role`. */
module Guards {
  import opened JsValue
  import opened Session

  /** What a guard renders: its child routes, or a `<Navigate>`. */
  datatype Gate = Outlet | Redirect(to: string, replace: bool)

  function AdminGuard(s: Session): (g: Gate)
    ensures g.Outlet? <==> IsAdmin(s.userInfo)
    ensures !g.Outlet? ==> g == Redirect("/login", true)
  {
    if IsAdmin(s.userInfo) then Outlet else Redirect("/login", true)
  }

  function AuthGuard(s: Session): (g: Gate)
    ensures g.Outlet? <==> !IsAdmin(s.userInfo)
    ensures !g.Outlet? ==> g == Redirect("/admin/dashboard", true)
  {
    if IsAdmin(s.userInfo) then Redirect("/admin/dashboard", true) else Outlet
  }

  /** For every session exactly one of the two guarded areas is reachable. */
  lemma ExactlyOneOutlet(s: Session)
    ensures AdminGuard(s).Outlet? != AuthGuard(s).Outlet?
  {
  }

  /** Tokens play no part in either decision. */
  lemma GuardsIgnoreTokens(s: Session, access: Value, refresh: Value)
    ensures AdminGuard(s.(accessToken := access, refreshToken := refresh)) == AdminGuard(s)
    ensures AuthGuard(s.(accessToken := access, refreshToken := refresh)) == AuthGuard(s)
  {
  }

  /** After logout the protected area sends the visitor to the login page,
      and the login page is shown. */
  lemma LogoutLocksOut(s: Session)
    ensures AdminGuard(Logout(s)) == Redirect("/login", true)
    ensures AuthGuard(Logout(s)) == Outlet
  {
  }
}

/** The login page's submit handler. The request goes through the public
    client, so none of the private client's interceptors take part. */
module Login {
  import opened Common
  import opened JsValue
  import opened Session
  import Guards

  /** `location.state?.from?.pathname || '/'`, for the path strings the
      router stores there. */
  function LoginTarget(locationState: Value): (path: string)
    ensures path != ""
    ensures var p := Field(Field(locationState, "from"), "pathname");
            p.Str? && p.s != "" ==> path == p.s
    ensures var p := Field(Field(locationState, "from"), "pathname");
            !(p.Str? && p.s != "") ==> path == "/"
  {
    var p := Field(Field(locationState, "from"), "pathname");
    if p.Str? && p.s != "" then p.s else "/"
  }

  /** The page state the handler leaves behind. */
  datatype LoginResult = LoginResult(session: Session, nav: Option<Navigation>, isSubmitting: bool)

  /** `handleSubmit`. `reply` is the awaited `axios.post(loginUrl, …)`: `Ok(d)`
      when `response.data.success` is truthy, with `d = response.data.data`.
      Reading `data.userInfo` from a `null` or missing `d` throws before
      anything is stored, which lands in the `catch`. */
  function SubmitLogin(s: Session, locationState: Value, reply: Reply<Value>): (r: LoginResult)
    ensures !r.isSubmitting
    ensures r.nav.Some? <==> reply.Ok? && !(reply.data.Null? || reply.data.Undefined?)
    ensures r.nav.Some? ==>
              r.session == Session(Field(reply.data, "userInfo"), Field(reply.data, "accessToken"),
                                   Field(reply.data, "refreshToken"))
              && r.nav == Some(Navigate(LoginTarget(locationState), true))
    ensures r.nav.None? ==> r.session == s
  {
    match reply
    case Ok(d) =>
      if d.Null? || d.Undefined? then LoginResult(s, None, false)
      else
        var stored := Session(Field(d, "userInfo"), Field(d, "accessToken"), Field(d, "refreshToken"));
        LoginResult(stored, Some(Navigate(LoginTarget(locationState), true)), false)
    case NotOk => LoginResult(s, None, false)
    case Threw => LoginResult(s, None, false)
  }

  /** An admin's login opens the protected area and closes the login page. */
  lemma AdminLoginOpensAdminArea(s: Session, locationState: Value, d: Value)
    requires !(d.Null? || d.Undefined?) && IsAdmin(Field(d, "userInfo"))
    ensures Guards.AdminGuard(SubmitLogin(s, locationState, Ok(d)).session) == Guards.Outlet
    ensures Guards.AuthGuard(SubmitLogin(s, locationState, Ok(d)).session) == Guards.Redirect("/admin/dashboard", true)
  {
  }

  /** Anyone else who signs in is stored, but the protected area still sends
      them to the login page. */
  lemma NonAdminLoginStaysLocked(s: Session, locationState: Value, d: Value)
    requires !(d.Null? || d.Undefined?) && !IsAdmin(Field(d, "userInfo"))
    ensures SubmitLogin(s, locationState, Ok(d)).nav.Some?
    ensures Guards.AdminGuard(SubmitLogin(s, locationState, Ok(d)).session) == Guards.Redirect("/login", true)
  {
  }

  /** A refused or failed login leaves both guards' verdicts as they were. */
  lemma FailedLoginKeepsGates(s: Session, locationState: Value, reply: Reply<Value>)
    requires !reply.Ok?
    ensures Guards.AdminGuard(SubmitLogin(s, locationState, reply).session) == Guards.AdminGuard(s)
    ensures Guards.AuthGuard(SubmitLogin(s, locationState, reply).session) == Guards.AuthGuard(s)
  {
  }
}

/** The top bar: its `classNames` helper and the logout menu entry. */
module Header {
  import opened Common
  import opened JsValue
  import opened Session
  import Text
  import Sequences

  /** `classes.filter(Boolean).join(' ')` */
  function ClassNames(classes: seq<Value>): string {
    JoinTexts(Sequences.Keep(classes, Truthy))
  }

  function JoinTexts(kept: seq<Value>): string {
    Text.Join(seq(|kept|, k requires 0 <= k < |kept| => ToText(kept[k])), " ")
  }

  /** With every argument falsy the result is the empty string. */
  lemma ClassNamesAllFalsy(classes: seq<Value>)
    requires forall k :: 0 <= k < |classes| ==> !Truthy(classes[k])
    ensures ClassNames(classes) == ""
  {
    Sequences.KeepNone(classes, Truthy);
  }

  /** A falsy argument anywhere contributes nothing, not even a separator. */
  lemma ClassNamesSkipsFalsy(a: seq<Value>, v: Value, b: seq<Value>)
    requires !Truthy(v)
    ensures ClassNames(a + [v] + b) == ClassNames(a + b)
  {
    Sequences.KeepNone([v], Truthy);
    Sequences.KeepAppend(a, [v], Truthy);
    assert Sequences.Keep(a + [v], Truthy) == Sequences.Keep(a, Truthy);
    Sequences.KeepAppend(a + [v], b, Truthy);
    Sequences.KeepAppend(a, b, Truthy);
    assert Sequences.Keep(a + [v] + b, Truthy) == Sequences.Keep(a + b, Truthy);
  }

  /** Non-empty class strings are joined by single spaces, in argument order. */
  lemma ClassNamesOfStrings(classes: seq<string>)
    requires forall k :: 0 <= k < |classes| ==> classes[k] != ""
    ensures ClassNames(seq(|classes|, k requires 0 <= k < |classes| => Str(classes[k])))
            == Text.Join(classes, " ")
  {
    var vs := seq(|classes|, k requires 0 <= k < |classes| => Str(classes[k]));
    Sequences.KeepAll(vs, Truthy);
    var texts := seq(|vs|, k requires 0 <= k < |vs| => ToText(vs[k]));
    assert texts == classes;
  }

  /** `handleLogout`: forget the identity, then go to the login page (a
      normal history push, not a replace). */
  function HandleLogout(s: Session): (r: (Session, Navigation))
    ensures !IsAdmin(r.0.userInfo) && !Truthy(r.0.userInfo)
    ensures r.0.accessToken == s.accessToken && r.0.refreshToken == s.refreshToken
    ensures r.1 == Navigate("/login", false)
  {
    (Logout(s), Navigate("/login", false))
  }
}
