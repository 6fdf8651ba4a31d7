/**
 * The frontend's authentication helper: whether the session is signed in,
 * whether it is an admin session, the signed-in user and their roles, the
 * refresh of the store from the stored token, and the access decision for a
 * route. What the browser supplies (the stored token, the payload decoder
 * and `Date.now()`) travels with the store state in a `Session`.
 */
module Auth {
  import opened Wrappers
  import opened Js
  import JwtService
  import Store

  /** The store state together with the stored token, the payload decoder and the clock. */
  datatype Session = Session(
    token: Option<string>,
    decode: JwtService.Decoder,
    now: int,
    st: Store.State)

  /** The stored token is present and unexpired. */
  predicate TokenValid(s: Session)
  {
    JwtService.HasToken(s.token) && !JwtService.IsTokenExpired(s.token, s.decode, s.now)
  }

  /**
   * `isAuthenticated`: a stored token, unexpired, and the store's flag. In
   * terms of the claims: they decode, carry a truthy `exp`, and that `exp` is
   * either not a number (then it never lapses) or lies after now.
   */
  function IsAuthenticated(s: Session): (r: bool)
    ensures r ==> s.st.isAuthenticated && JwtService.HasToken(s.token)
    ensures var claims := JwtService.ParseToken(s.token, s.decode);
      r <==>
        && s.st.isAuthenticated
        && claims.Some?
        && Truthy(Prop(claims.value, "exp"))
        && (ToNumber(Prop(claims.value, "exp")).None? || s.now < ToNumber(Prop(claims.value, "exp")).value * 1000)
  {
    TokenValid(s) && s.st.isAuthenticated
  }

  /** `isAdmin`: an authenticated session whose stored user carries a truthy admin flag. */
  function IsAdmin(s: Session): (r: bool)
    ensures r ==> IsAuthenticated(s)
    ensures r ==> s.st.user.Some? && Truthy(s.st.user.value.isAdmin)
    ensures IsAuthenticated(s) && Store.IsAdmin(s.st) ==> r
  {
    IsAuthenticated(s) && Store.IsAdmin(s.st)
  }

  /** `getUser`: the stored user of an authenticated session, and nothing otherwise. */
  function GetUser(s: Session): (r: Option<JwtService.User>)
    ensures !IsAuthenticated(s) ==> r.None?
    ensures IsAuthenticated(s) ==> r == s.st.user
  {
    if IsAuthenticated(s) then s.st.user else None
  }

  /**
   * `getUserRoles`: no roles without a user or with a falsy role, the items of
   * an array role, and otherwise the role on its own.
   */
  function GetUserRoles(s: Session): (r: seq<Value>)
    ensures GetUser(s).None? ==> r == []
    ensures GetUser(s).Some? && !Truthy(GetUser(s).value.role) ==> r == []
    ensures GetUser(s).Some? && GetUser(s).value.role.Arr? ==> r == GetUser(s).value.role.items
    ensures GetUser(s).Some? && Truthy(GetUser(s).value.role) && !GetUser(s).value.role.Arr? ==>
      r == [GetUser(s).value.role]
  {
    match GetUser(s)
    case None => []
    case Some(user) =>
      if !Truthy(user.role) then []
      else if user.role.Arr? then user.role.items
      else [user.role]
  }

  /**
   * `refreshAuth`: with a valid token whose claims give a user, stores that
   * user as authenticated and answers true; otherwise changes nothing and
   * answers false.
   */
  function RefreshAuth(s: Session): (r: (Session, bool))
    ensures r.0.(st := s.st) == s
    ensures !r.1 ==> r.0 == s
    ensures r.1 <==> TokenValid(s)
    ensures r.1 ==> r.0.st == Store.SetAuth(s.st, JwtService.GetUserFromToken(s.token, s.decode), true)
  {
    var user := JwtService.GetUserFromToken(s.token, s.decode);
    if TokenValid(s) && user.Some? then (s.(st := Store.SetAuth(s.st, user, true)), true)
    else (s, false)
  }

  /** The route's meta object has a truthy field `name`; a missing meta has none. */
  predicate MetaFlag(meta: Option<Props>, name: string)
  {
    meta.Some? && Truthy(Prop(meta.value, name))
  }

  /**
   * `canAccess`: a route without `requiresAuth` is open; otherwise the session
   * must be authenticated, and an admin session when `requiresAdmin` is set too.
   */
  function CanAccess(s: Session, meta: Option<Props>): (r: bool)
    ensures !MetaFlag(meta, "requiresAuth") ==> r
    ensures MetaFlag(meta, "requiresAuth") && !IsAuthenticated(s) ==> !r
    ensures MetaFlag(meta, "requiresAuth") && MetaFlag(meta, "requiresAdmin") && !IsAdmin(s) ==> !r
    ensures MetaFlag(meta, "requiresAuth") && IsAuthenticated(s) && !MetaFlag(meta, "requiresAdmin") ==> r
  {
    if !MetaFlag(meta, "requiresAuth") then true
    else if !IsAuthenticated(s) then false
    else if MetaFlag(meta, "requiresAdmin") && !IsAdmin(s) then false
    else true
  }

  /** A successful refresh leaves the session authenticated, as the stored user. */
  lemma RefreshAuthenticates(s: Session)
    requires RefreshAuth(s).1
    ensures IsAuthenticated(RefreshAuth(s).0)
    ensures GetUser(RefreshAuth(s).0) == JwtService.GetUserFromToken(s.token, s.decode)
  {
  }

  /** Roles are only ever reported for an authenticated session. */
  lemma RolesNeedAuthentication(s: Session)
    requires |GetUserRoles(s)| > 0
    ensures IsAuthenticated(s) && s.st.user.Some?
  {
  }

  /** After logout no route that requires sign-in is accessible, and every other one is. */
  lemma LogoutClosesProtectedRoutes(s: Session, meta: Option<Props>)
    ensures CanAccess(s.(st := Store.Logout(s.st)), meta) <==> !MetaFlag(meta, "requiresAuth")
    ensures GetUserRoles(s.(st := Store.Logout(s.st))) == []
  {
  }

  /** An admin session can open every route. */
  lemma AdminOpensEveryRoute(s: Session, meta: Option<Props>)
    requires IsAdmin(s)
    ensures CanAccess(s, meta)
  {
  }

  /**
   * `requiresAdmin` guards nothing on its own: a route that sets it without
   * `requiresAuth` is open to a signed-out visitor.
   */
  lemma AdminFlagAloneIsOpen(s: Session)
    ensures CanAccess(s, Some(map["requiresAdmin" := Bool(true)]))
  {
    assert !MetaFlag(Some(map["requiresAdmin" := Bool(true)]), "requiresAuth");
  }

  /**
   * An expired token closes protected routes whatever the store's flag says:
   * the store can still hold a signed-in user after the token has lapsed.
   */
  lemma ExpiredTokenClosesProtectedRoutes(s: Session, meta: Option<Props>)
    requires JwtService.IsTokenExpired(s.token, s.decode, s.now)
    requires MetaFlag(meta, "requiresAuth")
    ensures !CanAccess(s, meta)
    ensures GetUser(s).None? && GetUserRoles(s) == []
  {
  }
}
