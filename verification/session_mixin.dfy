/**
 * The session mixin components use: the signed-in user as the store holds
 * it, and the access decision for the current route, which looks at the
 * meta fields of every matched route record (a nested route's parents
 * included) rather than at one meta object. The mixin's computed
 * `isAuthenticated` and `isAdmin` are the same expressions as the helper's,
 * and are `Auth.IsAuthenticated` and `Auth.IsAdmin` here.
 */
module SessionMixin {
  import opened Wrappers
  import opened Js
  import JwtService
  import Store
  import Auth

  /** One matched route record; the router gives every record a meta object. */
  datatype RouteRecord = RouteRecord(meta: Props)

  /** `matched.some(record => record.meta[name])`. */
  function AnyRecordFlags(matched: seq<RouteRecord>, name: string): (r: bool)
    ensures r <==> exists i :: 0 <= i < |matched| && Truthy(Prop(matched[i].meta, name))
  {
    if |matched| == 0 then false
    else if Truthy(Prop(matched[0].meta, name)) then true
    else
      var rest := AnyRecordFlags(matched[1..], name);
      assert forall i :: 1 <= i < |matched| ==> matched[i] == matched[1..][i - 1];
      assert rest ==> exists i :: 1 <= i < |matched| && Truthy(Prop(matched[i].meta, name)) by {
        if rest {
          var j :| 0 <= j < |matched[1..]| && Truthy(Prop(matched[1..][j].meta, name));
          assert matched[j + 1] == matched[1..][j];
        }
      }
      rest
  }

  /** `routeRequiresAuth`: some matched record sets `requiresAuth`. */
  function RouteRequiresAuth(matched: seq<RouteRecord>): (r: bool)
    ensures r <==> exists i :: 0 <= i < |matched| && Truthy(Prop(matched[i].meta, "requiresAuth"))
  {
    AnyRecordFlags(matched, "requiresAuth")
  }

  /** `routeRequiresAdmin`: some matched record sets `requiresAdmin`. */
  function RouteRequiresAdmin(matched: seq<RouteRecord>): (r: bool)
    ensures r <==> exists i :: 0 <= i < |matched| && Truthy(Prop(matched[i].meta, "requiresAdmin"))
  {
    AnyRecordFlags(matched, "requiresAdmin")
  }

  /** `currentUser`: the stored user, or an empty object whose every field reads undefined. */
  function CurrentUser(st: Store.State): (r: JwtService.User)
    ensures st.user.Some? ==> r == st.user.value
    ensures st.user.None? ==>
      && r.id == Undefined && r.username == Undefined && r.email == Undefined
      && r.isAdmin == Undefined && r.role == Undefined && r.groupId == Undefined
  {
    match st.user
    case Some(user) => user
    case None => JwtService.User(Undefined, Undefined, Undefined, Undefined, Undefined, Undefined)
  }

  /**
   * `canAccessCurrentRoute`: open unless some matched record requires sign-in;
   * then the session must be authenticated, and an admin session when some
   * matched record requires admin.
   */
  function CanAccessCurrentRoute(s: Auth.Session, matched: seq<RouteRecord>): (r: bool)
    ensures !RouteRequiresAuth(matched) ==> r
    ensures RouteRequiresAuth(matched) && !Auth.IsAuthenticated(s) ==> !r
    ensures RouteRequiresAuth(matched) && RouteRequiresAdmin(matched) && !Auth.IsAdmin(s) ==> !r
    ensures RouteRequiresAuth(matched) && Auth.IsAuthenticated(s) && !RouteRequiresAdmin(matched) ==> r
  {
    if !RouteRequiresAuth(matched) then true
    else if !Auth.IsAuthenticated(s) then false
    else if RouteRequiresAdmin(matched) && !Auth.IsAdmin(s) then false
    else true
  }

  /** For a route of one record, the mixin and the helper's `canAccess` decide alike. */
  lemma SingleRecordAgreesWithCanAccess(s: Auth.Session, meta: Props)
    ensures CanAccessCurrentRoute(s, [RouteRecord(meta)]) == Auth.CanAccess(s, Some(meta))
  {
    assert RouteRequiresAuth([RouteRecord(meta)]) == Auth.MetaFlag(Some(meta), "requiresAuth");
    assert RouteRequiresAdmin([RouteRecord(meta)]) == Auth.MetaFlag(Some(meta), "requiresAdmin");
  }

  /** A parent record that requires sign-in closes all its children to a signed-out session. */
  lemma {:induction false} ProtectedParentClosesChildren(s: Auth.Session, parent: RouteRecord, children: seq<RouteRecord>)
    requires Truthy(Prop(parent.meta, "requiresAuth"))
    requires !Auth.IsAuthenticated(s)
    ensures !CanAccessCurrentRoute(s, [parent] + children)
  {
    assert ([parent] + children)[0] == parent;
  }

  /** An admin session can open every route. */
  lemma AdminOpensEveryRoute(s: Auth.Session, matched: seq<RouteRecord>)
    requires Auth.IsAdmin(s)
    ensures CanAccessCurrentRoute(s, matched)
  {
  }

  /** After logout the current user reads as the empty object. */
  lemma LoggedOutUserIsEmpty(st: Store.State)
    ensures CurrentUser(Store.Logout(st)).isAdmin == Undefined
    ensures !Truthy(CurrentUser(Store.Logout(st)).id)
  {
  }
}
