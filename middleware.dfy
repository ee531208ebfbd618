/**
 * The route guard of src/middleware.ts: the list of protected routes, the
 * prefix test that decides whether a path is protected, and the decision the
 * middleware takes for one request — finish a sign-in that came back with an
 * auth `code`, send anonymous visitors of protected pages to the login page,
 * send signed-in visitors of the login page to the dashboard, or let the
 * request through. The session store is abstracted into what its calls answer.
 */
module Middleware {
  import opened Wrappers
  import opened Strings

  const ProtectedRoutes: seq<string> := ["/dashboard", "/new", "/setup", "/settings", "/admin"]

  /** A request URL: its path and its query parameters, in order (the origin is kept by every redirect). */
  datatype Url = Url(pathname: string, params: seq<(string, string)>)

  /** What the session calls answer for this request. */
  datatype Session = Session(
    exchangeSucceeds: bool, // `exchangeCodeForSession` returns no error
    signedIn: bool,         // `getUser` returns a user
    hasProfile: bool)       // the user's row in `profiles` exists

  datatype Response = Next | Redirect(location: Url)

  /** The route itself or anything below it; "/admins" is not below "/admin". */
  predicate UnderRoute(pathname: string, route: string) {
    pathname == route || StartsWith(pathname, route + "/")
  }

  /** `routes.some(...)` over a list of routes. */
  function SomeRoute(routes: seq<string>, pathname: string): (r: bool)
    ensures r <==> exists i :: 0 <= i < |routes| && UnderRoute(pathname, routes[i])
  {
    if |routes| == 0 then false
    else if UnderRoute(pathname, routes[0]) then true
    else
      var r := SomeRoute(routes[1..], pathname);
      assert forall i :: 1 <= i < |routes| ==> routes[1..][i - 1] == routes[i];
      r
  }

  /** `isProtected`. */
  predicate IsProtected(pathname: string) {
    SomeRoute(ProtectedRoutes, pathname)
  }

  /** A path is protected exactly when it is one of the routes or lies below one. */
  lemma ProtectedMeans(pathname: string)
    ensures IsProtected(pathname) <==> exists route :: route in ProtectedRoutes && UnderRoute(pathname, route)
  {
    if IsProtected(pathname) {
      var i :| 0 <= i < |ProtectedRoutes| && UnderRoute(pathname, ProtectedRoutes[i]);
      assert ProtectedRoutes[i] in ProtectedRoutes;
    }
  }

  /** A route and the paths below it are protected. */
  lemma ProtectedExamples()
    ensures IsProtected("/admin") && IsProtected("/admin/x") && IsProtected("/dashboard")
  {
    assert UnderRoute("/admin/x", ProtectedRoutes[4]) by {
      assert "/admin/x"[..|"/admin/"|] == "/admin/";
    }
    assert UnderRoute("/admin", ProtectedRoutes[4]);
    assert UnderRoute("/dashboard", ProtectedRoutes[0]);
  }

  /** A path that merely starts with the letters of a route is not protected. */
  lemma NewsletterNotProtected()
    ensures !IsProtected("/newsletter")
  {
    NotProtected("/newsletter", [1, 4, 1, 1, 1]);
  }

  lemma AdminsNotProtected()
    ensures !IsProtected("/admins")
  {
    NotProtected("/admins", [1, 1, 1, 1, 6]);
  }

  /** The login page and the root are open to everyone. */
  lemma LoginNotProtected()
    ensures !IsProtected("/login") && !IsProtected("/")
  {
    NotProtected("/login", [1, 1, 1, 1, 1]);
  }

  /** A path that differs from `route + "/"` at some position, and is not the route, is not under it. */
  lemma DiffersFrom(pathname: string, route: string, k: nat)
    requires k < |pathname| && k <= |route| && pathname[k] != (route + "/")[k] && pathname != route
    ensures !UnderRoute(pathname, route)
  {
    if |route + "/"| <= |pathname| {
      assert pathname[..|route + "/"|][k] == pathname[k];
    }
  }

  /** A path that differs from each route at the given position is not protected. */
  lemma NotProtected(pathname: string, ks: seq<nat>)
    requires |ks| == |ProtectedRoutes|
    requires forall i :: 0 <= i < |ks| ==>
               ks[i] < |pathname| && ks[i] <= |ProtectedRoutes[i]| &&
               pathname[ks[i]] != (ProtectedRoutes[i] + "/")[ks[i]] && pathname != ProtectedRoutes[i]
    ensures !IsProtected(pathname)
  {
    forall i | 0 <= i < |ProtectedRoutes| ensures !UnderRoute(pathname, ProtectedRoutes[i]) {
      DiffersFrom(pathname, ProtectedRoutes[i], ks[i]);
    }
  }

  /** `searchParams.get(key)`: the first value given for the key. */
  function GetParam(params: seq<(string, string)>, key: string): (r: Option<string>)
    ensures r.None? <==> forall i :: 0 <= i < |params| ==> params[i].0 != key
    ensures r.Some? ==> exists i :: 0 <= i < |params| && params[i] == (key, r.value)
  {
    if |params| == 0 then None
    else if params[0].0 == key then Some(params[0].1)
    else
      var r := GetParam(params[1..], key);
      assert forall i :: 1 <= i < |params| ==> params[1..][i - 1] == params[i];
      r
  }

  /** `searchParams.delete(key)`: every pair with that key removed, the rest kept in order. */
  function DeleteParam(params: seq<(string, string)>, key: string): (r: seq<(string, string)>)
    ensures forall i :: 0 <= i < |r| ==> r[i].0 != key
    ensures forall p :: p in r <==> p in params && p.0 != key
  {
    if |params| == 0 then []
    else
      var rest := DeleteParam(params[1..], key);
      assert forall p :: p in params <==> p == params[0] || p in params[1..];
      if params[0].0 == key then rest else [params[0]] + rest
  }

  /** Deleting one key leaves the value of every other key as it was. */
  lemma {:induction false} DeleteKeepsOthers(params: seq<(string, string)>, key: string, other: string)
    requires other != key
    ensures GetParam(DeleteParam(params, key), other) == GetParam(params, other)
  {
    if |params| > 0 {
      DeleteKeepsOthers(params[1..], key, other);
      var rest := DeleteParam(params[1..], key);
      if params[0].0 != key {
        assert ([params[0]] + rest)[1..] == rest;
      }
    }
  }

  /** The `code` parameter counts only when present and non-empty. */
  predicate HasCode(url: Url) {
    var code := GetParam(url.params, "code");
    code.Some? && code.value != ""
  }

  /** The login page, remembering where the visitor was going. */
  function LoginRedirect(pathname: string): Url {
    Url("/login", [("redirectTo", pathname)])
  }

  /** `middleware`: the response to one request. */
  function Decide(url: Url, session: Session): (r: Response)
    ensures HasCode(url) ==> r.Redirect?
  {
    if HasCode(url) then
      if session.exchangeSucceeds && session.signedIn then
        Redirect(Url(if session.hasProfile then "/dashboard" else "/setup", []))
      else
        Redirect(url.(params := DeleteParam(url.params, "code")))
    else if IsProtected(url.pathname) && !session.signedIn then
      Redirect(LoginRedirect(url.pathname))
    else if url.pathname == "/login" && session.signedIn then
      Redirect(Url("/dashboard", []))
    else
      Next
  }

  /**
   * A returning sign-in: on success a first-time user (no profile) goes to
   * /setup and everyone else to the dashboard; otherwise the same page is asked
   * for again with the code removed and every other parameter kept. The code
   * branch never falls through to the route checks.
   */
  lemma CodeExchange(url: Url, session: Session)
    requires HasCode(url)
    ensures session.exchangeSucceeds && session.signedIn && session.hasProfile ==>
              Decide(url, session) == Redirect(Url("/dashboard", []))
    ensures session.exchangeSucceeds && session.signedIn && !session.hasProfile ==>
              Decide(url, session) == Redirect(Url("/setup", []))
    ensures !(session.exchangeSucceeds && session.signedIn) ==>
              && Decide(url, session).Redirect?
              && Decide(url, session).location.pathname == url.pathname
              && GetParam(Decide(url, session).location.params, "code").None?
              && forall k :: k != "code" ==> GetParam(Decide(url, session).location.params, k) == GetParam(url.params, k)
  {
    if !(session.exchangeSucceeds && session.signedIn) {
      forall k | k != "code"
        ensures GetParam(DeleteParam(url.params, "code"), k) == GetParam(url.params, k)
      {
        DeleteKeepsOthers(url.params, "code", k);
      }
    }
  }

  /** The URL left after a failed exchange does not carry a code, so the next request goes through the route checks. */
  lemma StrippedUrlLeavesCodeBranch(url: Url, session: Session)
    requires HasCode(url) && !(session.exchangeSucceeds && session.signedIn)
    ensures !HasCode(Decide(url, session).location)
  {
    CodeExchange(url, session);
  }

  /**
   * Without a code: an anonymous visitor of a protected path goes to the login
   * page with `redirectTo` set to that path, a signed-in visitor of the login
   * page goes to the dashboard, and every other request passes unchanged.
   */
  lemma RouteGuard(url: Url, session: Session)
    requires !HasCode(url)
    ensures IsProtected(url.pathname) && !session.signedIn <==> Decide(url, session) == Redirect(LoginRedirect(url.pathname))
    ensures url.pathname == "/login" && session.signedIn <==> Decide(url, session) == Redirect(Url("/dashboard", []))
    ensures Decide(url, session) == Next <==>
              !(IsProtected(url.pathname) && !session.signedIn) && !(url.pathname == "/login" && session.signedIn)
  {
    LoginNotProtected();
  }

  /** The login redirect carries the original path in `redirectTo` and nothing else. */
  lemma LoginRedirectCarriesPath(pathname: string)
    ensures LoginRedirect(pathname).pathname == "/login"
    ensures GetParam(LoginRedirect(pathname).params, "redirectTo") == Some(pathname)
    ensures forall k :: k != "redirectTo" ==> GetParam(LoginRedirect(pathname).params, k).None?
  {
  }

  /**
   * The guard's redirects do not loop: an anonymous visitor sent to the login
   * page is let through there, and a signed-in visitor sent to the dashboard is
   * let through there.
   */
  lemma RedirectsSettle(pathname: string, session: Session)
    ensures !session.signedIn ==> Decide(LoginRedirect(pathname), session) == Next
    ensures session.signedIn ==> Decide(Url("/dashboard", []), session) == Next
  {
    LoginNotProtected();
    ProtectedExamples();
    var login := LoginRedirect(pathname);
    assert !HasCode(login) by {
      assert GetParam(login.params, "code").None? by {
        assert login.params[0].0 != "code";
      }
    }
  }
}
