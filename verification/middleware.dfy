/**
 * The route guard of middleware.ts: the `authorized` callback decides, from
 * the request path and the session token, whether a request may proceed.
 */
module Middleware {
  import opened Wrappers
  import opened Text

  /** The decoded session token; only its role is consulted. */
  datatype Token = Token(role: Option<string>)

  predicate IsPublicPath(pathname: string) {
    pathname == "/login" || StartsWith(pathname, "/api/auth")
  }

  predicate HasAdminRole(token: Option<Token>) {
    token.Some? && token.value.role == Some("admin")
  }

  /** The `authorized` callback. */
  function Authorized(pathname: string, token: Option<Token>): (ok: bool)
    ensures IsPublicPath(pathname) ==> ok
    ensures !IsPublicPath(pathname) && StartsWith(pathname, "/admin") ==> (ok <==> HasAdminRole(token))
    ensures !IsPublicPath(pathname) && !StartsWith(pathname, "/admin") ==> (ok <==> token.Some?)
  {
    if IsPublicPath(pathname) then true
    else if StartsWith(pathname, "/admin") then HasAdminRole(token)
    else token.Some?
  }

  /** An administrator's token passes on every path. */
  lemma AdminPassesEverywhere(pathname: string, token: Option<Token>)
    requires HasAdminRole(token)
    ensures Authorized(pathname, token)
  {
  }

  /** Without a token, exactly the public paths pass. */
  lemma AnonymousOnlyPublic(pathname: string)
    ensures Authorized(pathname, None) <==> IsPublicPath(pathname)
  {
  }

  /** Having a token never makes a path less accessible than having none. */
  lemma TokenNeverHurts(pathname: string, token: Token)
    ensures Authorized(pathname, None) ==> Authorized(pathname, Some(token))
  {
  }

  /**
   * The administrator API lives under "/api/admin", which neither starts
   * with "/admin" nor with "/api/auth": any token passes there, and the role
   * check is left to the route handlers.
   */
  lemma AdminApiNeedsOnlyAToken(rest: string, token: Option<Token>)
    ensures Authorized("/api/admin" + rest, token) <==> token.Some?
  {
    var p := "/api/admin" + rest;
    assert p[..|"/admin"|] != "/admin" by {
      assert p[1] == 'a' && "/admin"[1] == 'a';
      assert p[2] == 'p' && "/admin"[2] == 'd';
    }
    assert p[..|"/api/auth"|] != "/api/auth" by {
      assert p[6] == 'd' && "/api/auth"[6] == 'u';
    }
    assert p != "/login" by {
      assert p[1] == 'a';
    }
  }
}
