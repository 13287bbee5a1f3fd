/** The admin route guard of the website (sih-website/middleware.ts): for a
    request path and the value of the `admin_token` cookie, if any, it either
    lets the request through or redirects it to the login page `/admin`.
    Only the decision is modelled; the request and response objects of the
    framework are not. */
module Middleware {

  import opened Wrappers
  import opened AsciiText

  /** NextResponse.next(), or NextResponse.redirect to a URL whose pathname
      is the one given. */
  datatype Decision = Next | Redirect(pathname: string)

  /** PROTECTED_PREFIXES. */
  const ProtectedPrefixes: seq<string> :=
    ["/admin/dashboard", "/admin/contributors", "/admin/media",
     "/admin/monasteries", "/admin/settings", "/admin/submissions"]

  /** Where a request without a token is sent. */
  const LoginPath: string := "/admin"

  /** Framework internals and public assets, which are never guarded. */
  predicate IsSkipped(pathname: string) {
    StartsWith(pathname, "/_next") || StartsWith(pathname, "/static") ||
    StartsWith(pathname, "/public") || StartsWith(pathname, "/api/auth")
  }

  /** The path is the prefix itself or lies below it. */
  predicate IsUnder(pathname: string, prefix: string) {
    pathname == prefix || StartsWith(pathname, prefix + "/")
  }

  /** PROTECTED_PREFIXES.some(p => pathname === p || pathname.startsWith(p + '/')). */
  predicate IsProtected(pathname: string) {
    exists prefix :: prefix in ProtectedPrefixes && IsUnder(pathname, prefix)
  }

  /** JavaScript truthiness of the cookie value: present and not empty. */
  predicate HasToken(token: Option<string>) {
    token.Some? && token.value != ""
  }

  /** middleware(request): skipped paths pass, unprotected paths pass, a
      protected path without a token is redirected to the login page, and a
      protected path with a token passes (the token is only checked for
      presence; it is validated elsewhere). */
  function Decide(pathname: string, token: Option<string>): (d: Decision)
    ensures d == Next || d == Redirect(LoginPath)
    ensures d.Redirect? <==> !IsSkipped(pathname) && IsProtected(pathname) && !HasToken(token)
  {
    if IsSkipped(pathname) then Next
    else if !IsProtected(pathname) then Next
    else if !HasToken(token) then Redirect(LoginPath)
    else Next
  }

  /** Every protected path lies below `/admin/`. */
  lemma ProtectedIsUnderAdmin(pathname: string)
    requires IsProtected(pathname)
    ensures StartsWith(pathname, "/admin/")
  {
    var prefix :| prefix in ProtectedPrefixes && IsUnder(pathname, prefix);
    assert StartsWith(prefix, "/admin/");
    if pathname != prefix {
      StartsWithTransitive(pathname, prefix + "/", prefix);
      StartsWithTransitive(pathname, prefix, "/admin/");
    } else {
      assert pathname[..7] == prefix[..7];
    }
  }

  /** No protected path is skipped, so for a protected path only the token
      decides. */
  lemma ProtectedIsNotSkipped(pathname: string)
    requires IsProtected(pathname)
    ensures !IsSkipped(pathname)
  {
    ProtectedIsUnderAdmin(pathname);
    assert pathname[1] == pathname[..7][1] == 'a';
    assert pathname[2] == pathname[..7][2] == 'd';
    assert |pathname| >= 7;
  }

  /** A skipped path passes through, whatever the token. */
  lemma SkippedPasses(pathname: string, token: Option<string>)
    requires IsSkipped(pathname)
    ensures Decide(pathname, token) == Next
  {
  }

  /** A path that is not protected passes through, whatever the token. */
  lemma UnprotectedPasses(pathname: string, token: Option<string>)
    requires !IsProtected(pathname)
    ensures Decide(pathname, token) == Next
  {
  }

  /** On a protected path a missing or empty token redirects to exactly
      `/admin` and any other token passes. */
  lemma ProtectedNeedsToken(pathname: string, token: Option<string>)
    requires IsProtected(pathname)
    ensures Decide(pathname, token) == if HasToken(token) then Next else Redirect(LoginPath)
  {
    ProtectedIsNotSkipped(pathname);
  }

  /** Only the presence of the token matters, not its value. */
  lemma TokenValueIrrelevant(pathname: string, t1: string, t2: string)
    requires t1 != "" && t2 != ""
    ensures Decide(pathname, Some(t1)) == Decide(pathname, Some(t2)) == Next
  {
  }

  /** The prefix itself and the paths below it are protected; a path that
      merely extends the prefix's last segment is not, and neither is the
      login page. */
  lemma ProtectedExamples()
    ensures IsProtected("/admin/dashboard")
    ensures IsProtected("/admin/dashboard/stats")
    ensures !IsProtected("/admin/dashboardx")
    ensures !IsProtected(LoginPath)
  {
    assert IsUnder("/admin/dashboard", ProtectedPrefixes[0]);
    assert IsUnder("/admin/dashboard/stats", ProtectedPrefixes[0]);
    var s := "/admin/dashboardx";
    DifferAt(s, ProtectedPrefixes[0] + "/", 16);
    forall k | 1 <= k < |ProtectedPrefixes|
      ensures !IsUnder(s, ProtectedPrefixes[k])
    {
      DifferAt(s, ProtectedPrefixes[k], 7);
      DifferAt(s, ProtectedPrefixes[k] + "/", 7);
    }
    NotProtected(s);
    NotProtected(LoginPath);
  }

  /** A path that is not under any of the six prefixes, checked one by one. */
  lemma NotProtected(pathname: string)
    requires forall k :: 0 <= k < |ProtectedPrefixes| ==> !IsUnder(pathname, ProtectedPrefixes[k])
    ensures !IsProtected(pathname)
  {
  }

  /** The login page is neither skipped nor protected, so a redirected request
      is let through on the next round, with or without a token. */
  lemma RedirectDoesNotLoop(pathname: string, token: Option<string>, next: Option<string>)
    ensures Decide(pathname, token).Redirect? ==> Decide(Decide(pathname, token).pathname, next) == Next
  {
    ProtectedExamples();
    DifferAt(LoginPath, "/_next", 1);
  }
}
