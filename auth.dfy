/**
 * The server middleware that guards the API: every request passes through
 * it, and it either lets the request go on or answers 401. The decision
 * depends on the request URL (path and query string as sent), the method
 * and the `auth_token` cookie, which the login handlers set to
 * `authenticated`.
 */
module Auth {
  import opened Wrappers

  /** The cookie value the login handlers set. */
  const Token := "authenticated"

  /** The prefixes anyone may use with any method. */
  const PublicPaths: seq<string> := ["/api/admin/login", "/api/auth/login", "/api/stats", "/api/visitor"]

  /** The prefixes that need the cookie whatever the method. */
  const ProtectedPaths: seq<string> := ["/api/upload", "/api/admin"]

  /** The prefixes whose `GET` requests are public. */
  const ReadPaths: seq<string> := ["/api/blog", "/api/articles", "/api/categories", "/api/tags"]

  datatype Decision = Pass | Unauthorized

  /** `s.startsWith(p)`. */
  predicate StartsWith(s: string, p: string) {
    |p| <= |s| && s[..|p|] == p
  }

  /** `prefixes.some(p => path.startsWith(p))`. */
  predicate AnyPrefix(path: string, prefixes: seq<string>) {
    exists k :: 0 <= k < |prefixes| && StartsWith(path, prefixes[k])
  }

  /** The first test: a public prefix, or a `GET` under a readable prefix. */
  predicate IsPublic(path: string, verb: Option<string>) {
    AnyPrefix(path, PublicPaths) || (AnyPrefix(path, ReadPaths) && verb == Some("GET"))
  }

  /** `needsAuth`: a protected prefix (other than the admin login itself),
      or a writing method under `/api/blog`. */
  predicate NeedsAuth(path: string, verb: Option<string>) {
    (AnyPrefix(path, ProtectedPaths) && path != "/api/admin/login")
    || (StartsWith(path, "/api/blog") && verb.GetOr("") in ["POST", "PUT", "DELETE"])
  }

  /** The middleware: `url` is `req.url` (`None` when unset, read as `''`),
      `token` the `auth_token` cookie. */
  function Decide(url: Option<string>, verb: Option<string>, token: Option<string>): (d: Decision)
    ensures d == Unauthorized <==>
      var path := url.GetOr("");
      StartsWith(path, "/api/") && !IsPublic(path, verb) && NeedsAuth(path, verb) && token != Some(Token)
  {
    var path := url.GetOr("");
    if !StartsWith(path, "/api/") then Pass
    else if IsPublic(path, verb) then Pass
    else if NeedsAuth(path, verb) && (token.None? || token.value == "" || token.value != Token) then Unauthorized
    else Pass
  }

  /** Page routes are never intercepted. */
  lemma PagesPass(url: Option<string>, verb: Option<string>, token: Option<string>)
    requires !StartsWith(url.GetOr(""), "/api/")
    ensures Decide(url, verb, token) == Pass
  {
  }

  /** A public prefix passes with any method and no cookie. */
  lemma PublicPrefixPasses(path: string, k: nat, verb: Option<string>, token: Option<string>)
    requires k < |PublicPaths| && StartsWith(path, PublicPaths[k])
    ensures Decide(Some(path), verb, token) == Pass
  {
    assert StartsWith(path, "/api/") by {
      assert PublicPaths[k][..5] == "/api/";
      assert path[..5] == path[..|PublicPaths[k]|][..5];
    }
  }

  /** Prefix matching makes everything under `/api/stats` public, the
      article statistics included. */
  lemma StatsArticlesPublic(verb: Option<string>, token: Option<string>)
    ensures Decide(Some("/api/stats/articles"), verb, token) == Pass
  {
    PublicPrefixPasses("/api/stats/articles", 2, verb, token);
  }

  /** `GET` under the blog, article, category and tag prefixes passes. */
  lemma ReadsPass(path: string, k: nat, token: Option<string>)
    requires k < |ReadPaths| && StartsWith(path, ReadPaths[k])
    ensures Decide(Some(path), Some("GET"), token) == Pass
  {
    assert path[..5] == path[..|ReadPaths[k]|][..5];
  }

  /** Uploads, the admin API and writes to the blog need the cookie. */
  lemma GuardedNeedCookie(path: string, verb: Option<string>, token: Option<string>)
    requires StartsWith(path, "/api/upload") || StartsWith(path, "/api/admin")
             || (StartsWith(path, "/api/blog") && verb in [Some("POST"), Some("PUT"), Some("DELETE")])
    requires !AnyPrefix(path, PublicPaths)
    ensures Decide(Some(path), verb, token) == Pass <==> token == Some(Token)
  {
    assert StartsWith("/api/admin/login", PublicPaths[0]);
    if StartsWith(path, "/api/upload") {
      assert path[..5] == path[..11][..5];
      assert StartsWith(path, ProtectedPaths[0]);
      assert path[5] == path[..11][5] == 'u';
    } else if StartsWith(path, "/api/admin") {
      assert path[..5] == path[..10][..5];
      assert StartsWith(path, ProtectedPaths[1]);
      assert path != "/api/admin/login";
      assert path[5] == path[..10][5] == 'a' && path[6] == path[..10][6] == 'd';
      forall k | 0 <= k < |ReadPaths| ensures !StartsWith(path, ReadPaths[k]) {
        assert ReadPaths[k][5] != 'a' || ReadPaths[k][6] != 'd';
      }
    } else {
      assert path[..5] == path[..9][..5];
    }
  }

  /** Any other API request passes without a cookie: saving an article is
      not guarded. */
  lemma SaveArticleUnguarded(token: Option<string>)
    ensures Decide(Some("/api/articles/save"), Some("POST"), token) == Pass
  {
    var path := "/api/articles/save";
    assert path[..9][5] == 'a' != "/api/blog"[5];
    assert path[..11][5] == 'a' != ProtectedPaths[0][5];
    assert path[..10][6] == 'r' != ProtectedPaths[1][6];
  }
}
