/** The base `Auth` strategy shared by the Basic and the Session variants:
    which routes are exempt from authentication, and the request accessors.

    Both copies of the class (Basic and Session exercise) have the same
    `require_auth` and `current_user`; the Session copy adds
    `session_cookie`.  A request is reduced to its header and cookie maps. */
module Auth {
  import opened Wrappers

  /** An inbound request: header values and cookie values by name. */
  datatype Request = Request(headers: map<string, string>, cookies: map<string, string>)

  /** The header that carries a credential. */
  const AuthorizationName: string := "Authorization"

  predicate EndsWithSlash(s: string) {
    |s| > 0 && s[|s| - 1] == '/'
  }

  /** `s` with one trailing `/` removed, if it has one. */
  function DropSlash(s: string): string {
    if EndsWithSlash(s) then s[..|s| - 1] else s
  }

  /** The slash-tolerant form of a non-empty path: `/` appended unless it
      is already the last character. */
  function SlashPath(path: string): (r: string)
    requires path != []
    ensures EndsWithSlash(r)
    ensures DropSlash(r) == DropSlash(path)
  {
    if path[|path| - 1] != '/' then path + "/" else path
  }

  /** Whether a request to `path` must be authenticated, given the
      exclusion list.  `None` stands for a missing argument; indexing the
      last character of an empty path raises `IndexError`. */
  function RequireAuth(path: Option<string>, excluded: Option<seq<string>>): (r: Result<bool>)
    ensures path == None ==> r == Ok(true)
    ensures excluded == None || excluded == Some([]) ==> r == Ok(true)
    ensures r.Err? <==> path == Some("") && excluded.Some? && excluded.value != []
    ensures r.Err? ==> r.error == IndexError
    ensures r == Ok(false) ==> path.Some? && exists e :: e in excluded.value && EndsWithSlash(e)
  {
    if path == None then Ok(true)
    else if excluded == None || |excluded.value| == 0 then Ok(true)
    else if path.value == [] then Err(IndexError)
    else
      var slashPath := SlashPath(path.value);
      if slashPath !in excluded.value then Ok(true) else Ok(false)
  }

  /** Reference reading of an exemption, independent of how the code
      normalises: some listed entry ends in `/` and equals the path up to
      one trailing slash. */
  predicate Exempt(path: string, excluded: seq<string>) {
    exists e :: e in excluded && EndsWithSlash(e) && DropSlash(e) == DropSlash(path)
  }

  /** Two strings ending in `/` are equal exactly when they are equal once
      that slash is dropped. */
  lemma SlashedEqual(a: string, b: string)
    requires EndsWithSlash(a) && EndsWithSlash(b)
    ensures a == b <==> DropSlash(a) == DropSlash(b)
  {
    if DropSlash(a) == DropSlash(b) {
      assert a == DropSlash(a) + "/";
      assert b == DropSlash(b) + "/";
    }
  }

  /** With a present, non-empty path and a non-empty list, auth is waived
      exactly when the path is exempt in the reference sense. */
  lemma RequireAuthIsNotExempt(path: string, excluded: seq<string>)
    requires path != [] && excluded != []
    ensures RequireAuth(Some(path), Some(excluded)) == Ok(!Exempt(path, excluded))
  {
    var sp := SlashPath(path);
    if sp in excluded {
      SlashedEqual(sp, sp);
      assert EndsWithSlash(sp) && DropSlash(sp) == DropSlash(path);
    }
    if Exempt(path, excluded) {
      var e :| e in excluded && EndsWithSlash(e) && DropSlash(e) == DropSlash(path);
      SlashedEqual(e, sp);
      assert e == sp;
    }
  }

  /** A path and the same path with `/` appended get the same answer; the
      path must be non-empty and not already end in `/` (an empty path
      faults where `/` does not, and `p/` differs from `p//`). */
  lemma SlashTolerant(path: string, excluded: Option<seq<string>>)
    requires path != [] && !EndsWithSlash(path)
    ensures RequireAuth(Some(path), excluded) == RequireAuth(Some(path + "/"), excluded)
  {
    assert SlashPath(path + "/") == path + "/";
  }

  /** The entries of `excluded` that end in `/`, in order. */
  function SlashEntries(excluded: seq<string>): (r: seq<string>)
    ensures forall e :: e in r <==> e in excluded && EndsWithSlash(e)
    ensures |r| <= |excluded|
  {
    if excluded == [] then []
    else
      var rest := SlashEntries(excluded[1..]);
      assert forall e :: e in excluded <==> e == excluded[0] || e in excluded[1..];
      if EndsWithSlash(excluded[0]) then [excluded[0]] + rest else rest
  }

  /** Entries that do not end in `/` never exempt anything: dropping them
      from the list leaves every answer for a non-empty path unchanged. */
  lemma UnslashedEntriesInert(path: string, excluded: seq<string>)
    requires path != []
    ensures RequireAuth(Some(path), Some(excluded)) == RequireAuth(Some(path), Some(SlashEntries(excluded)))
  {
    var slashed := SlashEntries(excluded);
    if excluded != [] && slashed != [] {
      assert SlashPath(path) in excluded <==> SlashPath(path) in slashed;
    } else if excluded != [] {
      assert SlashPath(path) !in excluded;
    }
  }

  /** The `Authorization` header's value; `None` for a missing request or
      a missing or empty value. */
  function AuthorizationHeader(request: Option<Request>): (r: Option<string>)
    ensures r.Some? <==> request.Some? && AuthorizationName in request.value.headers
                         && request.value.headers[AuthorizationName] != ""
    ensures r.Some? ==> r.value == request.value.headers[AuthorizationName]
  {
    if request == None || AuthorizationName !in request.value.headers
       || request.value.headers[AuthorizationName] == ""
    then None
    else Some(request.value.headers[AuthorizationName])
  }

  /** The base strategy resolves no user from any request. */
  function CurrentUser<User>(request: Option<Request>): (r: Option<User>)
    ensures r == None
  {
    None
  }

  /** The value of the cookie named by the configured session name; `None`
      for a missing request, an unset name or an absent cookie.  An empty
      cookie value is returned as it is. */
  function SessionCookie(request: Option<Request>, sessionName: Option<string>): (r: Option<string>)
    ensures request == None || sessionName == None ==> r == None
    ensures r.Some? <==> request.Some? && sessionName.Some? && sessionName.value in request.value.cookies
    ensures r.Some? ==> r.value == request.value.cookies[sessionName.value]
  {
    if request == None then None
    else if sessionName == None then None
    else if sessionName.value in request.value.cookies then Some(request.value.cookies[sessionName.value])
    else None
  }

  /** The answers that the driver script main_4.py prints. */
  lemma RequireAuthExamples()
    ensures RequireAuth(None, None) == Ok(true)
    ensures RequireAuth(None, Some([])) == Ok(true)
    ensures RequireAuth(None, Some(["/api/v1/status/"])) == Ok(true)
    ensures RequireAuth(Some("/api/v1/status/"), Some(["/api/v1/status/"])) == Ok(false)
    ensures RequireAuth(Some("/api/v1/status"), Some(["/api/v1/status/"])) == Ok(false)
    ensures RequireAuth(Some("/api/v1/players"), Some(["/api/v1/status"])) == Ok(true)
    ensures RequireAuth(Some("/api/v1/players"), Some(["/api/v1/status", "/api/v1/stats"])) == Ok(true)
  {
    assert SlashPath("/api/v1/status") == "/api/v1/status/";
    assert SlashPath("/api/v1/players") == "/api/v1/players/";
  }
}
