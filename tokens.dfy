/** The token lifecycle of `SpotifyAPI` as transitions of a session value: the
    authorization-code exchange of `get_tokens` (section 4.1.3 of RFC 6749), the refresh
    exchange of `refresh_access_token` (section 6 of RFC 6749, with the optional rotation of
    the refresh token), and the freshness test of `get_currently_playing`. Time is an
    integer number of seconds; token-endpoint responses are inputs. */
module Tokens {
  import opened Wrappers
  import opened ApiErrors
  import opened EnvFile

  /** The fields of a decoded token response: `access_token`, `refresh_token` (`None`
      when absent) and `expires_in` in seconds. */
  datatype TokenBody = TokenBody(accessToken: string, refreshToken: Option<string>, expiresIn: int)

  /** A token-endpoint response; the body is read only when the status is 200. */
  datatype TokenReply = TokenReply(status: int, body: TokenBody)

  /** The redirect URI registered for the local callback. */
  const RedirectUri: string := "http://localhost:8080/callback"

  /** The form a token request posts. */
  datatype Grant =
    | AuthorizationCode(code: string, redirectUri: string)   // grant_type=authorization_code
    | RefreshGrant(refreshToken: Option<string>)              // grant_type=refresh_token

  /** A token request: the `client_id:client_secret` pair of the Basic authorization header
      (before base64 encoding) and the form. */
  datatype TokenRequest = TokenRequest(clientCredentials: string, grant: Grant)

  /** The token fields of a `SpotifyAPI` object together with the `.env` file it writes
      (`None` while the file does not exist). */
  datatype Session = Session(
    accessToken: Option<string>,
    refreshToken: Option<string>,
    tokenExpiry: Option<int>,
    envFile: Option<string>)

  /** Python truthiness of an optional string: present and non-empty. */
  predicate Truthy(s: Option<string>) {
    s.Some? && s.value != ""
  }

  /** Python's `f"{s}"` of an optional string: `None` renders as "None". */
  function Rendered(s: Option<string>): string {
    match s
    case Some(v) => v
    case None => "None"
  }

  /** The test at the top of `get_currently_playing`: refresh when there is no usable access
      token, or when an expiry is set and has been reached. */
  predicate NeedsRefresh(s: Session, now: int) {
    !Truthy(s.accessToken) || (s.tokenExpiry.Some? && now >= s.tokenExpiry.value)
  }

  /** `get_tokens` after the POST: on 200 the three token fields come from the response and
      the refresh token is written to the `.env` file; a 200 without `refresh_token` raises
      a `KeyError` once the access token is already stored; any other status raises and
      changes nothing. */
  function ExchangeCode(s: Session, now: int, reply: TokenReply): (r: (Session, Outcome<ApiError>))
    ensures reply.status != 200 ==> r == (s, Fail(TokenExchangeFailed(reply.status)))
    ensures reply.status == 200 && reply.body.refreshToken.Some? ==>
      && r.1 == Pass
      && r.0.accessToken == Some(reply.body.accessToken)
      && r.0.refreshToken == reply.body.refreshToken
      && r.0.tokenExpiry == Some(now + reply.body.expiresIn)
      && r.0.envFile == Some(Merge(s.envFile, reply.body.refreshToken.value))
    ensures reply.status == 200 && reply.body.refreshToken.None? ==>
      r == (s.(accessToken := Some(reply.body.accessToken)), Fail(MissingField("refresh_token")))
  {
    if reply.status == 200 then
      match reply.body.refreshToken
      case None => (s.(accessToken := Some(reply.body.accessToken)), Fail(MissingField("refresh_token")))
      case Some(t) =>
        (Session(Some(reply.body.accessToken), Some(t), Some(now + reply.body.expiresIn), Some(Merge(s.envFile, t))), Pass)
    else (s, Fail(TokenExchangeFailed(reply.status)))
  }

  /** `refresh_access_token` after the POST: on 200 the access token and expiry come from
      the response, and the refresh token and the `.env` file change exactly when the
      response carries a new refresh token; any other status raises and changes nothing. */
  function Refresh(s: Session, now: int, reply: TokenReply): (r: (Session, Outcome<ApiError>))
    ensures reply.status != 200 ==> r == (s, Fail(TokenRefreshFailed(reply.status)))
    ensures reply.status == 200 ==>
      && r.1 == Pass
      && r.0.accessToken == Some(reply.body.accessToken)
      && r.0.tokenExpiry == Some(now + reply.body.expiresIn)
    ensures (r.0.refreshToken, r.0.envFile) ==
      if reply.status == 200 && reply.body.refreshToken.Some?
      then (reply.body.refreshToken, Some(Merge(s.envFile, reply.body.refreshToken.value)))
      else (s.refreshToken, s.envFile)
  {
    if reply.status == 200 then
      var access, expiry := Some(reply.body.accessToken), Some(now + reply.body.expiresIn);
      match reply.body.refreshToken
      case None => (Session(access, s.refreshToken, expiry, s.envFile), Pass)
      case Some(t) => (Session(access, Some(t), expiry, Some(Merge(s.envFile, t))), Pass)
    else (s, Fail(TokenRefreshFailed(reply.status)))
  }

  /** The refresh token is held and the `.env` file gives it back under its key. */
  predicate Persisted(s: Session) {
    s.refreshToken.Some? && Lookup(ParseFile(s.envFile), RefreshTokenKey) == s.refreshToken
  }

  /** A successful authorization-code exchange leaves the refresh token persisted (for a
      token without line breaks or trailing whitespace, which the file format can hold)
      and every other key of the file as it was on its last line. */
  lemma ExchangePersists(s: Session, now: int, reply: TokenReply)
    requires reply.status == 200 && reply.body.refreshToken.Some?
    requires WellFormedValue(reply.body.refreshToken.value)
    ensures Persisted(ExchangeCode(s, now, reply).0)
    ensures forall k :: k != RefreshTokenKey ==>
      Lookup(ParseFile(ExchangeCode(s, now, reply).0.envFile), k) == LastValue(FileLines(s.envFile), k)
  {
    UpdateContents(s.envFile, reply.body.refreshToken.value);
  }

  /** Refreshing keeps the refresh token persisted: without rotation nothing about it
      changes, with rotation the new token is written. */
  lemma RefreshKeepsPersisted(s: Session, now: int, reply: TokenReply)
    requires Persisted(s)
    requires reply.body.refreshToken.Some? ==> WellFormedValue(reply.body.refreshToken.value)
    ensures Persisted(Refresh(s, now, reply).0)
  {
    if reply.status == 200 && reply.body.refreshToken.Some? {
      UpdateContents(s.envFile, reply.body.refreshToken.value);
    }
  }

  /** After a successful refresh that yields a non-empty access token, the session needs
      another refresh exactly from `now + expires_in` on. */
  lemma FreshUntilExpiry(s: Session, now: int, reply: TokenReply, later: int)
    requires reply.status == 200 && reply.body.accessToken != ""
    ensures NeedsRefresh(Refresh(s, now, reply).0, later) <==> later >= now + reply.body.expiresIn
  {
  }

  /** The same for a successful authorization-code exchange. */
  lemma ExchangeFreshUntilExpiry(s: Session, now: int, reply: TokenReply, later: int)
    requires reply.status == 200 && reply.body.accessToken != "" && reply.body.refreshToken.Some?
    ensures NeedsRefresh(ExchangeCode(s, now, reply).0, later) <==> later >= now + reply.body.expiresIn
  {
  }

  /** A set access token without an expiry is never refreshed. */
  lemma NoExpiryNeverRefreshes(s: Session, now: int)
    requires Truthy(s.accessToken) && s.tokenExpiry.None?
    ensures !NeedsRefresh(s, now)
  {
  }
}
