/** The `SpotifyAPI` object: its token fields change in place, as in the source; each
    method's new state is tied to the session transitions of `Tokens`. HTTP responses,
    the authorization code the local callback receives, the clock and the `.env` file
    contents are explicit. */
module Connector {
  import opened Wrappers
  import opened ApiErrors
  import opened EnvFile
  import opened Tokens
  import opened Player

  class SpotifyApi {
    const clientId: Option<string>
    const clientSecret: Option<string>
    var accessToken: Option<string>
    var refreshToken: Option<string>
    var tokenExpiry: Option<int>
    /** The contents of `.env` in the working directory, `None` while it does not exist. */
    var envFile: Option<string>

    /** The token state of this object. */
    function Snapshot(): Session
      reads this
    {
      Session(accessToken, refreshToken, tokenExpiry, envFile)
    }

    /** The `client_id:client_secret` pair sent (base64-encoded) in the Basic header. */
    function ClientCredentials(): string {
      Rendered(clientId) + ":" + Rendered(clientSecret)
    }

    /** `__init__`: credentials and the refresh token come from the environment; there is
        no access token and no expiry yet. */
    constructor (clientId: Option<string>, clientSecret: Option<string>,
                 refreshToken: Option<string>, envFile: Option<string>)
      ensures this.clientId == clientId && this.clientSecret == clientSecret
      ensures Snapshot() == Session(None, refreshToken, None, envFile)
    {
      this.clientId := clientId;
      this.clientSecret := clientSecret;
      this.accessToken := None;
      this.refreshToken := refreshToken;
      this.tokenExpiry := None;
      this.envFile := envFile;
    }

    /** `update_env_file`: rewrite `.env` with the current refresh token. */
    method UpdateEnvFile()
      modifies this`envFile
      ensures envFile == Some(Merge(old(envFile), Rendered(refreshToken)))
    {
      var text := UpdateEnvText(envFile, Rendered(refreshToken));
      envFile := Some(text);
    }

    /** `get_tokens`: exchange an authorization code; `reply` is the token endpoint's answer. */
    method GetTokens(code: string, now: int, reply: TokenReply) returns (request: TokenRequest, outcome: Outcome<ApiError>)
      modifies this
      ensures request == TokenRequest(ClientCredentials(), AuthorizationCode(code, RedirectUri))
      ensures Snapshot() == ExchangeCode(old(Snapshot()), now, reply).0
      ensures outcome == ExchangeCode(old(Snapshot()), now, reply).1
    {
      request := TokenRequest(ClientCredentials(), AuthorizationCode(code, RedirectUri));
      if reply.status == 200 {
        accessToken := Some(reply.body.accessToken);
        if reply.body.refreshToken.Some? {
          refreshToken := reply.body.refreshToken;
          tokenExpiry := Some(now + reply.body.expiresIn);
          ghost var file, token := envFile, Rendered(refreshToken);
          assert token == reply.body.refreshToken.value;
          UpdateEnvFile();
          assert envFile == Some(Merge(file, token));
          outcome := Pass;
        } else {
          outcome := Fail(MissingField("refresh_token"));
        }
      } else {
        outcome := Fail(TokenExchangeFailed(reply.status));
      }
    }

    /** `refresh_access_token`: exchange the stored refresh token; `reply` is the token
        endpoint's answer. */
    method RefreshAccessToken(now: int, reply: TokenReply) returns (request: TokenRequest, outcome: Outcome<ApiError>)
      modifies this
      ensures request == TokenRequest(ClientCredentials(), RefreshGrant(old(refreshToken)))
      ensures Snapshot() == Refresh(old(Snapshot()), now, reply).0
      ensures outcome == Refresh(old(Snapshot()), now, reply).1
    {
      request := TokenRequest(ClientCredentials(), RefreshGrant(refreshToken));
      if reply.status == 200 {
        accessToken := Some(reply.body.accessToken);
        tokenExpiry := Some(now + reply.body.expiresIn);
        if reply.body.refreshToken.Some? {
          refreshToken := reply.body.refreshToken;
          ghost var file, token := envFile, Rendered(refreshToken);
          assert token == reply.body.refreshToken.value;
          UpdateEnvFile();
          assert envFile == Some(Merge(file, token));
        }
        outcome := Pass;
      } else {
        outcome := Fail(TokenRefreshFailed(reply.status));
      }
    }

    /** `authenticate`: with a (truthy) refresh token, refresh; otherwise exchange `code`,
        the authorization code the browser redirect delivers to the local callback. */
    method Authenticate(now: int, code: string, reply: TokenReply) returns (request: TokenRequest, outcome: Outcome<ApiError>)
      modifies this
      ensures Truthy(old(refreshToken)) ==>
        && request == TokenRequest(ClientCredentials(), RefreshGrant(old(refreshToken)))
        && (Snapshot(), outcome) == Refresh(old(Snapshot()), now, reply)
      ensures !Truthy(old(refreshToken)) ==>
        && request == TokenRequest(ClientCredentials(), AuthorizationCode(code, RedirectUri))
        && (Snapshot(), outcome) == ExchangeCode(old(Snapshot()), now, reply)
    {
      if refreshToken.Some? && refreshToken.value != "" {
        request, outcome := RefreshAccessToken(now, reply);
        return;
      }
      request, outcome := GetTokens(code, now, reply);
    }

    /** `get_currently_playing`: refresh first when the token test says so (`tokenReply`
        answers that refresh), then classify the currently-playing response `player`;
        `fetch` answers the cover-image request. `refreshed` tells whether a token
        request was made. */
    method GetCurrentlyPlaying(now: int, tokenReply: TokenReply, player: PlayerReply, fetch: string -> ImageReply)
      returns (refreshed: bool, result: Result<NowPlaying, ApiError>)
      modifies this
      ensures refreshed == NeedsRefresh(old(Snapshot()), now)
      ensures refreshed ==> Snapshot() == Refresh(old(Snapshot()), now, tokenReply).0
      ensures !refreshed ==> Snapshot() == old(Snapshot())
      ensures result ==
        if refreshed && Refresh(old(Snapshot()), now, tokenReply).1.Fail?
        then Failure(Refresh(old(Snapshot()), now, tokenReply).1.error)
        else Classify(player, fetch)
    {
      refreshed := !(accessToken.Some? && accessToken.value != "")
                   || (tokenExpiry.Some? && now >= tokenExpiry.value);
      if refreshed {
        var _, outcome := RefreshAccessToken(now, tokenReply);
        if outcome.Fail? {
          result := Failure(outcome.error);
          return;
        }
      }
      result := Classify(player, fetch);
    }
  }
}
