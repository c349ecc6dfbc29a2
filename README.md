# A verified model of the `SpotifyAPI` connector

`SpotifyAPI` in `utils/connector.py` is the client side of a small Spotify "now playing"
display. It keeps an OAuth 2.0 token state made of three fields: `access_token`,
`refresh_token` and `token_expiry`. It gets tokens in one of two ways:

- the authorization-code exchange (`get_tokens`, section 4.1.3 of RFC 6749);
- the refresh exchange (`refresh_access_token`, section 6 of RFC 6749), in which the
  server may rotate the refresh token.

Every new refresh token is written into a `KEY=VALUE` `.env` file (`update_env_file`).
`get_currently_playing` refreshes the access token when it is missing or expired. It then
turns the response of the currently-playing endpoint into one of three results: "nothing
playing", a track record, or an error. The cover image is downloaded through
`_download_image`.

The model is split into these files:

- `wrappers.dfy`: `Option`, `Result`, and `Outcome` (success, or an error without a value).
- `errors.dfy`: the exceptions the connector raises, each with the data it carries (a
  status code or a missing field).
- `text.dfy`: the Python string operations the code relies on:
  - `str.isspace` and `str.strip`;
  - splitting a text at separator characters. The lines of a file are split in Python's
    universal-newline mode, and `", ".join` is undone by splitting at commas.
- `env_file.dfy`: the `.env` merge.
  - **Reading:** the file is split into lines. Each line holding `=` is stripped and split at
    its first `=`. The pairs are put into an insertion-ordered dictionary, modelled as an
    association list.
  - **Update:** `SPOTIFY_REFRESH_TOKEN` is assigned.
  - **Writing:** `key=value\n` is written for each entry.
  - `UpdateEnvText` is the two loops of `update_env_file`, proved equal to the
    specification function `Merge`. The lemmas state what the new file reads back as.
- `tokens.dfy`: the token state as a `Session` value. It holds the three fields and the
  `.env` contents.
  - `ExchangeCode` and `Refresh` are its transitions for a given token-endpoint response.
  - `NeedsRefresh` is the freshness test.
- `player.dfy`: classifying the currently-playing response, joining the artists, and the
  cover download.
- `connector.dfy`: the class `SpotifyApi`. Its fields are the object's fields.
  - Its methods change those fields in place.
  - Each method's `ensures` ties the new state to the transition functions of `Tokens`.

Things such as HTTP responses, the clock (an integer number of seconds), the authorization
code delivered to the local callback, and the `.env` file contents (`None` while the file
does not exist) are parameters.

## Model

| member | source | states |
|---|---|---|
| Wrappers.Option.GetOr | utils/connector.py:168 | Definition, no contract: `dict.get(key, default)`, which gives the value when present and the default otherwise. `Classify` states that `is_playing` defaults to true. |
| Connector.SpotifyApi.constructor | utils/connector.py:14-21 | The credentials and the refresh token come from the environment; there is no access token and no expiry. |
| Connector.SpotifyApi.ClientCredentials | utils/connector.py:64 | Definition, no contract: the `client_id:client_secret` string before base64 encoding (line 64, and again at line 94). A missing credential renders as `None`, as `f"{...}"` renders it. `GetTokens` and `RefreshAccessToken` state that their request carries it. |
| Connector.SpotifyApi.UpdateEnvFile | utils/connector.py:117-136 | The `.env` file afterwards holds `Merge` of its old contents and the refresh token as `f"{...}"` renders it; nothing else changes. |
| Connector.SpotifyApi.GetTokens | utils/connector.py:62-90 | It sends the Basic credentials with the `authorization_code` grant, the code and the redirect URI. The new fields, the `.env` file and the raised error are those of `Tokens.ExchangeCode`. |
| Connector.SpotifyApi.RefreshAccessToken | utils/connector.py:92-115 | It sends the Basic credentials with the `refresh_token` grant carrying the stored token. The new state and the outcome are those of `Tokens.Refresh`. |
| Connector.SpotifyApi.Authenticate | utils/connector.py:44-60 | With a truthy refresh token it makes exactly the refresh request and transition. Otherwise it makes the authorization-code exchange with the code the callback received. |
| Connector.SpotifyApi.GetCurrentlyPlaying | utils/connector.py:145-181 | It refreshes exactly when `NeedsRefresh` holds, and the state changes only then. A failed refresh raises the refresh error. Otherwise the result is `Player.Classify` of the response. |
| Tokens.ExchangeCode | utils/connector.py:79-90 | On 200 with a refresh token: all three fields come from the response, the expiry is `now + expires_in`, and the file is merged with the new token. On 200 without one: only `access_token` is set, then `KeyError`. On any other status: an error carrying the status, and nothing changes. |
| Tokens.Refresh | utils/connector.py:105-115 | On 200: the access token and expiry come from the response. The refresh token and the file change exactly when the response carries a refresh token. On any other status: an error carrying the status, and nothing changes. |
| Tokens.Truthy | utils/connector.py:46 | Definition, no contract: Python truthiness of an optional string, that is, present and non-empty. `Authenticate` (line 46) and `NeedsRefresh` (line 147) use it. |
| Tokens.Rendered | utils/connector.py:136 | Definition, no contract: `f"{s}"` of an optional string, with `None` rendered as `None`. It gives the token that `UpdateEnvFile` writes (line 136) and the credentials string (lines 64 and 94). |
| Tokens.NeedsRefresh | utils/connector.py:147-149 | Definition, no contract: a refresh is due when the access token is not truthy, or when an expiry is set and `now` has reached it. Its properties are `FreshUntilExpiry`, `ExchangeFreshUntilExpiry` and `NoExpiryNeverRefreshes`. |
| Tokens.ExchangePersists | utils/connector.py:79-88 | After a successful exchange the `.env` file gives back the new refresh token under its key. Every other key keeps its value from its last line in the old file. |
| Tokens.RefreshKeepsPersisted | utils/connector.py:105-113 | If the `.env` file holds the refresh token before a refresh, it holds it after, with or without rotation. |
| Tokens.FreshUntilExpiry | utils/connector.py:147-150 | After a successful refresh with a non-empty access token, a refresh is needed at time `t` iff `t >= now + expires_in`. |
| Tokens.ExchangeFreshUntilExpiry | utils/connector.py:147-150 | The same for a successful authorization-code exchange. |
| Tokens.NoExpiryNeverRefreshes | utils/connector.py:147-150 | A set access token without an expiry never triggers a refresh. |
| EnvFile.Lines | utils/connector.py:125 | There is at least one line, and no line holds a line break (`\n` or `\r`, universal newlines). |
| EnvFile.FileLines | utils/connector.py:123-125 | A missing file has no lines. No line of an existing file holds a line break. |
| EnvFile.ReadLine | utils/connector.py:126-128 | Reading a line keeps the keys distinct. A line without `=` changes nothing. If no key held `=` before, none holds it after. |
| EnvFile.FirstEquals | utils/connector.py:127 | The position of the first `=` of a text that holds one: the character there is `=`, and none before it is. |
| EnvFile.ParseFile | utils/connector.py:123-128 | The dictionary read from the `.env` file: empty when the file does not exist, the read loop's dictionary of its lines otherwise. Its keys are distinct. `ParseLookup` states what each key gives. |
| EnvFile.EntryLine | utils/connector.py:136 | Definition, no contract: one written line, `key=value` and a line feed. `SplitWrittenLine` states how it reads back. |
| EnvFile.Serialize | utils/connector.py:134-136 | Definition, no contract: the written text, one `EntryLine` per entry in dictionary order. `RoundTrip` and `ParseSerialized` state how it reads back. |
| EnvFile.UpdatedEnv | utils/connector.py:120-131 | Definition, no contract: the dictionary read from the old file with the refresh-token key assigned. `LookupUpdated` and `UpdateContents` state its contents. |
| EnvFile.Merge | utils/connector.py:120-136 | Definition, no contract: the text written for `UpdatedEnv`. `UpdateEnvText` is proved equal to it, and `UpdatedEnvReadsBack` and `UpdateIdempotent` state how it reads back. |
| EnvFile.UpdateEnvText | utils/connector.py:117-136 | The read loop, the assignment and the write loop produce exactly `Merge(file, token)`. |
| EnvFile.Put | utils/connector.py:128-131 | Dictionary assignment keeps keys distinct. An existing key is replaced in place and every other entry is untouched. A new key is appended at the end. |
| EnvFile.SplitLine | utils/connector.py:126-127 | A line gives a pair iff it holds `=`. The key holds no `=`, and key, `=` and value rebuild the stripped line. |
| EnvFile.ParseLines | utils/connector.py:123-128 | The dictionary read from the lines has distinct keys, and no key holds `=`. |
| EnvFile.LookupPut | utils/connector.py:128-131 | After an assignment the assigned key gives the new value, and every other key what it gave before. |
| EnvFile.LookupFound | utils/connector.py:128 | A key is found in the dictionary iff it is one of its keys. |
| EnvFile.PutPut | utils/connector.py:128-131 | Of two assignments to the same key, the second wins: the result is that of the second assignment alone. |
| EnvFile.ParseLookup | utils/connector.py:125-128 | Each key reads as its value on the last line that sets it (later duplicates win). `LastValue` is an independent backward scan. |
| EnvFile.RoundTrip | utils/connector.py:134-136 | The written text of a dictionary reads back as that dictionary. This holds when keys have no `=`, nothing has a line break, keys do not start with whitespace and values do not end with it. |
| EnvFile.UpdatedEnvReadsBack | utils/connector.py:120-136 | For a token with no line break that does not end in whitespace, the written dictionary is well formed and the merged file reads back as exactly that dictionary. |
| EnvFile.LookupUpdated | utils/connector.py:117-131 | In the dictionary before writing, the refresh-token key gives the token. Every other key gives its value on the last line of the old file that sets it. |
| EnvFile.SplitLineTrailing | utils/connector.py:127 | A line `key=value` whose key has no `=` and does not start with whitespace reads back as that key and the value without its trailing whitespace. |
| EnvFile.ParseSerialized | utils/connector.py:123-136 | When no key or value holds a line break, reading the written text gives what reading the written lines one by one gives. |
| EnvFile.UpdatedEnvReadsBackTrimmed | utils/connector.py:117-136 | For any token without a line break, the merged file reads back as the updated dictionary with the token's trailing whitespace stripped. |
| EnvFile.UpdateContents | utils/connector.py:117-136 | For a token with no line break that does not end in whitespace: after the update the refresh-token key gives the token. Every other key gives its last value in the old file. The keys are exactly the old keys plus the refresh-token key, and none holds `=`. |
| EnvFile.UpdateIdempotent | utils/connector.py:120-136 | For any token without a line break, updating twice with the same token writes the same text as updating once. This includes a token that ends in whitespace: it reads back stripped, and the second assignment restores it. |
| EnvFile.ValueMayHoldEquals | utils/connector.py:127 | `A=b=c` splits into key `A` and value `b=c`. |
| Text.IsSpace | utils/connector.py:127 | Definition, no contract: the characters for which Python's `str.isspace` is true, which are those `str.strip()` removes. `TrimStart`, `TrimEnd` and `Strip` are stated in terms of it. |
| Text.TrimStart | utils/connector.py:127 | The result is a suffix of the input. Everything removed is whitespace, and the result does not start with whitespace. |
| Text.TrimEnd | utils/connector.py:127 | The result is a prefix of the input. Everything removed is whitespace, and the result does not end with whitespace. |
| Text.Strip | utils/connector.py:127 | The result is a slice of the line. Before it there is only whitespace, and after it only whitespace. The result neither starts nor ends with whitespace. |
| Text.TrimEndAfter | utils/connector.py:127 | Trailing whitespace is stripped only from the end. A text ending in a non-space keeps that end. |
| Text.StripKeeps | utils/connector.py:127 | Stripping keeps every character that is not whitespace, in particular `=`. |
| Text.StripUnchanged | utils/connector.py:127 | A line that neither starts nor ends with whitespace is its own strip. |
| Text.SplitOn | utils/connector.py:125 | There is at least one piece, and no piece holds a separator. |
| Text.SplitOnFirst | utils/connector.py:125 | A text cut at its first separator splits into the part before it, then the pieces of the rest. |
| Player.JoinArtists | utils/connector.py:165 | Definition, no contract: `", ".join(names)`. `JoinArtistsSplit` and `JoinTwoArtists` state its content. |
| Player.NoContent | utils/connector.py:157-162 | Definition, no contract: status 204, or status 200 with a JSON `null` or `{}` body. `Classify` states that this is exactly the nothing-playing case. |
| Player.DownloadImage | utils/connector.py:138-143 | There are bytes iff the image fetch answered 200, and then they are its content. |
| Player.CoverUrl | utils/connector.py:166 | The URL exists iff `item`, `album` and `images` are present and `images` is non-empty, and then it is `images[0]`. Otherwise the error names the first missing field: `item`, `album`, `images`, or `images[0]` for an empty list. |
| Player.Classify | utils/connector.py:157-181 | "Nothing playing" iff the status is 204, or 200 with a JSON `null` or `{}` body. An error carrying the status iff the status is neither. The record's name and artists come from the track, its cover is the download of `images[0]`, and `is_playing` defaults to true. A missing cover field raises that field's error. |
| Player.JoinArtistsSplit | utils/connector.py:165 | Split at its commas, the joined artist string gives the first name, then each further name behind one space, all in order. |
| Player.JoinTwoArtists | utils/connector.py:165 | Two artists are joined as `A1, A2`. |
| Player.TwoArtistScenario | utils/connector.py:164-177 | A playing two-artist track with a downloadable cover gives the record with `A1, A2` and the fetched bytes. |

## Left out

- HTTP (`requests.post`, `requests.get`), `webbrowser.open`, and the `HTTPServer` thread
  of `start_auth_server` together with the busy-wait on its code are network, browser and
  concurrency plumbing. Responses and the received authorization code are inputs.
- `get_auth_url` only builds a URL with the library `urllib.parse.urlencode`. It requests the
  scopes `user-read-currently-playing user-read-playback-state`.
- `base64.b64encode` of the credentials is a library call. A request is modelled by the
  `client_id:client_secret` string before encoding, plus its form fields.
- Requests are modelled as values, so the endpoint URLs, headers and the `Bearer` header of the
  currently-playing request are not modelled.
- `datetime.now()` and `timedelta` become one integer clock reading per call, in seconds.
  `get_currently_playing` reads the clock once. The later reading inside
  `refresh_access_token` is taken to be the same instant.
- `os.getenv`, `os.path.exists` and `open` are replaced by the `.env` contents, passed in
  and out as an optional string.
  - Write errors and the text encoding are not modelled.
  - On Windows, text mode writes `\r\n`; the model writes `\n`.
- JSON decoding is replaced by the decoded fields that the code reads.
  - Player.PlayerBody: bodies that fail to decode are outside the model. So are bodies that
    are not JSON objects. Empty or non-JSON content makes `response.json()` raise (lines
    80, 106 and 160), and a truthy non-object such as a non-empty list fails with a
    `TypeError` at `data["item"]` (line 164).
  - `Tokens.TokenBody`: `access_token` and `expires_in` are taken to be present and
    `expires_in` an integer. The source would raise a `KeyError` when one is missing.
  - The refresh response's `refresh_token` is either absent or a string. A JSON `null`
    there, which the source would store and write as `None`, is not modelled.
  - `Player.Track`: each artist's `name`, the track's `name` and the image `url` are taken
    to be present.
- Player.Track: the `artists` list is always present. The source would raise
  `KeyError('artists')` at line 165, before it looks at the album, and the model cannot
  express that case.
- Player.PlayerBody: `is_playing: null` is not modelled. The source would return `None` for
  it at line 168; the model has only present booleans and an absent field.
- Player.PlayerBody: a falsy body that is not an object (`[]`, `0`, `""`, `false`) cannot
  be expressed. The source treats it as "nothing playing" at line 161.
- Tokens.TokenBody: a JSON `null` `refresh_token` in the authorization-code response is not
  modelled either. The source would store it at line 82 and write it as `None`.
- The text of exception messages is not modelled. Each error carries the status code or the
  name of the missing field.
- `utils/auth.py` and `main.py` are not part of this model. One is a request handler around
  the library `parse_qs`; the other is the polling loop that prints and writes the cover file.

Four properties about reading the file back are stated only for a refresh token that reads
back unchanged, one with no line break that does not end in whitespace:
`Tokens.ExchangePersists`, `Tokens.RefreshKeepsPersisted`, `EnvFile.UpdatedEnvReadsBack`
and `EnvFile.UpdateContents`. For other tokens, the code
itself does not give the same value back. `EnvFile.UpdatedEnvReadsBackTrimmed` states what
a token with trailing whitespace reads back as. `EnvFile.UpdateIdempotent` needs only a
token without a line break.
