/** The exceptions the connector raises, each with what it carries. */
module ApiErrors {

  datatype ApiError =
      /** "Failed to get tokens: <status>" from the authorization-code exchange. */
    | TokenExchangeFailed(status: int)
      /** "Failed to refresh token: <status>" from the refresh exchange. */
    | TokenRefreshFailed(status: int)
      /** "Failed to get currently playing track: <status>". */
    | PlaybackFailed(status: int)
      /** A `KeyError`/`IndexError`/`TypeError` raised when a response lacks a field the code reads. */
    | MissingField(name: string)
}
