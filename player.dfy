/** The now-playing half of `SpotifyAPI`: turning the response of the currently-playing
    endpoint into a result (`get_currently_playing`) and the album-cover download
    (`_download_image`). HTTP responses are inputs; the image fetch is a function from
    URL to response. */
module Player {
  import opened Wrappers
  import opened Text
  import opened ApiErrors

  newtype byte = x: int | 0 <= x < 256

  /** The response of an image request. */
  datatype ImageReply = ImageReply(status: int, content: seq<byte>)

  /** `album`: its `images` list of URLs, `None` when the field is absent. */
  datatype Album = Album(imageUrls: Option<seq<string>>)

  /** `item`: the track's `name`, the `name` of each of its `artists`, and its `album`
      (`None` when the field is absent). */
  datatype Track = Track(name: string, artistNames: seq<string>, album: Option<Album>)

  /** The decoded JSON body: `null`, the empty object, or any other object, of which the
      code reads `item` (absent or null: `None`) and `is_playing` (absent: `None`). */
  datatype PlayerBody = NullBody | EmptyObject | PlayerState(item: Option<Track>, isPlaying: Option<bool>)

  /** The response of the currently-playing request. */
  datatype PlayerReply = PlayerReply(status: int, body: PlayerBody)

  /** What `get_currently_playing` returns: the text "No track currently playing", or the
      record `{name, artists, album_cover, is_playing}`. */
  datatype NowPlaying =
    | NothingPlaying
    | Playing(name: string, artists: string, albumCover: Option<seq<byte>>, isPlaying: bool)

  /** `_download_image`: the image bytes when the fetch answered 200, otherwise nothing. */
  function DownloadImage(reply: ImageReply): (cover: Option<seq<byte>>)
    ensures cover.Some? <==> reply.status == 200
    ensures cover.Some? ==> cover.value == reply.content
  {
    if reply.status == 200 then Some(reply.content) else None
  }

  /** `", ".join(names)`. */
  function JoinArtists(names: seq<string>): string
    decreases |names|
  {
    if |names| == 0 then ""
    else if |names| == 1 then names[0]
    else names[0] + ", " + JoinArtists(names[1..])
  }

  /** The names after the first, each behind the space the separator leaves. */
  function SpacedTail(names: seq<string>): seq<string>
    requires |names| >= 1
  {
    seq(|names| - 1, i requires 0 <= i < |names| - 1 => " " + names[i + 1])
  }

  /** The joined artist string holds every name in order: split at its commas it gives the
      first name and then each further name behind one space (when no name has a comma). */
  lemma {:induction false} JoinArtistsSplit(names: seq<string>)
    requires |names| >= 1
    requires forall i :: 0 <= i < |names| ==> Avoids(names[i], {','})
    ensures SplitOn(JoinArtists(names), {','}) == [names[0]] + SpacedTail(names)
    decreases |names|
  {
    if |names| == 1 {
      SplitOnWhole(names[0], {','});
    } else {
      var rest := names[1..];
      var j := JoinArtists(rest);
      JoinArtistsSplit(rest);
      assert JoinArtists(names) == names[0] + [','] + ([' '] + j);
      SplitOnFirst(names[0], ',', [' '] + j, {','});
      assert ([' '] + j)[1..] == j;
      assert SplitOn([' '] + j, {','}) == [" " + rest[0]] + SpacedTail(rest);
      assert [" " + rest[0]] + SpacedTail(rest) == SpacedTail(names);
    }
  }

  /** Two artists are joined as "A1, A2". */
  lemma JoinTwoArtists(a1: string, a2: string)
    ensures JoinArtists([a1, a2]) == a1 + ", " + a2
  {
    assert [a1, a2][1..] == [a2];
  }

  /** `data["item"]["album"]["images"][0]["url"]`, or the error the lookup raises. */
  function CoverUrl(item: Option<Track>): (r: Result<string, ApiError>)
    ensures r.Success? <==>
      item.Some? && item.value.album.Some? && item.value.album.value.imageUrls.Some?
      && |item.value.album.value.imageUrls.value| > 0
    ensures r.Success? ==> r.value == item.value.album.value.imageUrls.value[0]
    ensures item.None? ==> r == Failure(MissingField("item"))
    ensures item.Some? && item.value.album.None? ==> r == Failure(MissingField("album"))
    ensures item.Some? && item.value.album.Some? && item.value.album.value.imageUrls.None? ==>
      r == Failure(MissingField("images"))
    ensures item.Some? && item.value.album.Some? && item.value.album.value.imageUrls == Some([]) ==>
      r == Failure(MissingField("images[0]"))
  {
    match item
    case None => Failure(MissingField("item"))
    case Some(track) =>
      match track.album
      case None => Failure(MissingField("album"))
      case Some(album) =>
        match album.imageUrls
        case None => Failure(MissingField("images"))
        case Some(urls) =>
          if |urls| == 0 then Failure(MissingField("images[0]")) else Success(urls[0])
  }

  /** Nothing is playing: status 204, or status 200 with a null or empty body. */
  predicate NoContent(reply: PlayerReply) {
    reply.status == 204 || (reply.status == 200 && (reply.body.NullBody? || reply.body.EmptyObject?))
  }

  /** The response handling of `get_currently_playing` (after the token check). */
  function Classify(reply: PlayerReply, fetch: string -> ImageReply): (r: Result<NowPlaying, ApiError>)
    ensures r == Success(NothingPlaying) <==> NoContent(reply)
    ensures (r.Failure? && r.error.PlaybackFailed?) <==> reply.status != 200 && reply.status != 204
    ensures r.Failure? && r.error.PlaybackFailed? ==> r.error.status == reply.status
    ensures r.Success? && r.value.Playing? <==>
      reply.status == 200 && reply.body.PlayerState? && CoverUrl(reply.body.item).Success?
    ensures r.Success? && r.value.Playing? ==>
      var track := reply.body.item.value;
      && r.value.name == track.name
      && r.value.artists == JoinArtists(track.artistNames)
      && r.value.albumCover == DownloadImage(fetch(CoverUrl(reply.body.item).value))
      && r.value.isPlaying == reply.body.isPlaying.GetOr(true)
    ensures reply.status == 200 && reply.body.PlayerState? && CoverUrl(reply.body.item).Failure? ==>
      r == Failure(CoverUrl(reply.body.item).error)
  {
    if reply.status == 204 then Success(NothingPlaying)
    else if reply.status == 200 then
      match reply.body
      case NullBody => Success(NothingPlaying)
      case EmptyObject => Success(NothingPlaying)
      case PlayerState(item, isPlaying) =>
        match CoverUrl(item)
        case Failure(e) => Failure(e)
        case Success(url) =>
          var track := item.value;
          Success(Playing(track.name, JoinArtists(track.artistNames), DownloadImage(fetch(url)), isPlaying.GetOr(true)))
    else Failure(PlaybackFailed(reply.status))
  }

  /** A playing track with two artists and a cover that downloads: the record joins the
      artists as "A1, A2", carries the fetched bytes, and is playing unless the body says otherwise. */
  lemma TwoArtistScenario(name: string, a1: string, a2: string, url: string, isPlaying: Option<bool>,
                          fetch: string -> ImageReply)
    requires fetch(url).status == 200
    ensures Classify(PlayerReply(200, PlayerState(Some(Track(name, [a1, a2], Some(Album(Some([url]))))), isPlaying)), fetch)
         == Success(Playing(name, a1 + ", " + a2, Some(fetch(url).content), isPlaying.GetOr(true)))
  {
    JoinTwoArtists(a1, a2);
  }
}
