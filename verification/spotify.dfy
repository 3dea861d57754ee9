/** The parts of the remote service's playlist-item records that the scripts read. A field
    the service may omit or send as null is an `Option`. */
module Spotify {
  import opened Common

  datatype Artist = Artist(id: Option<string>, name: Option<string>)

  datatype Album = Album(id: Option<string>, name: Option<string>)

  /** A catalogue track; `artists == []` also stands for a missing or null `artists` field,
      and `album == None` for a missing one. */
  datatype Track = Track(
    id: Option<string>,
    uri: Option<string>,
    name: Option<string>,
    artists: seq<Artist>,
    album: Option<Album>,
    durationMs: Option<int>,
    isLocal: bool,
    spotifyUrl: Option<string>,
    explicit: Option<bool>)

  /** One entry of a playlist listing. `track == None` stands for every shape the scripts
      treat as "no track": a null item, an item without a `track` key, or a null track. */
  datatype PlaylistItem = PlaylistItem(track: Option<Track>, addedAt: Option<string>, addedBy: Option<string>)

  predicate HasTrack(items: seq<PlaylistItem>, p: int) {
    0 <= p < |items| && items[p].track.Some?
  }

  /** A playlist of the current user, as listed by the service. */
  datatype Playlist = Playlist(id: string, name: Option<string>)
}
