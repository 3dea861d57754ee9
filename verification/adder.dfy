/** The adder script's pure core: recognising track links, building search queries,
    sorting the parsed tracks of a batch file into found IDs and failures, adding the IDs
    in chunks, and the lines of the failed-tracks playlist. */
module Adder {
  import opened Common
  import opened Text
  import opened Batching
  import Url
  import M3u

  // ---------------------------------------------------------------------------------
  // Track links
  // ---------------------------------------------------------------------------------

  const SpotifyHost: string := "open.spotify.com"
  const TrackMarker: string := "track/"

  /** `is_spotify_url`: the host is the web player's and the path mentions "track". */
  predicate IsSpotifyUrl(url: string) {
    var parts := Url.UrlParse(url);
    parts.netloc == SpotifyHost && Contains(parts.path, "track")
  }

  /** The regular expression `track/([a-zA-Z0-9]+)` can match at position `k`. */
  predicate TrackIdAt(url: string, k: int) {
    0 <= k && k + |TrackMarker| < |url| && url[k..k + |TrackMarker|] == TrackMarker
    && IsAlnum(url[k + |TrackMarker|])
  }

  /** The longest alphanumeric prefix: what `[a-zA-Z0-9]+` captures. */
  function AlnumRun(s: string): (r: string)
    ensures |r| <= |s| && r == s[..|r|] && AllAlnum(r)
    ensures |r| == |s| || !IsAlnum(s[|r|])
  {
    if |s| > 0 && IsAlnum(s[0]) then [s[0]] + AlnumRun(s[1..]) else ""
  }

  /** The leftmost match position at or after `from`. */
  function FindTrackId(url: string, from: nat): (r: Option<nat>)
    ensures r.Some? ==> from <= r.value && TrackIdAt(url, r.value)
    ensures r.Some? ==> forall k :: from <= k < r.value ==> !TrackIdAt(url, k)
    ensures r.None? ==> forall k :: from <= k ==> !TrackIdAt(url, k)
    decreases |url| - from
  {
    if from + |TrackMarker| >= |url| then None
    else if TrackIdAt(url, from) then Some(from)
    else FindTrackId(url, from + 1)
  }

  /** `extract_track_id_from_url`: the alphanumeric run after the leftmost "track/" that
      is followed by at least one alphanumeric character. */
  function ExtractTrackId(url: string): (r: Option<string>)
    ensures r.Some? <==> exists k :: TrackIdAt(url, k)
    ensures r.Some? ==> r.value != "" && AllAlnum(r.value)
  {
    match FindTrackId(url, 0)
    case None => None
    case Some(k) => Some(AlnumRun(url[k + |TrackMarker|..]))
  }

  /** The captured ID sits right after the leftmost match and runs to the first
      non-alphanumeric character. */
  lemma ExtractTrackIdIsLeftmost(url: string) returns (k: nat)
    requires ExtractTrackId(url).Some?
    ensures TrackIdAt(url, k) && forall j :: 0 <= j < k ==> !TrackIdAt(url, j)
    ensures var id := ExtractTrackId(url).value;
      && url[k + |TrackMarker|..k + |TrackMarker| + |id|] == id
      && (k + |TrackMarker| + |id| == |url| || !IsAlnum(url[k + |TrackMarker| + |id|]))
  {
    k := FindTrackId(url, 0).value;
    var rest := url[k + |TrackMarker|..];
    var id := AlnumRun(rest);
    assert rest[..|id|] == url[k + |TrackMarker|..k + |TrackMarker| + |id|];
  }

  const TrackUrlPrefix: string := "https://open.spotify.com/track/"

  /** A query string that keeps a track link intact: empty, or '?' followed by printable
      characters other than '#'. */
  predicate IsLinkQuery(q: string) {
    q == "" || (q[0] == '?' && forall i :: 0 <= i < |q| ==> q[i] > ' ' && q[i] != '#')
  }

  /** No "track/" starts inside the host part of the web player's track link. */
  lemma NoEarlyMarker(j: int)
    requires 0 <= j < |TrackUrlPrefix| - |TrackMarker|
    ensures TrackUrlPrefix[j..j + |TrackMarker|] != TrackMarker
  {
    assert TrackUrlPrefix[j] != 't' || TrackUrlPrefix[j + 1] != 'r' by {
      assert || j == 0 || j == 1 || j == 2 || j == 3 || j == 4 || j == 5 || j == 6 || j == 7
             || j == 8 || j == 9 || j == 10 || j == 11 || j == 12 || j == 13 || j == 14 || j == 15
             || j == 16 || j == 17 || j == 18 || j == 19 || j == 20 || j == 21 || j == 22 || j == 23
             || j == 24;
    }
    assert TrackUrlPrefix[j..j + |TrackMarker|][0] == TrackUrlPrefix[j];
    assert TrackUrlPrefix[j..j + |TrackMarker|][1] == TrackUrlPrefix[j + 1];
  }

  /** The web player's link for a track gives back the track's ID. */
  lemma TrackUrlGivesId(id: string, q: string)
    requires id != "" && AllAlnum(id) && IsLinkQuery(q)
    ensures ExtractTrackId(TrackUrlPrefix + id + q) == Some(id)
  {
    var url := TrackUrlPrefix + id + q;
    var n := |TrackUrlPrefix|;
    TrackUrlMatch(id, q);
    assert url[n..] == id + q;
    AlnumRunOfPrefix(id, q);
  }

  /** The leftmost match in the web player's track link is the "track/" of its path. */
  lemma TrackUrlMatch(id: string, q: string)
    requires id != "" && AllAlnum(id)
    ensures FindTrackId(TrackUrlPrefix + id + q, 0) == Some(|TrackUrlPrefix| - |TrackMarker|)
  {
    var url := TrackUrlPrefix + id + q;
    var n := |TrackUrlPrefix|;
    var k := n - |TrackMarker|;
    assert url[..n] == TrackUrlPrefix;
    assert TrackIdAt(url, k) by {
      assert url[k..k + |TrackMarker|] == TrackUrlPrefix[k..n] == TrackMarker;
      assert url[k + |TrackMarker|] == id[0];
    }
    forall j | 0 <= j < k ensures !TrackIdAt(url, j) {
      assert url[j..j + |TrackMarker|] == url[..n][j..j + |TrackMarker|];
      NoEarlyMarker(j);
    }
    LeftmostMatch(url, k);
  }

  /** The search finds a match position when no earlier position matches. */
  lemma LeftmostMatch(url: string, k: nat)
    requires TrackIdAt(url, k) && forall j :: 0 <= j < k ==> !TrackIdAt(url, j)
    ensures FindTrackId(url, 0) == Some(k)
  {
    var r := FindTrackId(url, 0);
    assert r.Some?;
  }

  lemma {:induction false} AlnumRunOfPrefix(id: string, q: string)
    requires AllAlnum(id) && (q == "" || !IsAlnum(q[0]))
    ensures AlnumRun(id + q) == id
    decreases |id|
  {
    var s := id + q;
    if |id| > 0 {
      assert s[0] == id[0] && IsAlnum(s[0]);
      assert s[1..] == id[1..] + q;
      AlnumRunOfPrefix(id[1..], q);
      assert AlnumRun(s) == [id[0]] + AlnumRun(id[1..] + q);
      assert id == [id[0]] + id[1..];
    } else {
      assert s == q;
    }
  }

  /** The path part of the web player's track link, query included. */
  function TrackUrlTail(id: string, q: string): string {
    "/track/" + id + q
  }

  /** The web player's link for a track is a track link. */
  lemma TrackUrlIsSpotifyUrl(id: string, q: string)
    requires id != "" && AllAlnum(id) && IsLinkQuery(q)
    ensures IsSpotifyUrl(TrackUrlPrefix + id + q)
  {
    var url := TrackUrlPrefix + id + q;
    var tail := TrackUrlTail(id, q);
    var rest := "//" + (SpotifyHost + tail);
    assert Url.SplitScheme(Url.Clean(url)) == ("https", rest) by {
      TrackUrlIsClean(id, q);
      TrackUrlScheme(id, q);
    }
    assert Url.SplitNetloc(rest) == (SpotifyHost, tail) by {
      TrackUrlNetloc(tail);
    }
    var path := Url.CutAt(Url.CutAt(tail, '#').0, '?').0;
    assert ';' !in path && Contains(path, "track") by {
      TrackPathParts(id, q);
    }
    UrlParseSteps(url, "https", rest, SpotifyHost, tail);
  }

  /** `urlparse` read step by step: scheme, network location, then path. */
  lemma UrlParseSteps(url: string, scheme: string, rest: string, netloc: string, after: string)
    requires Url.SplitScheme(Url.Clean(url)) == (scheme, rest)
    requires Url.SplitNetloc(rest) == (netloc, after)
    ensures var path := Url.CutAt(Url.CutAt(after, '#').0, '?').0;
      Url.UrlParse(url).netloc == netloc && (';' !in path ==> Url.UrlParse(url).path == path)
  {
  }

  lemma TrackUrlIsClean(id: string, q: string)
    requires AllAlnum(id) && IsLinkQuery(q)
    ensures Url.Clean(TrackUrlPrefix + id + q) == TrackUrlPrefix + id + q
  {
    var url := TrackUrlPrefix + id + q;
    var n := |TrackUrlPrefix|;
    assert url[0] == 'h';
    forall i | 0 <= i < |url| ensures !Url.IsUnsafeChar(url[i]) {
      if i >= n + |id| {
        assert url[i] == q[i - n - |id|];
      } else if i >= n {
        assert url[i] == id[i - n];
      } else {
        assert url[..n] == TrackUrlPrefix;
        assert url[i] == url[..n][i];
      }
    }
  }

  lemma TrackUrlScheme(id: string, q: string)
    ensures Url.SplitScheme(TrackUrlPrefix + id + q) == ("https", "//" + (SpotifyHost + TrackUrlTail(id, q)))
  {
    var url := TrackUrlPrefix + id + q;
    assert url[..|TrackUrlPrefix|] == TrackUrlPrefix;
    assert url[..5] == "https" && url[5] == ':';
    HttpsIsScheme();
    Url.SchemeAt(url, "https");
    TrackUrlAfterScheme(id, q);
  }

  lemma HttpsIsScheme()
    ensures IsAlnum("https"[0]) && !IsDigit("https"[0])
    ensures forall k :: 0 <= k < 5 ==> Url.IsSchemeChar("https"[k])
    ensures Lower("https") == "https"
  {
    forall k | 0 <= k < 5 ensures Url.IsSchemeChar("https"[k]) {
      assert k == 0 || k == 1 || k == 2 || k == 3 || k == 4;
    }
    LowerHttps();
  }

  lemma TrackUrlAfterScheme(id: string, q: string)
    ensures (TrackUrlPrefix + id + q)[6..] == "//" + (SpotifyHost + TrackUrlTail(id, q))
  {
    var head := "//" + SpotifyHost + "/track/";
    assert TrackUrlPrefix == "https:" + head;
    assert TrackUrlPrefix + id + q == "https:" + (head + id + q);
    ConcatAssoc("//", SpotifyHost, "/track/");
    assert head + id + q == "//" + (SpotifyHost + ("/track/" + id + q));
  }

  lemma LowerHttps()
    ensures Lower("https") == "https"
  {
    var l := Lower("https");
    forall i | 0 <= i < 5 ensures l[i] == "https"[i] {
      assert !IsUpper("https"[i]) by {
        assert i == 0 || i == 1 || i == 2 || i == 3 || i == 4;
      }
    }
  }

  lemma TrackUrlNetloc(tail: string)
    requires tail != [] && tail[0] == '/'
    ensures Url.SplitNetloc("//" + (SpotifyHost + tail)) == (SpotifyHost, tail)
  {
    var rest := "//" + (SpotifyHost + tail);
    NetlocEndAfter(SpotifyHost, tail);
    assert rest[2..] == SpotifyHost + tail;
    assert (SpotifyHost + tail)[..|SpotifyHost|] == SpotifyHost;
    assert (SpotifyHost + tail)[|SpotifyHost|..] == tail;
  }

  /** The network location ends at the first delimiter after it. */
  lemma NetlocEndAfter(host: string, tail: string)
    requires forall k :: 0 <= k < |host| ==> !Url.IsNetlocEnd(host[k])
    requires tail != [] && Url.IsNetlocEnd(tail[0])
    ensures Url.NetlocEnd(host + tail) == |host|
    decreases |host|
  {
    if |host| > 0 {
      assert (host + tail)[1..] == host[1..] + tail;
      NetlocEndAfter(host[1..], tail);
    } else {
      assert host + tail == tail;
    }
  }

  lemma TrackPathParts(id: string, q: string)
    requires id != "" && AllAlnum(id) && IsLinkQuery(q)
    ensures var path := Url.CutAt(Url.CutAt(TrackUrlTail(id, q), '#').0, '?').0;
      path == "/track/" + id && ';' !in path && Contains(path, "track")
  {
    var s := TrackUrlTail(id, q);
    var p := "/track/" + id;
    assert '?' !in p && ';' !in p && '#' !in p by {
      forall i | 0 <= i < |p| ensures p[i] != '?' && p[i] != ';' && p[i] != '#' {
        if i >= 7 { assert p[i] == id[i - 7]; }
        else { assert p[i] == p[..7][i]; }
      }
    }
    assert '#' !in s by {
      forall i | 0 <= i < |s| ensures s[i] != '#' {
        if i >= |p| { assert s[i] == q[i - |p|]; }
        else { assert s[i] == p[i]; }
      }
    }
    if q != "" {
      assert s == p + "?" + q[1..];
      ContainsChar(p, '?');
      SplitFirstUnique(s, "?", p, q[1..]);
    }
    assert Url.CutAt(s, '?').0 == p;
    assert p[1..6] == p[..7][1..6] == "track";
    ContainsAt(p, "track", 1);
  }

  /** A path line with no "//" in it (a local file path, say) is never a track link. */
  lemma LocalPathIsNotSpotifyUrl(path: string)
    requires !Contains(Url.Clean(path), "//")
    ensures !IsSpotifyUrl(path)
  {
    Url.NoSlashesNoNetloc(path);
  }

  // ---------------------------------------------------------------------------------
  // Search queries
  // ---------------------------------------------------------------------------------

  /** `os.path.basename` (POSIX): the text after the last '/'. */
  function Basename(path: string): (r: string)
    ensures '/' !in r && EndsWith(path, r)
    ensures '/' !in path ==> r == path
    ensures '/' in path ==> |r| < |path| && path[|path| - |r| - 1] == '/'
  {
    match LastIndexOfChar(path, '/')
    case None => path
    case Some(i) => path[i + 1..]
  }

  predicate AllDots(s: string) { forall i :: 0 <= i < |s| ==> s[i] == '.' }

  lemma CharInLater(s: string, k: int, d: int)
    requires 0 <= k < d < |s|
    ensures s[d] in s[k + 1..]
  {
    assert s[k + 1..][d - k - 1] == s[d];
  }

  /** `os.path.splitext(name)[0]` (POSIX) of a name without '/': the text before the last
      '.', unless only dots come before it (a leading-dot name has no extension). */
  function Stem(name: string): (r: string)
    ensures |r| <= |name| && r == name[..|r|]
    ensures r == name || (name[|r|] == '.' && '.' !in name[|r| + 1..] && !AllDots(r))
  {
    match LastIndexOfChar(name, '.')
    case None => name
    case Some(d) => if AllDots(name[..d]) then name else name[..d]
  }

  /** The name stays whole exactly when it has no extension: its last '.' (if any) has only
      dots before it. */
  lemma StemKeepsWhole(name: string)
    ensures Stem(name) == name <==> HasNoExtension(name)
  {
    match LastIndexOfChar(name, '.')
    case None =>
      assert forall k :: 0 <= k < |name| ==> name[k] != '.';
    case Some(d) =>
      LastDotIsOnly(name, d);
      assert Stem(name) == name <==> AllDots(name[..d]) by {
        assert |name[..d]| < |name|;
      }
  }

  /** Every '.' with no '.' after it has only dots before it. */
  predicate HasNoExtension(name: string) {
    forall k :: 0 <= k < |name| && name[k] == '.' && '.' !in name[k + 1..] ==> AllDots(name[..k])
  }

  /** A '.' with no '.' after it is the last one. */
  lemma LastDotIsOnly(name: string, d: nat)
    requires d < |name| && name[d] == '.' && '.' !in name[d + 1..]
    ensures HasNoExtension(name) <==> AllDots(name[..d])
  {
    forall k | 0 <= k < |name| && name[k] == '.'
      ensures k < d ==> '.' in name[k + 1..]
      ensures d < k ==> '.' in name[d + 1..]
    {
      if k < d {
        CharInLater(name, k, d);
      } else if d < k {
        CharInLater(name, d, k);
      }
    }
  }

  function SearchQuery(title: string, artist: string): string {
    "track:" + title + " artist:" + artist
  }

  /** `extract_search_query_from_song`: artist and title when both are known; otherwise
      the file name without directory and extension, read as "artist - title" when it
      has that separator and used whole when it has not; empty for an empty path. */
  function ExtractSearchQuery(song: M3u.Song): (r: string)
    ensures song.artist != "" && song.title != "" ==> r == SearchQuery(song.title, song.artist)
    ensures !(song.artist != "" && song.title != "") ==> (r == "" <==> song.path == "" || Stem(Basename(song.path)) == "")
  {
    if song.artist != "" && song.title != "" then SearchQuery(song.title, song.artist)
    else if song.path == "" then ""
    else
      var stem := Stem(Basename(song.path));
      match SplitFirst(stem, M3u.ArtistTitleSeparator)
      case Some((artist, title)) => SearchQuery(title, artist)
      case None => stem
  }

  /** A path ending in "artist - title.ext" gives the query for that artist and title when
      the song carries no artist and title of its own. */
  lemma QueryFromFileName(song: M3u.Song, dir: string, artist: string, title: string, ext: string)
    requires !(song.artist != "" && song.title != "")
    requires song.path == dir + "/" + artist + M3u.ArtistTitleSeparator + title + "." + ext
    requires '/' !in artist && '/' !in title && '/' !in ext && '.' !in ext
    requires artist != "" && IsAlnum(artist[0]) && IsAlnum(artist[|artist| - 1])
    requires !Contains(artist, M3u.ArtistTitleSeparator)
    ensures ExtractSearchQuery(song) == SearchQuery(title, artist)
  {
    var stem := artist + M3u.ArtistTitleSeparator + title;
    assert stem != "" && stem[0] != '.' && '/' !in stem by {
      assert stem[0] == artist[0];
      assert '/' !in M3u.ArtistTitleSeparator;
      assert '/' !in artist + M3u.ArtistTitleSeparator;
    }
    assert song.path == dir + "/" + (stem + "." + ext) by {
      ConcatAssoc(dir + "/", stem, "." + ext);
    }
    StemOfPath(dir, stem, ext);
    M3u.SplitAfterArtist(artist, title);
    QueryFromStem(song, stem, artist, title);
  }

  lemma StemOfPath(dir: string, stem: string, ext: string)
    requires stem != "" && stem[0] != '.' && '/' !in stem && '/' !in ext && '.' !in ext
    ensures Stem(Basename(dir + "/" + (stem + "." + ext))) == stem
  {
    BasenameOfJoin(dir, stem + "." + ext);
    StemOfName(stem, ext);
  }

  lemma QueryFromStem(song: M3u.Song, stem: string, artist: string, title: string)
    requires !(song.artist != "" && song.title != "") && song.path != ""
    requires Stem(Basename(song.path)) == stem
    requires SplitFirst(stem, M3u.ArtistTitleSeparator) == Some((artist, title))
    ensures ExtractSearchQuery(song) == SearchQuery(title, artist)
  {
  }

  /** A file name without the separator is searched for as it stands, minus directory and
      extension. */
  lemma QueryIsBareStem(song: M3u.Song)
    requires !(song.artist != "" && song.title != "") && song.path != ""
    requires !Contains(Stem(Basename(song.path)), M3u.ArtistTitleSeparator)
    ensures ExtractSearchQuery(song) == Stem(Basename(song.path))
  {
  }

  lemma BasenameOfJoin(dir: string, name: string)
    requires '/' !in name
    ensures Basename(dir + "/" + name) == name
  {
    var p := dir + "/" + name;
    assert p[|dir|] == '/';
    assert p[|dir| + 1..] == name;
  }

  lemma StemOfName(stem: string, ext: string)
    requires stem != "" && stem[0] != '.' && '/' !in stem && '.' !in ext
    ensures Stem(stem + "." + ext) == stem
  {
    var name := stem + "." + ext;
    assert name[|stem|] == '.';
    assert name[..|stem|] == stem;
  }

  // ---------------------------------------------------------------------------------
  // Sorting a batch into found IDs and failures
  // ---------------------------------------------------------------------------------

  /** What the catalogue search answered for a query: the first hit's ID, no hit, or an
      error raised by the call. */
  datatype SearchOutcome = Found(id: string) | NotFound | SearchFailed

  /** The ID a track link carries, when the path is a track link the pattern matches. */
  function LinkId(path: string): (r: Option<string>)
    ensures r.Some? ==> IsSpotifyUrl(path) && r == ExtractTrackId(path)
    ensures IsSpotifyUrl(path) && ExtractTrackId(path).Some? ==> r.Some?
  {
    if IsSpotifyUrl(path) then ExtractTrackId(path) else None
  }

  /** How one track of a batch is resolved: the ID in its track link, without a search;
      otherwise the first search hit for its query; no ID when the query is empty, the
      search finds nothing or the search fails. */
  function ResolveTrack(song: M3u.Song, search: string -> SearchOutcome): (r: Option<string>)
    ensures LinkId(song.path).Some? ==> r == LinkId(song.path)
    ensures LinkId(song.path).None? ==>
      (r.Some? <==> ExtractSearchQuery(song) != "" && search(ExtractSearchQuery(song)).Found?)
    ensures LinkId(song.path).None? && r.Some? ==> r.value == search(ExtractSearchQuery(song)).id
  {
    match LinkId(song.path)
    case Some(id) => Some(id)
    case None =>
      var query := ExtractSearchQuery(song);
      if query == "" then None
      else
        match search(query)
        case Found(id) => Some(id)
        case _ => None
  }

  /** A track given by its web player link is resolved without asking the search at all. */
  lemma TrackLinkNeedsNoSearch(song: M3u.Song, id: string, q: string, search: string -> SearchOutcome)
    requires id != "" && AllAlnum(id) && IsLinkQuery(q)
    requires song.path == TrackUrlPrefix + id + q
    ensures ResolveTrack(song, search) == Some(id)
  {
    TrackUrlIsSpotifyUrl(id, q);
    TrackUrlGivesId(id, q);
  }

  /** How `process_m3u_batch` resolves each track, as a function of the track alone. */
  function Resolver(search: string -> SearchOutcome): (r: M3u.Song -> Option<string>)
    ensures forall s :: r(s) == ResolveTrack(s, search)
  {
    s => ResolveTrack(s, search)
  }

  /** The IDs found for `songs`, in order. */
  function ResolvedIds(songs: seq<M3u.Song>, resolve: M3u.Song -> Option<string>): seq<string>
  {
    if |songs| == 0 then []
    else
      ResolvedIds(songs[..|songs| - 1], resolve)
        + (match resolve(songs[|songs| - 1]) case Some(id) => [id] case None => [])
  }

  /** The songs for which no ID was found, in order. */
  function FailedSongs(songs: seq<M3u.Song>, resolve: M3u.Song -> Option<string>): (r: seq<M3u.Song>)
    ensures forall k :: 0 <= k < |r| ==> resolve(r[k]).None?
  {
    if |songs| == 0 then []
    else
      FailedSongs(songs[..|songs| - 1], resolve)
        + (if resolve(songs[|songs| - 1]).None? then [songs[|songs| - 1]] else [])
  }

  /** Each failed song is one of the batch's songs. */
  lemma {:induction false} FailedAreFromBatch(songs: seq<M3u.Song>, resolve: M3u.Song -> Option<string>)
    ensures forall k :: 0 <= k < |FailedSongs(songs, resolve)| ==> FailedSongs(songs, resolve)[k] in songs
  {
    if |songs| > 0 {
      var init := songs[..|songs| - 1];
      FailedAreFromBatch(init, resolve);
      var failed := FailedSongs(songs, resolve);
      var before := FailedSongs(init, resolve);
      forall k | 0 <= k < |failed| ensures failed[k] in songs {
        if k < |before| {
          assert failed[k] == before[k];
          assert before[k] in init;
        } else {
          assert failed[k] == songs[|songs| - 1];
        }
      }
    }
  }

  /** Every track lands in exactly one of the two lists. */
  lemma {:induction false} EveryTrackAccountedFor(songs: seq<M3u.Song>, resolve: M3u.Song -> Option<string>)
    ensures |ResolvedIds(songs, resolve)| + |FailedSongs(songs, resolve)| == |songs|
  {
    if |songs| > 0 {
      EveryTrackAccountedFor(songs[..|songs| - 1], resolve);
    }
  }

  /** Sorting a batch in two parts gives the concatenation of the parts' results: the
      lists keep the order of the batch file. */
  lemma {:induction false} SortingSplits(a: seq<M3u.Song>, b: seq<M3u.Song>, resolve: M3u.Song -> Option<string>)
    ensures ResolvedIds(a + b, resolve) == ResolvedIds(a, resolve) + ResolvedIds(b, resolve)
    ensures FailedSongs(a + b, resolve) == FailedSongs(a, resolve) + FailedSongs(b, resolve)
    decreases |b|
  {
    if |b| == 0 {
      assert a + b == a;
    } else {
      var b' := b[..|b| - 1];
      assert (a + b)[..|a + b| - 1] == a + b';
      assert (a + b)[|a + b| - 1] == b[|b| - 1];
      SortingSplits(a, b', resolve);
    }
  }

  /** When every track resolves, nothing fails and every track gives an ID. */
  lemma {:induction false} AllResolve(songs: seq<M3u.Song>, resolve: M3u.Song -> Option<string>)
    requires forall k :: 0 <= k < |songs| ==> resolve(songs[k]).Some?
    ensures FailedSongs(songs, resolve) == [] && |ResolvedIds(songs, resolve)| == |songs|
  {
    EveryTrackAccountedFor(songs, resolve);
    if |songs| > 0 {
      var init := songs[..|songs| - 1];
      assert forall k :: 0 <= k < |init| ==> init[k] == songs[k];
      AllResolve(init, resolve);
      assert resolve(songs[|songs| - 1]).Some?;
    }
  }

  /** When no track resolves, every track fails, in order, and no ID is found. */
  lemma NoneResolve(songs: seq<M3u.Song>, resolve: M3u.Song -> Option<string>)
    requires forall k :: 0 <= k < |songs| ==> resolve(songs[k]).None?
    ensures FailedSongs(songs, resolve) == songs && ResolvedIds(songs, resolve) == []
  {
    NoneFound(songs, resolve);
    AllFail(songs, resolve);
  }

  lemma {:induction false} NoneFound(songs: seq<M3u.Song>, resolve: M3u.Song -> Option<string>)
    requires forall k :: 0 <= k < |songs| ==> resolve(songs[k]).None?
    ensures ResolvedIds(songs, resolve) == []
  {
    if |songs| > 0 {
      var init := songs[..|songs| - 1];
      assert forall k :: 0 <= k < |init| ==> init[k] == songs[k];
      NoneFound(init, resolve);
      assert resolve(songs[|songs| - 1]).None?;
    }
  }

  lemma {:induction false} AllFail(songs: seq<M3u.Song>, resolve: M3u.Song -> Option<string>)
    requires forall k :: 0 <= k < |songs| ==> resolve(songs[k]).None?
    ensures FailedSongs(songs, resolve) == songs
  {
    if |songs| > 0 {
      var init := songs[..|songs| - 1];
      assert forall k :: 0 <= k < |init| ==> init[k] == songs[k];
      AllFail(init, resolve);
      assert resolve(songs[|songs| - 1]).None?;
      InitLast(songs);
    }
  }

  lemma InitLast<T>(s: seq<T>)
    requires |s| > 0
    ensures s[..|s| - 1] + [s[|s| - 1]] == s
  {
  }

  /** The loop of `process_m3u_batch` over the parsed tracks: the IDs found, the tracks
      that failed and the lines appended to the failed-tracks log, one path per failure. */
  method SortBatch(songs: seq<M3u.Song>, resolve: M3u.Song -> Option<string>)
    returns (trackIds: seq<string>, failed: seq<M3u.Song>, failedLog: seq<string>)
    ensures trackIds == ResolvedIds(songs, resolve) && failed == FailedSongs(songs, resolve)
    ensures |trackIds| + |failed| == |songs|
    ensures |failedLog| == |failed|
    ensures forall k :: 0 <= k < |failed| ==> failedLog[k] == failed[k].path
  {
    trackIds, failed, failedLog := [], [], [];
    var i := 0;
    while i < |songs|
      invariant 0 <= i <= |songs|
      invariant trackIds == ResolvedIds(songs[..i], resolve)
      invariant failed == FailedSongs(songs[..i], resolve)
      invariant |failedLog| == |failed|
      invariant forall k :: 0 <= k < |failed| ==> failedLog[k] == failed[k].path
    {
      var song := songs[i];
      assert songs[..i + 1][..i] == songs[..i];
      assert songs[..i + 1][i] == song;
      match resolve(song) {
        case Some(id) =>
          trackIds := trackIds + [id];
        case None =>
          failed := failed + [song];
          failedLog := failedLog + [song.path];
      }
      i := i + 1;
    }
    assert songs[..i] == songs;
    EveryTrackAccountedFor(songs, resolve);
  }

  /** `process_m3u_batch` on the text of a batch file. The search answers and the indices of
      the chunks the playlist accepts are given; the method returns the number of tracks
      added, the failures, the lines appended to the failed-tracks log, the IDs found and the
      add calls made. */
  method ProcessBatch(text: string, search: string -> SearchOutcome, accepted: set<nat>)
    returns (successful: nat, failedCount: nat, failed: seq<M3u.Song>, failedLog: seq<string>,
             trackIds: seq<string>, calls: seq<seq<string>>)
    ensures var songs := M3u.ParseM3uText(text);
      trackIds == ResolvedIds(songs, Resolver(search)) && failed == FailedSongs(songs, Resolver(search))
    ensures |trackIds| + failedCount == |M3u.ParseM3uText(text)|
    ensures failedCount == |failed| && |failedLog| == |failed|
    ensures forall k :: 0 <= k < |failed| ==> failedLog[k] == failed[k].path
    ensures calls == Chunks(trackIds, ApiChunkSize) && Flatten(calls) == trackIds
    ensures forall k :: 0 <= k < |calls| ==> 0 < |calls[k]| <= ApiChunkSize
    ensures successful == AcceptedTotal(calls, accepted) && successful <= |trackIds|
    ensures (forall k :: 0 <= k < |calls| ==> k in accepted) ==> successful == |trackIds|
  {
    var songs := M3u.ParseM3uText(text);
    trackIds, failed, failedLog := SortBatch(songs, Resolver(search));
    failedCount := |failed|;
    successful, calls := SendInChunks(trackIds, ApiChunkSize, accepted);
  }

  // ---------------------------------------------------------------------------------
  // The failed-tracks playlist
  // ---------------------------------------------------------------------------------

  /** The lines `create_failed_m3u` writes for one track: an `#EXTINF` line when it has
      metadata, or an artist and a title to make "artist - title" from; then its path. */
  function FailedEntryLines(s: M3u.Song): (r: seq<string>)
    ensures |r| == 1 || |r| == 2
    ensures r[|r| - 1] == s.path
    ensures |r| == 2 <==> s.metadata != "" || (s.artist != "" && s.title != "")
    ensures s.metadata != "" ==> r == M3u.SongLines(s)
    ensures s.metadata == "" && s.artist != "" && s.title != "" ==>
      r[0] == M3u.ExtinfLine(s.duration, s.artist + M3u.ArtistTitleSeparator + s.title)
  {
    if s.metadata != "" || (s.artist != "" && s.title != "") then
      var metadata := if s.metadata == "" then s.artist + M3u.ArtistTitleSeparator + s.title else s.metadata;
      [M3u.ExtinfLine(s.duration, metadata), s.path]
    else [s.path]
  }

  function AllFailedLines(failed: seq<M3u.Song>): seq<string>
  {
    if |failed| == 0 then [] else FailedEntryLines(failed[0]) + AllFailedLines(failed[1..])
  }

  /** The lines of the failed-tracks playlist: the header, then each track's lines. */
  function FailedM3uLines(failed: seq<M3u.Song>): (r: seq<string>)
    ensures |r| >= 1 + |failed| && r[0] == M3u.Header
  {
    AllFailedLinesLength(failed);
    [M3u.Header] + AllFailedLines(failed)
  }

  lemma {:induction false} AllFailedLinesLength(failed: seq<M3u.Song>)
    ensures |AllFailedLines(failed)| >= |failed|
  {
    if |failed| > 0 {
      AllFailedLinesLength(failed[1..]);
    }
  }

  /** For a track as the parser produces it, the failed-tracks playlist writes the same
      lines as a batch file does. */
  lemma FailedEntryIsSongLines(s: M3u.Song)
    requires M3u.ParserShaped(s)
    ensures FailedEntryLines(s) == M3u.SongLines(s)
  {
    if s.metadata == "" {
      assert !Contains("", " - ") by { assert IndexOf("", " - ") == None; }
    }
  }

  lemma {:induction false} FailedFileMatchesBatch(failed: seq<M3u.Song>)
    requires forall k :: 0 <= k < |failed| ==> M3u.ParserShaped(failed[k])
    ensures FailedM3uLines(failed) == M3u.BatchLines(failed)
  {
    AllFailedLinesAreSongLines(failed);
  }

  lemma {:induction false} AllFailedLinesAreSongLines(failed: seq<M3u.Song>)
    requires forall k :: 0 <= k < |failed| ==> M3u.ParserShaped(failed[k])
    ensures AllFailedLines(failed) == M3u.AllSongLines(failed)
  {
    if |failed| > 0 {
      FailedEntryIsSongLines(failed[0]);
      AllFailedLinesAreSongLines(failed[1..]);
    }
  }

  /** The failed-tracks playlist written for a batch file reads back as its failed tracks,
      with paths and metadata intact. */
  lemma FailedFileReadsBack(text: string, search: string -> SearchOutcome)
    ensures var failed := FailedSongs(M3u.ParseM3uText(text), Resolver(search));
      M3u.ParseM3uText(Unlines(FailedM3uLines(failed))) == M3u.RereadAll(failed)
  {
    var songs := M3u.ParseM3uText(text);
    var failed := FailedSongs(songs, Resolver(search));
    M3u.ParsedSongsAreGood(text);
    FailedAreFromBatch(songs, Resolver(search));
    assert forall k :: 0 <= k < |failed| ==> M3u.GoodSong(failed[k]);
    FailedFileMatchesBatch(failed);
    M3u.BatchTextRoundTrip(failed);
  }
}
