# Spotify playlist tools — a verified model of the pure core

The repository is a set of Python scripts around Spotify playlists and extended-M3U files:

- a **splitter** that parses an M3U playlist and writes it back out as numbered batch files;
- a **deduplicator** that flags repeated tracks in a playlist and removes them in chunks;
- a **backup** tool that slugs folder names, resolves configured playlist references, normalises
  playlist items and writes an M3U file per playlist;
- an **adder** that resolves each M3U entry to a track ID (from a track link or by searching),
  adds the IDs in chunks of 100 and writes the failures back out as an M3U file.

This project models the deterministic logic under those scripts in Dafny and proves its
properties. Remote calls become parameters ("oracles"):

- the catalogue search is a function from query to outcome;
- the success of each chunked add or remove call is a set of accepted chunk indices;
- Unicode case folding is an uninterpreted function `fold`;
- the fetched playlists and playlist items are input sequences.

A file is a sequence of lines. Reading splits the text at `\n`, and writing ends every line
with `\n`.

| file | module | models |
|---|---|---|
| common.dfy | `Common` | `Option`, `Result`, Python truthiness of optional strings |
| text.dfy | `Text` | `strip`, ASCII `lower`, substring search, `split`/`join`, `int()` and `str()` of integers |
| batching.dfy | `Batching` | the slicing `xs[i:i+n] for i in range(0, len(xs), n)` and sending chunks to an API |
| url.dfy | `Url` | the part of `urllib.parse.urlparse` that `is_spotify_url` depends on |
| spotify.dfy | `Spotify` | the API records: artist, album, track, playlist item, playlist |
| m3u.dfy | `M3u` | `parse_m3u`, `split_into_batches`, the lines and names `save_batches` writes |
| dedup.dfy | `Deduplicator` | `find_duplicates`, `remove_duplicates`, the playlist-URL trimming in `main` |
| backup.dfy | `Backup` | `slugify`, `parse_format`, `resolve_identifier`, `determine_playlist_exports`, `normalize_tracks`, `write_m3u` |
| adder.dfy | `Adder` | `is_spotify_url`, `extract_track_id_from_url`, `extract_search_query_from_song`, `process_m3u_batch`, `create_failed_m3u` |

The central results:

- **Splitter.** Parsing a playlist, splitting it into batches, writing the batch files and
  parsing them back gives every song again, in order (`M3u.SplitterRoundTrip`). A song written
  without metadata loses its duration, title and artist on the way.
- **Backup and adder files.** Both files are readable by the same parser:
  - the backup's M3U file gives back each track's location, duration and label
    (`Backup.BackupM3uReadsBack`);
  - the adder's failed-tracks file gives back the failed songs (`Adder.FailedFileReadsBack`).
- **Deduplicator.**
  - A position is flagged exactly when an earlier valid item carries the same ID
    (`Deduplicator.FlagsExactlyRepeats`).
  - The removal plan is strictly descending and holds exactly the flagged positions that have a
    URI (`Deduplicator.DuplicatePlan`).
- **Adder.** Every parsed track lands in exactly one of the found IDs and the failures, in
  order (`Adder.ProcessBatch`, `Adder.SortingSplits`).

## Model

| member | source | states |
|---|---|---|
| `Common.OrElse` | spotify_playlist_backup.py:214 | `x or default` for an optional string: the value when it is non-empty, the default otherwise |
| `Text.Strip` | m3u_splitter.py:53 | `strip()` leaves no whitespace at either end, never lengthens the text, and is empty exactly when the text is all whitespace |
| `Text.StripIsSlice` | m3u_splitter.py:53 | the stripped text is a contiguous slice of the original, and everything dropped before and after it is whitespace |
| `Text.StripIdempotent` | m3u_splitter.py:53 | stripping twice is stripping once |
| `Text.Lower` | spotify_playlist_backup.py:96 | `lower()` keeps the length and lower-cases each ASCII capital in place |
| `Text.IndexOf` | spotify_playlist_backup.py:254 | finds the leftmost occurrence of a substring, or reports that there is none |
| `Text.SplitFirst` | m3u_splitter.py:76 | `split(sep, 1)`: no split exactly when the separator is absent; otherwise the text is left + sep + right, the separator occurs where left ends and at no earlier position |
| `Text.SplitAll` | spotify_playlist_backup.py:253 | `split(sep)` yields at least one field; its inverse is `Text.JoinSplit` and its fields are described by `Text.SplitAllFieldsLack` and `Text.SplitAllLast` |
| `Text.SplitAllLength` | spotify_playlist_backup.py:255 | `split(sep)` yields at least two fields exactly when the separator occurs |
| `Text.SplitAllFieldsLack` | spotify_playlist_backup.py:253 | no field of `split(sep)` contains the separator |
| `Text.JoinSplit` | spotify_playlist_deduplicator.py:201 | `sep.join(s.split(sep)) == s` |
| `Text.SplitAllLast` | spotify_playlist_backup.py:253 | the last field of `split(sep)` is the text after the last separator |
| `Text.LastIndexOfChar` | spotify_playlist_adder.py:127 | the position of the last occurrence of a character, or none when it is absent |
| `Text.DigitsValueOfNat` | m3u_splitter.py:149 | reading back the decimal digits of `str(n)` gives `n` |
| `Text.NatToStringInjective` | m3u_splitter.py:149 | different numbers print differently |
| `Text.ParseIntToString` | m3u_splitter.py:69 | `int(str(i)) == i` for every integer, negative ones included |
| `Text.ParseInt` | m3u_splitter.py:69 | `int()` accepts exactly the texts that have no U+001C to U+001F character and that strip to an optional sign followed by digits with single `_` separators; blank text is rejected, and a negative value needs a leading '-' |
| `Text.ParseIntPaddedPlus` | m3u_splitter.py:69 | surrounding whitespace, a `+` and a leading zero leave the value unchanged: `int(" +0" + str(n) + "\n") == n` |
| `Text.ParseIntUnderscore` | m3u_splitter.py:69 | a single `_` between two digit groups is accepted and ignored: `int(a + "_" + b) == int(a + b)` |
| `Text.ParseIntRejectsInfoSeparator` | m3u_splitter.py:69 | a leading U+001C makes `int()` fail although `strip()` would remove it |
| `Text.SplitUnlines` | m3u_splitter.py:51-52 | reading back text written one line per `\n` gives the lines plus one empty last line |
| `Text.JoinNewline` | spotify_playlist_backup.py:229 | `'\n'.join(lines) + '\n'` is the text with every line ended by a newline |
| `Batching.ChunksShape` | m3u_splitter.py:123 | the chunks concatenate to the input in order, each holds 1 to `n` items, all but the last exactly `n` |
| `Batching.ChunkCountIsCeiling` | m3u_splitter.py:123 | there are ceil(len / n) chunks, none for an empty input |
| `Batching.AcceptedTotalBounds` | spotify_playlist_deduplicator.py:169-183 | the count of items in accepted calls never exceeds the items sent: all of them when every call succeeds, none when every call fails |
| `Batching.SendInChunks` | spotify_playlist_adder.py:222-231 | the calls made are the chunks of 100 in order, covering every item; the returned count is the total of the accepted chunks |
| `M3u.SplitArtistTitle` | m3u_splitter.py:73-78 | without " - " the artist is empty and the title is the whole text; otherwise the artist is the stripped text before the leftmost " - " and the title the stripped text after it |
| `M3u.SplitAfterArtist` | spotify_playlist_adder.py:131-135 | in "artist - title" the first separator is the one after the artist, when the artist holds none and ends in a letter or digit |
| `M3u.ArtistTitleRoundTrip` | m3u_splitter.py:73-78 | joining an artist and a stripped title with " - " and splitting again gives both back, when the artist starts and ends with a letter or digit and holds no separator |
| `M3u.ExtinfFields` | m3u_splitter.py:68-70 | the duration text is everything before the first comma after `#EXTINF:`; the metadata is everything after it, or empty without a comma |
| `M3u.ParseExtinf` | m3u_splitter.py:64-91 | an `#EXTINF:` line yields a pending record exactly when `int()` accepts its duration, with no path yet, that duration, the raw metadata, and the artist and title split from it |
| `M3u.Step` | m3u_splitter.py:52-108 | one loop iteration: ignored lines keep the state; `#EXTINF:` replaces the pending record; a location appends one song and clears the pending record |
| `M3u.TagsAreComments` | m3u_splitter.py:60-64 | the header and every `#EXTINF:` line start with `#`, and the header is not an `#EXTINF:` line |
| `M3u.RunConcat` | m3u_splitter.py:52 | reading two runs of lines in a row is reading their concatenation |
| `M3u.Run` | m3u_splitter.py:52-108 | the loop only appends songs, never revising earlier ones, and adds at most one per line |
| `M3u.ParseM3u` | m3u_splitter.py:36-110 | a file yields at most one song per line |
| `M3u.ParseM3uText` | m3u_splitter.py:51-52 | the text yields at most one song per line it splits into |
| `M3u.IgnoredLineChangesNothing` | m3u_splitter.py:56-99 | a blank line, the header or any non-`#EXTINF` comment line anywhere in the file changes nothing, and keeps a pending record |
| `M3u.ExtinfReplacesPending` | m3u_splitter.py:64-91 | a second `#EXTINF:` line replaces one whose location has not been seen yet |
| `M3u.TrailingExtinfDropped` | m3u_splitter.py:93-110 | a record still pending at end of file produces no song |
| `M3u.PathLineAppendsSong` | m3u_splitter.py:93-108 | a location line completes the pending record with that path; with nothing pending it yields a song with empty title, artist and metadata and duration 0 |
| `M3u.TrailingBlankIgnored` | m3u_splitter.py:56-57 | the blank field after the file's final newline produces nothing |
| `M3u.SplitIntoBatches` | m3u_splitter.py:112-123 | batch size 0 raises; a negative size gives no batches; a positive size gives the chunks of the list |
| `M3u.SplitIntoBatchesShape` | m3u_splitter.py:123 | for a positive size the batches concatenate to the input, each holds 1 to `size` songs, all but the last are full, and there are ceil(n / size) of them |
| `M3u.BatchLines` | m3u_splitter.py:150-157 | a batch file starts with `#EXTM3U` and has at least one line per song |
| `M3u.SaveBatches` | m3u_splitter.py:148-158 | one file per batch holding that batch's lines, named exactly `{base}_{i+1}.m3u`, with no two files sharing a name |
| `M3u.BatchFileNamesDistinct` | m3u_splitter.py:149 | `{base}_{i+1}.m3u` differs for different batch indices |
| `M3u.RereadPreserves` | m3u_splitter.py:150-157 | a song with metadata or a zero duration re-reads with the same path, duration and metadata; a song whose title and artist came from its metadata re-reads unchanged |
| `M3u.ExtinfLineParses` | m3u_splitter.py:155 | the `#EXTINF:{duration},{metadata}` line written for non-empty metadata parses back to that duration and metadata |
| `M3u.ExtinfLineFields` | m3u_splitter.py:155 | the fields of a written `#EXTINF:` line are the printed duration and the metadata, whatever the metadata holds |
| `M3u.SongLinesRoundTrip` | m3u_splitter.py:152-157 | parsing the lines written for one writable song appends exactly its re-read form and leaves nothing pending |
| `M3u.AllSongLinesRoundTrip` | m3u_splitter.py:152-157 | the same for a whole sequence of writable songs, in order |
| `M3u.BatchRoundTrip` | m3u_splitter.py:150-157 | parsing a batch file's lines gives back, song by song, each song re-read |
| `M3u.BatchTextRoundTrip` | m3u_splitter.py:150-157 | the same round trip through the file's text, when no path or metadata holds a newline |
| `M3u.StepPreservesGood` | m3u_splitter.py:52-108 | every line keeps the parser's invariant: emitted songs are writable, newline-free and parser-shaped |
| `M3u.RunPreservesGood` | m3u_splitter.py:52-108 | the same over any run of newline-free lines |
| `M3u.ParsedSongsAreGood` | m3u_splitter.py:36-110 | every song parsed from a file's text can be written to a batch file and read back |
| `M3u.RereadAllKeeps` | m3u_splitter.py:150-157 | parsed songs with metadata or a zero duration re-read unchanged |
| `M3u.GoodSongsReadBack` | m3u_splitter.py:123-158 | chunking parsed songs, saving each chunk and parsing the files back gives every song re-read, in order |
| `M3u.SplitterRoundTrip` | m3u_splitter.py:36-161 | parse, split with a positive size, save and re-parse: the files give every song re-read, in order, and exactly the original songs when each has metadata or a zero duration |
| `Url.SplitScheme` | spotify_playlist_adder.py:88 | the scheme is a lower-cased prefix ended by ':', or empty with the URL untouched |
| `Url.SchemeAt` | spotify_playlist_adder.py:88 | a valid lower-case scheme followed by ':' is split off as the scheme |
| `Url.SplitNetloc` | spotify_playlist_adder.py:88 | after `//` the host runs up to the first '/', '?' or '#'; without `//` there is no host |
| `Url.CutAt` | spotify_playlist_adder.py:88 | splitting at the first occurrence of a character, or keeping the whole text when the character is absent |
| `Url.UrlParse` | spotify_playlist_adder.py:88 | the host holds no '/', '?' or '#'; the path holds no '?' or '#' |
| `Url.NoSlashesNoNetloc` | spotify_playlist_adder.py:88 | text without `//` has no host |
| `Deduplicator.FindDuplicates` | spotify_playlist_deduplicator.py:108-132 | flagged positions are strictly increasing and in range, and distinct IDs plus flagged positions count the valid items |
| `Deduplicator.FlagsExactlyRepeats` | spotify_playlist_deduplicator.py:111-123 | a position is flagged exactly when its item has a track whose ID (None included) a valid item at an earlier position carries; invalid items are never flagged |
| `Deduplicator.TrackIdsAreKeys` | spotify_playlist_deduplicator.py:116-129 | every valid item's ID is a key of the unique map |
| `Deduplicator.KeysAreFirsts` | spotify_playlist_deduplicator.py:119-129 | each key records the position of the first valid item with that ID |
| `Deduplicator.KeysRecordDetails` | spotify_playlist_deduplicator.py:125-129 | each key records the name and artist names of the track at that position |
| `Deduplicator.FirstOccurrences` | spotify_playlist_deduplicator.py:111-129 | the unique map is exactly the first occurrence of every distinct ID, with its name and artists |
| `Deduplicator.FirstOccurrenceNotFlagged` | spotify_playlist_deduplicator.py:119-129 | a recorded first occurrence is never flagged |
| `Deduplicator.SortDescending` | spotify_playlist_deduplicator.py:152 | `sorted(…, reverse=True)` is non-increasing and a permutation of its input |
| `Deduplicator.SortDistinctStrict` | spotify_playlist_deduplicator.py:152 | distinct positions sort into strictly decreasing order |
| `Deduplicator.RemovalPlan` | spotify_playlist_deduplicator.py:155-159 | each plan entry is a listed position whose track has a URI, carrying that track's URI |
| `Deduplicator.RemovalPlanSelects` | spotify_playlist_deduplicator.py:155-159 | the plan keeps exactly the in-range positions with a URI and keeps their descending order |
| `Deduplicator.RemoveDuplicates` | spotify_playlist_deduplicator.py:147-183 | no positions means 0 and no call; otherwise the calls are exactly the chunks of 100 of the sorted plan, in order, and the count is the total of the accepted chunks: at most the plan length, all of it when every call succeeds |
| `Deduplicator.DuplicatePlan` | spotify_playlist_deduplicator.py:152-159 | for the scanned positions the plan is strictly descending and holds exactly the repeated positions whose track has a URI |
| `Deduplicator.PlaylistIdFromArgument` | spotify_playlist_deduplicator.py:199-201 | an argument without `spotify.com/playlist/` is used as given; otherwise the result holds neither '?' nor `playlist/` |
| `Deduplicator.PlaylistIdIsBetween` | spotify_playlist_deduplicator.py:200-201 | the trimmed ID is the text right after the first `playlist/`, up to the next '?' or `playlist/` |
| `Backup.DropUnsafe` | spotify_playlist_backup.py:97 | only letters a-z, digits, '-', whitespace and '_' remain; `Backup.DropUnsafeAppend` and `Backup.DropUnsafeOne` say which characters and in what order |
| `Backup.DropUnsafeAppend` | spotify_playlist_backup.py:97 | deletion works piece by piece: the result for a concatenation is the results concatenated, so the kept characters stay in order |
| `Backup.DropUnsafeOne` | spotify_playlist_backup.py:97 | a leading character is kept exactly when it is in the class `[a-z0-9\-\s_]` |
| `Backup.DropUnsafeNoop` | spotify_playlist_backup.py:97 | text of allowed characters is kept whole |
| `Backup.CollapseGaps` | spotify_playlist_backup.py:98 | no whitespace or '_' remains; `Backup.CollapseGapsKeeps` and `Backup.CollapseGapsRun` say what replaces what |
| `Backup.CollapseGapsKeeps` | spotify_playlist_backup.py:98 | a character other than whitespace or '_' is kept in place |
| `Backup.CollapseGapsRun` | spotify_playlist_backup.py:98 | a maximal run of whitespace and '_' becomes exactly one '-' |
| `Backup.CollapseGapsSlugChars` | spotify_playlist_backup.py:97-98 | after both substitutions only a-z, 0-9 and '-' remain |
| `Backup.CollapseGapsNoop` | spotify_playlist_backup.py:98 | text without whitespace or '_' is unchanged |
| `Backup.Slugify` | spotify_playlist_backup.py:94-99 | the slug is 1 to 60 characters drawn from a-z, 0-9 and '-' |
| `Backup.SlugifyKeepsSlugs` | spotify_playlist_backup.py:94-99 | a valid slug is its own slug |
| `Backup.SlugifyIdempotent` | spotify_playlist_backup.py:94-99 | slugifying a slug changes nothing |
| `Backup.SlugifyBlank` | spotify_playlist_backup.py:99 | a blank name, or one with no usable character, falls back to `playlist` |
| `Backup.ParseFormat` | spotify_playlist_backup.py:232-243 | the result is both formats, `json` alone or `m3u` alone; a single format exactly when the value is `json` or `m3u` in any case |
| `Backup.ParseFormatIgnoresCase` | spotify_playlist_backup.py:236 | values equal up to ASCII case select the same formats |
| `Backup.ResolveIdentifier` | spotify_playlist_backup.py:246-261 | a mapping keeps exactly its truthy `id` and `name`; a string is resolved by its text; anything else gives nothing |
| `Backup.ResolveText` | spotify_playlist_backup.py:250-259 | a string gives exactly one of an ID and a name; URI, URL and bare-ID forms give IDs; a name is the stripped text when none of those apply |
| `Backup.BareIdIsPlain` | spotify_playlist_backup.py:252-257 | a 22-character alphanumeric ID is neither a URI nor a URL, so checking it last loses nothing |
| `Backup.UriIdIsLastField` | spotify_playlist_backup.py:253 | the last ':' field of `spotify:playlist:<id>` is the ID |
| `Backup.ResolveSpellingsAgree` | spotify_playlist_backup.py:250-258 | the bare ID, the `spotify:playlist:` URI and the `https://open.spotify.com/playlist/` URL with a query all resolve to the same ID |
| `Backup.LastWithId` | spotify_playlist_backup.py:265 | the ID lookup finds a playlist exactly when one carries that ID |
| `Backup.LastWithIdIsLast` | spotify_playlist_backup.py:265 | when several share an ID, the last one in the listing wins |
| `Backup.NameMatches` | spotify_playlist_backup.py:266-269 | the playlists whose case-folded name (empty when missing) is the key |
| `Backup.FindPlaylist` | spotify_playlist_backup.py:273-291 | ID before name: a truthy ID finds the playlist with it; otherwise a truthy name finds one exactly when one case-folded match exists; an entry with neither finds nothing |
| `Backup.FindByNameIffUnique` | spotify_playlist_backup.py:281-289 | lookup by name succeeds exactly when one position of the listing carries the folded name |
| `Backup.ResolveIds` | spotify_playlist_backup.py:293-300 | every entry that finds a playlist contributes that playlist's ID, every ID comes from such an entry and belongs to a fetched playlist, and there is at most one ID per entry |
| `Backup.ResolveIdsAppend` | spotify_playlist_backup.py:293-300 | the IDs of a list of entries are those of its first part followed by those of the rest, in entry order |
| `Backup.ResolveIdsOne` | spotify_playlist_backup.py:295-299 | one entry gives the ID of the playlist it finds, or nothing |
| `Backup.ExportAll` | spotify_playlist_backup.py:304-315 | the `all` mode exports exactly the fetched playlists whose ID is not excluded, each with the default formats |
| `Backup.ExportAllAppend` | spotify_playlist_backup.py:306-315 | the `all` mode goes playlist by playlist: exports of a listing are those of its first part followed by those of the rest |
| `Backup.ExportAllOne` | spotify_playlist_backup.py:306-315 | a playlist in front gives one export with the default formats, in front, unless its ID is excluded |
| `Backup.ExportAllKeepsOrder` | spotify_playlist_backup.py:306-315 | the special case where nothing is excluded: every fetched playlist is exported, in listing order |
| `Backup.EntryFormats` | spotify_playlist_backup.py:319-324 | a mapping's truthy `format` decides the formats; otherwise the default does |
| `Backup.SelectedDetailsAreResolved` | spotify_playlist_backup.py:318-321 | copying a mapping's name into its resolved details never changes them |
| `Backup.ExportSelected` | spotify_playlist_backup.py:316-333 | the `selected` mode exports at most one fetched playlist per entry |
| `Backup.ExportSelectedAppend` | spotify_playlist_backup.py:317-333 | the `selected` mode goes entry by entry: exports of a list of entries are those of its first part followed by those of the rest |
| `Backup.ExportSelectedOne` | spotify_playlist_backup.py:317-333 | one entry gives nothing when no playlist is found, otherwise one export of the found playlist with the entry's formats |
| `Backup.ExportSelectedAllFound` | spotify_playlist_backup.py:317-333 | when every entry is found, export `k` is entry `k`'s playlist with that entry's formats |
| `Backup.DeterminePlaylistExports` | spotify_playlist_backup.py:264-335 | every export is a fetched playlist with valid formats; `all` is the `all` export of the listing minus the IDs resolved from the exclude list, with the default formats; `selected` is the export of the selected entries |
| `Backup.NormalizeTracks` | spotify_playlist_backup.py:156-203 | one record per item at its index; an item without a track is the unavailable placeholder; otherwise the track's fields are copied, a missing album becomes one with no ID and no name, and the record is available |
| `Backup.DurationSeconds` | spotify_playlist_backup.py:216-217 | -1 for a missing or zero length; otherwise the milliseconds truncated toward zero to whole seconds |
| `Backup.TrackLabel` | spotify_playlist_backup.py:214-218 | with a non-empty join of the artist names the label is that join, " - " and the title; with an empty join it is the title (`Unknown Title` when missing) |
| `Backup.LabelSplitsBack` | spotify_playlist_backup.py:218 | the splitter's parser reads "artists - title" back as those artists and that title |
| `Backup.TrackLocation` | spotify_playlist_backup.py:221-226 | the location falls back from the web URL to the URI to the title, and is never empty |
| `Backup.WriteM3uLines` | spotify_playlist_backup.py:211-226 | `#EXTM3U`, then for each track in order its `#EXTINF` line and its location line |
| `Backup.WriteM3uText` | spotify_playlist_backup.py:229 | `'\n'.join(lines) + '\n'` is every line followed by its own newline |
| `Backup.BackupFileIsBatch` | spotify_playlist_backup.py:211-226 | the backup's M3U lines are the splitter's batch lines for the same songs |
| `Backup.BackupM3uReadsBack` | spotify_playlist_backup.py:211-229 | parsing the written file gives one song per track with its location, duration and label |
| `Adder.AlnumRun` | spotify_playlist_adder.py:102 | `[a-zA-Z0-9]+` takes the longest alphanumeric prefix |
| `Adder.FindTrackId` | spotify_playlist_adder.py:102 | `re.search` finds the leftmost `track/` followed by an alphanumeric character |
| `Adder.ExtractTrackId` | spotify_playlist_adder.py:102-105 | an ID exactly when some `track/` is followed by an alphanumeric character; the ID is non-empty and alphanumeric |
| `Adder.ExtractTrackIdIsLeftmost` | spotify_playlist_adder.py:102-105 | the ID is the whole alphanumeric run after the leftmost such `track/` |
| `Adder.TrackUrlGivesId` | spotify_playlist_adder.py:101-105 | a web-player track link, with or without a query, gives back its ID |
| `Adder.TrackUrlIsSpotifyUrl` | spotify_playlist_adder.py:88-89 | a web-player track link has host `open.spotify.com` and a path containing `track` |
| `Adder.LocalPathIsNotSpotifyUrl` | spotify_playlist_adder.py:88-89 | a path without `//` is never taken for a Spotify link |
| `Adder.Basename` | spotify_playlist_adder.py:127 | the text after the last '/', or the whole path without one |
| `Adder.Stem` | spotify_playlist_adder.py:128 | the result is a prefix of the name: the whole name, or the part before its last '.' when that part is not all dots |
| `Adder.StemKeepsWhole` | spotify_playlist_adder.py:128 | the name stays whole exactly when every '.' with no '.' after it has only dots before it (vacuously so without a '.') |
| `Adder.ExtractSearchQuery` | spotify_playlist_adder.py:107-139 | known artist and title give `track:{title} artist:{artist}` whatever the path; otherwise the query is empty exactly when the path or its stem is |
| `Adder.QueryFromFileName` | spotify_playlist_adder.py:127-136 | `dir/artist - title.ext` gives the query for that artist and title |
| `Adder.QueryIsBareStem` | spotify_playlist_adder.py:138-139 | a stem without " - " is the query as it stands |
| `Adder.LinkId` | spotify_playlist_adder.py:181-186 | an ID is taken from the path exactly when it is a Spotify track link the pattern matches |
| `Adder.ResolveTrack` | spotify_playlist_adder.py:178-217 | a link's ID is used without searching; otherwise an ID comes exactly from a non-empty query whose search found a track |
| `Adder.TrackLinkNeedsNoSearch` | spotify_playlist_adder.py:181-186 | a web-player track link resolves to its own ID whatever the search would answer |
| `Adder.FailedSongs` | spotify_playlist_adder.py:189-217 | every failed song is one that resolved to nothing |
| `Adder.FailedAreFromBatch` | spotify_playlist_adder.py:169-217 | every failed song comes from the batch |
| `Adder.EveryTrackAccountedFor` | spotify_playlist_adder.py:169-217 | found IDs and failures together number the tracks |
| `Adder.SortingSplits` | spotify_playlist_adder.py:169-217 | sorting two runs of tracks in a row is sorting their concatenation: both outputs keep input order |
| `Adder.AllResolve` | spotify_playlist_adder.py:169-217 | when every track resolves there are no failures and one ID per track |
| `Adder.NoneResolve` | spotify_playlist_adder.py:169-217 | when no track resolves every track fails, in order, and no ID is found |
| `Adder.SortBatch` | spotify_playlist_adder.py:169-217 | the loop's IDs and failures are the reference split, and one log line with the path is appended per failure |
| `Adder.ProcessBatch` | spotify_playlist_adder.py:141-234 | every parsed track is either found or failed; the IDs go out in order in chunks of at most 100; `successful` is the total of the accepted chunks and the reported failure count is the number of failures |
| `Adder.FailedEntryLines` | spotify_playlist_adder.py:258-271 | an `#EXTINF` line exactly when there is metadata or both artist and title, with "artist - title" made up when metadata is missing; the path line always |
| `Adder.FailedM3uLines` | spotify_playlist_adder.py:256-271 | the failed-tracks file starts with `#EXTM3U` and has at least one line per track |
| `Adder.FailedEntryIsSongLines` | spotify_playlist_adder.py:258-271 | for a parsed song the failed-tracks entry is what `save_batches` writes for it |
| `Adder.FailedFileMatchesBatch` | spotify_playlist_adder.py:256-271 | the failed-tracks file of parsed songs is a batch file of those songs |
| `Adder.FailedFileReadsBack` | spotify_playlist_adder.py:240-271 | parsing the failed-tracks file of a batch gives back its failed songs, each re-read |

## Left out

- Logging, `load_dotenv` and environment reads, and OAuth client construction. These are side
  effects and foreign libraries.
- Every Spotify call. Search answers are the `search` parameter. The success of each add or
  remove call is the `accepted` set of chunk indices. Fetched playlists and items are input
  sequences.
- The pagination loops driven by `next`. These are remote responses.
- `time.sleep` and the `count % rate_limit` throttle, which only affect timing.
- File and directory I/O:
  - opening, writing and flushing files, `os.makedirs`, `abspath` and `glob`;
  - the `{name}_batches` output directory;
  - `json.dump`, the YAML reading and validation in `load_config`, and the `datetime` timestamp.
- `Backup.ConfigEntry`: the `id`, `name` and `format` values of a configuration mapping, and
  `default_format`, are modelled as strings. YAML can give an int or a bool instead (`name: 1984`,
  `name: yes`). A truthy non-string `name` raises `AttributeError` at `casefold()`
  (spotify_playlist_backup.py:282) in both modes. A truthy non-string `format` or `default_format`
  raises at `value.lower()` (:236). A non-string `id` simply finds no playlist. Since
  `determine_playlist_exports` is called outside any `try` (:455), these errors abort the whole
  backup, a path the model does not have.

  The writers are modelled as the lines or text they produce. The adder's append-mode log is
  modelled as the list of lines appended for one batch.
- The `main` functions and the per-playlist backup orchestration (`write_metadata_files`, liked
  songs). The only exception is the playlist-URL trimming of the deduplicator's `main`, which is
  modelled.
- Unicode text handling:
  - `casefold` is the parameter `fold`;
  - `lower()` lower-cases ASCII letters only;
  - `strip()` uses Python's whitespace set. `int()` trims the same set except U+001C to U+001F,
    which it does not skip and cannot parse, so any of them makes it raise;
  - `int()` accepts ASCII digits with single `_` separators, not other Unicode digits, and has
    no length limit: Python refuses more than 4300 digits with a `ValueError`, which discards the
    `#EXTINF` record (m3u_splitter.py:89-91) where the model keeps it;
  - the universal-newline translation of `\r` when reading is left out.
- `urlparse`: only the scheme, host, path, parameter, query and fragment splitting that
  `is_spotify_url` depends on. Bracketed IPv6 hosts and the NFKC host check are not modelled.
  The `ValueError` these raise is thrown at spotify_playlist_adder.py:181, outside the per-track
  `try` that starts at :189, so it aborts the whole batch. The model instead puts every track in
  exactly one of the found IDs and the failures.
- The deduplicator never binds a module-level `logger`: `main` binds a local one at
  spotify_playlist_deduplicator.py:196. As written, the `logger` calls in `setup_spotify_client`
  (:54, :60), `find_duplicates` (:131) and `remove_duplicates` (:148, :162, :174, :181) raise
  `NameError`. The model assumes a bound logger, as the other three scripts have.
- `Backup.DurationSeconds`: models `int(duration_ms / 1000)` as truncating integer division.
  This equals the float result for integer milliseconds below 2^53; float rounding beyond that is
  not modelled.
- `Backup.TrackLabel`: requires every artist to have a name. The source's `', '.join` raises on
  a missing name, and the model does not model that exception.
- `Backup.NormalizeTracks`: an album that is JSON `null` makes the source raise at
  `track.get('album', {}).get('id')`. The model treats it like a missing album, with no ID or
  name. A playlist item that is itself `null` raises `AttributeError` at `item.get('track')`
  (spotify_playlist_backup.py:160); the model gives it the unavailable placeholder.
- `Deduplicator.FindDuplicates`: reads a track's missing or `null` `artists` as no artists and
  a missing `id` or `name` as `None`. The source raises instead:
  - a `null` or missing `artists` raises at spotify_playlist_deduplicator.py:128, or at :121 on a
    repeat;
  - the debug message at :121 is built even when not logged, so its `', '.join` raises
    `TypeError` on a repeated track with an artist whose name is `None`;
  - a missing `id` or `name` key raises `KeyError` at :117, :121 or :128.
- `Text.Strip`: its own contract does not fix which slice is kept. `Text.StripIsSlice` states
  that the kept slice is what remains after dropping whitespace from both ends.
- `Backup.DropUnsafe`: its own contract states only the character class of the result. Which
  characters remain, and in what order, is stated by `Backup.DropUnsafeAppend` and
  `Backup.DropUnsafeOne`.
- `Backup.CollapseGaps`: its own contract states only that no gap character remains. What
  replaces what is stated by `Backup.CollapseGapsKeeps` and `Backup.CollapseGapsRun`.
- `Backup.ResolveText`: in the URI and URL cases it states only that the ID holds no ':' or
  '?'. The exact ID is stated for the canonical spellings by `Backup.UriIdIsLastField` and
  `Backup.ResolveSpellingsAgree`.
- `Deduplicator.PlaylistIdFromArgument`: states only what the trimmed ID lacks. Its position in
  the argument is stated by `Deduplicator.PlaylistIdIsBetween`.
- `Deduplicator.RemoveDuplicates`: a listed position whose item is `None` makes the source raise
  at `tracks[pos].get('track')`. The model skips that position like any item without a track.
  `find_duplicates` never lists such a position.
- `M3u.Step`: for a location line it states only the count of songs. The song itself is stated
  by `M3u.PathLineAppendsSong`.
- `Adder.ExtractSearchQuery`: states only when the file-name query is empty. Its content is
  stated by `Adder.QueryFromFileName` and `Adder.QueryIsBareStem`.
- `split_into_batches` and `process_m3u_batch` default arguments, and the `skip_failures`
  parameter. The source never reads `skip_failures`.
