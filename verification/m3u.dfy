/** The extended-M3U playlist format of the splitter script: the line parser, batch
    splitting, and the text written for each batch file. */
module M3u {
  import opened Common
  import opened Text
  import opened Batching

  /** One playlist entry: location, title and artist split from the metadata, the
      `#EXTINF` duration in seconds, and the raw metadata text after the comma. */
  datatype Song = Song(path: string, title: string, artist: string, duration: int, metadata: string)

  const Header: string := "#EXTM3U"
  const ExtinfTag: string := "#EXTINF:"

  /** The text between an entry's artist and its title. */
  const ArtistTitleSeparator: string := " - "

  /** Split "artist - title" at the first " - ", stripping both halves; without a
      separator the artist is empty and the title is the whole text. Returns (artist, title). */
  function SplitArtistTitle(titleArtist: string): (r: (string, string))
    ensures !Contains(titleArtist, ArtistTitleSeparator) ==> r == ("", titleArtist)
    ensures Contains(titleArtist, ArtistTitleSeparator) ==>
      var k := IndexOf(titleArtist, ArtistTitleSeparator).value;
      && k + |ArtistTitleSeparator| <= |titleArtist|
      && r == (Strip(titleArtist[..k]), Strip(titleArtist[k + |ArtistTitleSeparator|..]))
  {
    match SplitFirst(titleArtist, ArtistTitleSeparator)
    case None => ("", titleArtist)
    case Some((a, t)) =>
      var k := IndexOf(titleArtist, ArtistTitleSeparator).value;
      assert k == |a|;
      assert titleArtist[..k] == a && titleArtist[k + |ArtistTitleSeparator|..] == t;
      (Strip(a), Strip(t))
  }

  /** No separator can begin inside an artist that ends in a letter or digit. */
  lemma NoSeparatorStraddle(artist: string, title: string, k: int)
    requires artist != "" && IsAlnum(artist[|artist| - 1])
    requires |artist| - |ArtistTitleSeparator| < k < |artist|
    ensures !OccursAt(artist + ArtistTitleSeparator + title, ArtistTitleSeparator, k)
  {
    var s := artist + ArtistTitleSeparator + title;
    var last := |artist| - 1;
    assert s[last] == artist[last];
    if 0 <= k && k + 3 <= |s| {
      SliceIndex(s, k, k + 3, last - k);
      assert ArtistTitleSeparator[0] == ' ' && ArtistTitleSeparator[1] == '-';
    }
  }

  /** The first separator of "artist - title" is the one right after the artist, when the
      artist holds none and ends in a letter or digit. */
  lemma SplitAfterArtist(artist: string, title: string)
    requires artist != "" && IsAlnum(artist[|artist| - 1])
    requires !Contains(artist, ArtistTitleSeparator)
    ensures SplitFirst(artist + ArtistTitleSeparator + title, ArtistTitleSeparator) == Some((artist, title))
  {
    var s := artist + ArtistTitleSeparator + title;
    forall k | |artist| - |ArtistTitleSeparator| < k < |artist|
      ensures !OccursAt(s, ArtistTitleSeparator, k)
    {
      NoSeparatorStraddle(artist, title, k);
    }
    SplitFirstAt(s, ArtistTitleSeparator, artist, title);
  }

  /** Joining an artist and a title with the separator and splitting again gives both
      back, when the artist starts and ends with a letter or digit and holds no separator,
      and the title is already stripped. */
  lemma ArtistTitleRoundTrip(artist: string, title: string)
    requires artist != "" && IsAlnum(artist[0]) && IsAlnum(artist[|artist| - 1])
    requires !Contains(artist, ArtistTitleSeparator)
    requires Strip(title) == title
    ensures SplitArtistTitle(artist + ArtistTitleSeparator + title) == (artist, title)
  {
    SplitAfterArtist(artist, title);
    assert Strip(artist) == artist by {
      AlnumIsNotSpace(artist[0]);
      AlnumIsNotSpace(artist[|artist| - 1]);
      StripNoop(artist);
    }
  }

  /** The fields of an `#EXTINF:` line: the duration text before the first comma, and
      everything after that comma (empty when there is no comma). */
  function ExtinfFields(line: string): (r: (string, string))
    requires StartsWith(line, ExtinfTag)
    ensures ',' !in r.0
    ensures line == ExtinfTag + r.0 + "," + r.1 || (r.1 == "" && line == ExtinfTag + r.0)
  {
    var body := line[|ExtinfTag|..];
    assert line == ExtinfTag + body;
    match SplitFirst(body, ",")
    case None =>
      ContainsChar(body, ',');
      (body, "")
    case Some((d, m)) =>
      ContainsChar(d, ',');
      (d, m)
  }

  /** An `#EXTINF:` line becomes a pending song with no path yet; a duration that
      `int()` rejects discards it. */
  function ParseExtinf(line: string): (r: Option<Song>)
    requires StartsWith(line, ExtinfTag)
    ensures r.Some? <==> ParseInt(ExtinfFields(line).0).Some?
    ensures r.Some? ==> && r.value.path == ""
                        && r.value.duration == ParseInt(ExtinfFields(line).0).value
                        && r.value.metadata == ExtinfFields(line).1
                        && (r.value.artist, r.value.title) == SplitArtistTitle(r.value.metadata)
  {
    var (durationText, titleArtist) := ExtinfFields(line);
    match ParseInt(durationText)
    case None => None
    case Some(d) =>
      var (artist, title) := SplitArtistTitle(titleArtist);
      Some(Song("", title, artist, d, titleArtist))
  }

  /** The parser's loop state: songs emitted so far and the `#EXTINF` record awaiting its path. */
  datatype ParserState = ParserState(songs: seq<Song>, pending: Option<Song>)

  const Start: ParserState := ParserState([], None)

  /** A stripped line that the parser skips: blank, the header, or any `#` line that is
      not `#EXTINF:`. */
  predicate IsIgnored(line: string) {
    line == "" || (StartsWith(line, "#") && !StartsWith(line, ExtinfTag))
  }

  /** A stripped line that names a location. */
  predicate IsPathLine(line: string) {
    line != "" && !StartsWith(line, "#")
  }

  /** One iteration of the parser's loop over a raw line. */
  function Step(st: ParserState, raw: string): (r: ParserState)
    ensures IsIgnored(Strip(raw)) ==> r == st
    ensures StartsWith(Strip(raw), ExtinfTag) ==> r == ParserState(st.songs, ParseExtinf(Strip(raw)))
    ensures IsPathLine(Strip(raw)) ==> r.pending == None && |r.songs| == |st.songs| + 1
    ensures st.songs <= r.songs && |r.songs| <= |st.songs| + 1
  {
    var line := Strip(raw);
    TagsAreComments(line);
    if line == "" then st
    else if line == Header then st
    else if StartsWith(line, ExtinfTag) then ParserState(st.songs, ParseExtinf(line))
    else if !StartsWith(line, "#") && st.pending.Some? then
      ParserState(st.songs + [st.pending.value.(path := line)], None)
    else if StartsWith(line, "#") then st
    else ParserState(st.songs + [Song(line, "", "", 0, "")], None)
  }

  /** The header and every `#EXTINF` line are comment lines. */
  lemma TagsAreComments(line: string)
    ensures line == Header ==> StartsWith(line, "#") && !StartsWith(line, ExtinfTag)
    ensures StartsWith(line, ExtinfTag) ==> StartsWith(line, "#")
  {
    if StartsWith(line, ExtinfTag) {
      assert line[..1] == line[..|ExtinfTag|][..1];
    }
    if line == Header {
      assert line[..1] == "#";
      assert line[6] != ExtinfTag[6];
    }
  }

  /** The loop over the file's lines, from a given state. Songs are only ever appended,
      at most one per line: earlier output is never revised. */
  function Run(st: ParserState, lines: seq<string>): (r: ParserState)
    ensures st.songs <= r.songs && |r.songs| <= |st.songs| + |lines|
    decreases |lines|
  {
    if |lines| == 0 then st else Run(Step(st, lines[0]), lines[1..])
  }

  /** `parse_m3u` over the file's lines; a record still pending at the end is dropped. */
  function ParseM3u(lines: seq<string>): (r: seq<Song>)
    ensures |r| <= |lines|
  {
    Run(Start, lines).songs
  }

  /** `parse_m3u` over the file's text: Python iterates the text line by line, which is
      splitting at newlines (the empty field after a final newline is a blank line). */
  function ParseM3uText(text: string): (r: seq<Song>)
    ensures |r| <= |SplitAll(text, "\n")|
  {
    ParseM3u(SplitAll(text, "\n"))
  }

  lemma {:induction false} RunConcat(st: ParserState, a: seq<string>, b: seq<string>)
    ensures Run(st, a + b) == Run(Run(st, a), b)
    decreases |a|
  {
    if |a| > 0 {
      assert (a + b)[0] == a[0];
      assert (a + b)[1..] == a[1..] + b;
      RunConcat(Step(st, a[0]), a[1..], b);
    } else {
      assert a + b == b;
    }
  }

  /** A blank, header or other non-`#EXTINF` comment line anywhere in the file changes
      nothing, and in particular keeps a pending `#EXTINF` record. */
  lemma IgnoredLineChangesNothing(before: seq<string>, line: string, after: seq<string>)
    requires IsIgnored(Strip(line))
    ensures ParseM3u(before + [line] + after) == ParseM3u(before + after)
  {
    AppendAssoc(before, line, after);
    RunConcat(Start, before, [line] + after);
    RunConcat(Start, before, after);
    RunStepFirst(Run(Start, before), line, after);
  }

  /** A second `#EXTINF` line replaces one that has not yet met its path. */
  lemma ExtinfReplacesPending(before: seq<string>, e1: string, e2: string, after: seq<string>)
    requires StartsWith(Strip(e1), ExtinfTag) && StartsWith(Strip(e2), ExtinfTag)
    ensures ParseM3u(before + [e1, e2] + after) == ParseM3u(before + [e2] + after)
  {
    RunConcat(Start, before + [e1, e2], after);
    RunConcat(Start, before + [e2], after);
    RunConcat(Start, before, [e1, e2]);
    RunConcat(Start, before, [e2]);
    var mid := Run(Start, before);
    RunPair(mid, e1, e2);
    RunSingle(mid, e2);
    ExtinfStepOverwrites(mid, e1, e2);
  }

  lemma RunSingle(st: ParserState, line: string)
    ensures Run(st, [line]) == Step(st, line)
  {
    assert [line][1..] == [];
  }

  lemma RunPair(st: ParserState, l1: string, l2: string)
    ensures Run(st, [l1, l2]) == Step(Step(st, l1), l2)
  {
    assert [l1, l2][1..] == [l2];
    RunSingle(Step(st, l1), l2);
  }

  lemma RunStepFirst(st: ParserState, line: string, rest: seq<string>)
    ensures Run(st, [line] + rest) == Run(Step(st, line), rest)
  {
    assert ([line] + rest)[1..] == rest;
  }

  lemma ExtinfStepOverwrites(st: ParserState, e1: string, e2: string)
    requires StartsWith(Strip(e1), ExtinfTag) && StartsWith(Strip(e2), ExtinfTag)
    ensures Step(Step(st, e1), e2) == Step(st, e2)
  {
    var st1 := Step(st, e1);
    assert st1.songs == st.songs;
  }

  /** A record still pending at end of file produces no song. */
  lemma TrailingExtinfDropped(lines: seq<string>, e: string)
    requires StartsWith(Strip(e), ExtinfTag)
    ensures ParseM3u(lines + [e]) == ParseM3u(lines)
  {
    RunConcat(Start, lines, [e]);
  }

  /** The record an `#EXTINF` line leaves pending after `lines` have been read. */
  function PendingAfter(lines: seq<string>): Option<Song>
  {
    Run(Start, lines).pending
  }

  /** A location line consumes the pending record as that song's path; with nothing
      pending it yields a song with empty title, artist and metadata and duration 0. */
  lemma PathLineAppendsSong(lines: seq<string>, p: string)
    requires IsPathLine(Strip(p))
    ensures ParseM3u(lines + [p]) == ParseM3u(lines) + [
      match PendingAfter(lines)
      case Some(s) => s.(path := Strip(p))
      case None => Song(Strip(p), "", "", 0, "")]
    ensures PendingAfter(lines + [p]) == None
  {
    RunConcat(Start, lines, [p]);
    var st := Run(Start, lines);
    RunSingle(st, p);
    StepOnPath(st, p);
  }

  /** The song a location line completes: the pending record with this path, or a bare
      song with only the path. */
  function PathSong(st: ParserState, line: string): Song
  {
    if st.pending.Some? then st.pending.value.(path := line) else Song(line, "", "", 0, "")
  }

  lemma StepOnPath(st: ParserState, raw: string)
    requires IsPathLine(Strip(raw))
    ensures Step(st, raw) == ParserState(st.songs + [PathSong(st, Strip(raw))], None)
  {
  }

  /** A blank last line (the field after the file's final newline) changes nothing. */
  lemma TrailingBlankIgnored(lines: seq<string>)
    ensures ParseM3u(lines + [""]) == ParseM3u(lines)
  {
    StripNoop("");
    IgnoredLineChangesNothing(lines, "", []);
    AppendNil(lines + [""]);
    AppendNil(lines);
  }

  // ---------------------------------------------------------------------------
  // Writing batch files

  /** `#EXTINF:{duration},{metadata}` */
  function ExtinfLine(duration: int, metadata: string): string
  {
    ExtinfTag + IntToString(duration) + "," + metadata
  }

  /** The lines one song contributes to a batch file: an `#EXTINF` line only when it has
      metadata, then its path. */
  function SongLines(s: Song): seq<string>
  {
    (if s.metadata != "" then [ExtinfLine(s.duration, s.metadata)] else []) + [s.path]
  }

  function AllSongLines(songs: seq<Song>): seq<string>
  {
    if |songs| == 0 then [] else SongLines(songs[0]) + AllSongLines(songs[1..])
  }

  /** The lines `save_batches` writes for one batch. */
  function BatchLines(batch: seq<Song>): (r: seq<string>)
    ensures |r| >= 1 + |batch| && r[0] == Header
  {
    AllSongLinesLength(batch);
    [Header] + AllSongLines(batch)
  }

  lemma {:induction false} AllSongLinesLength(songs: seq<Song>)
    ensures |AllSongLines(songs)| >= |songs|
  {
    if |songs| > 0 {
      AllSongLinesLength(songs[1..]);
    }
  }

  /** `{base}_{i+1}.m3u`, the name of batch file `i`. */
  function BatchFileName(base: string, i: nat): string
  {
    base + "_" + NatToString(i + 1) + ".m3u"
  }

  datatype BatchFile = BatchFile(name: string, lines: seq<string>)

  /** The files `save_batches` writes: batch `i` under `{base}_{i+1}.m3u`, with no two
      batches sharing a name. */
  function SaveBatches(batches: seq<seq<Song>>, base: string): (r: seq<BatchFile>)
    ensures |r| == |batches|
    ensures forall i :: 0 <= i < |r| ==> r[i].lines == BatchLines(batches[i])
    ensures forall i :: 0 <= i < |r| ==> r[i].name == base + "_" + NatToString(i + 1) + ".m3u"
    ensures forall i, j :: 0 <= i < j < |r| ==> r[i].name != r[j].name
  {
    var r := seq(|batches|, i requires 0 <= i < |batches| => BatchFile(BatchFileName(base, i), BatchLines(batches[i])));
    assert forall i, j :: 0 <= i < j < |r| ==> r[i].name != r[j].name by {
      forall i, j | 0 <= i < j < |r| ensures r[i].name != r[j].name {
        BatchFileNamesDistinct(base, i, j);
      }
    }
    r
  }

  lemma BatchFileNamesDistinct(base: string, i: nat, j: nat)
    requires i != j
    ensures BatchFileName(base, i) != BatchFileName(base, j)
  {
    var a := NatToString(i + 1);
    var b := NatToString(j + 1);
    if BatchFileName(base, i) == BatchFileName(base, j) {
      var n := |base| + 1;
      assert |a| == |b|;
      assert BatchFileName(base, i)[n..n + |a|] == a;
      assert BatchFileName(base, j)[n..n + |b|] == b;
      NatToStringInjective(i + 1, j + 1);
    }
  }

  /** `split_into_batches`: a zero size makes `range` raise, a negative size gives no
      batches at all, and a positive size gives the chunks of the list. */
  function SplitIntoBatches<T>(songs: seq<T>, batchSize: int): (r: Result<seq<seq<T>>>)
    ensures batchSize == 0 <==> r.Failure?
    ensures batchSize < 0 ==> r == Success([])
    ensures batchSize > 0 ==> r == Success(Chunks(songs, batchSize))
  {
    if batchSize == 0 then Failure("range() arg 3 must not be zero")
    else if batchSize < 0 then Success([])
    else Success(Chunks(songs, batchSize))
  }

  /** For a positive size the batches concatenate to the input in order, each holds between
      one and `batchSize` songs, all but the last are full, and there are ceil(n / size) of
      them, so an empty playlist gives no batches. */
  lemma SplitIntoBatchesShape<T>(songs: seq<T>, batchSize: int)
    requires batchSize > 0
    ensures SplitIntoBatches(songs, batchSize).Success?
    ensures var bs := SplitIntoBatches(songs, batchSize).value;
      && Flatten(bs) == songs
      && (forall k :: 0 <= k < |bs| ==> 0 < |bs[k]| <= batchSize)
      && (forall k :: 0 <= k < |bs| - 1 ==> |bs[k]| == batchSize)
      && |bs| * batchSize >= |songs| && (|bs| == 0 || (|bs| - 1) * batchSize < |songs|)
      && (|songs| == 0 <==> |bs| == 0)
  {
    ChunksShape(songs, batchSize);
    ChunkCountIsCeiling(|songs|, batchSize);
  }

  // ---------------------------------------------------------------------------
  // Reading written batch files back

  /** A path the parser reads back verbatim: non-empty, not a `#` line, and unchanged
      by `strip()`. */
  predicate SafePath(p: string) {
    p != "" && p[0] != '#' && !IsSpace(p[0]) && !IsSpace(p[|p| - 1])
  }

  /** Metadata that survives the parser's `strip()` of its line. */
  predicate SafeMetadata(m: string) {
    m == "" || !IsSpace(m[|m| - 1])
  }

  predicate WritableSong(s: Song) {
    SafePath(s.path) && SafeMetadata(s.metadata)
  }

  predicate NoNewline(s: string) { '\n' !in s }

  /** Title and artist are the ones the parser derives from the metadata. */
  predicate ParserShaped(s: Song) {
    (s.artist, s.title) == SplitArtistTitle(s.metadata)
  }

  /** The song the parser produces from the lines written for `s`: without metadata no
      `#EXTINF` line is written, so duration, title and artist are lost. */
  function Reread(s: Song): Song
  {
    if s.metadata == "" then Song(s.path, "", "", 0, "")
    else
      var (a, t) := SplitArtistTitle(s.metadata);
      Song(s.path, t, a, s.duration, s.metadata)
  }

  function RereadAll(songs: seq<Song>): (r: seq<Song>)
    ensures |r| == |songs|
    ensures forall i :: 0 <= i < |songs| ==> r[i] == Reread(songs[i])
  {
    seq(|songs|, i requires 0 <= i < |songs| => Reread(songs[i]))
  }

  /** Re-reading keeps path, duration and metadata whenever the metadata is non-empty or the
      duration is 0, and gives back a parser-produced song unchanged. */
  lemma RereadPreserves(s: Song)
    requires s.metadata != "" || s.duration == 0
    ensures Reread(s).path == s.path
    ensures Reread(s).duration == s.duration
    ensures Reread(s).metadata == s.metadata
    ensures ParserShaped(s) ==> Reread(s) == s
  {
  }

  /** Reading the fields of a written `#EXTINF` line gives back the printed duration and
      the metadata, whatever the metadata holds. */
  lemma ExtinfLineFields(d: int, m: string)
    ensures StartsWith(ExtinfLine(d, m), ExtinfTag)
    ensures ExtinfFields(ExtinfLine(d, m)) == (IntToString(d), m)
  {
    var line := ExtinfLine(d, m);
    var dt := IntToString(d);
    assert line[..|ExtinfTag|] == ExtinfTag;
    var body := line[|ExtinfTag|..];
    assert body == dt + "," + m;
    ContainsChar(dt, ',');
    SplitFirstUnique(body, ",", dt, m);
  }

  /** The `#EXTINF` line written for non-empty, safe metadata parses back to the same
      duration and metadata. */
  lemma ExtinfLineParses(d: int, m: string)
    requires m != "" && SafeMetadata(m)
    ensures var line := ExtinfLine(d, m);
      && Strip(line) == line
      && StartsWith(line, ExtinfTag)
      && ParseExtinf(line) == Some(Song("", SplitArtistTitle(m).1, SplitArtistTitle(m).0, d, m))
  {
    var line := ExtinfLine(d, m);
    var dt := IntToString(d);
    assert line[0] == '#';
    assert line[|line| - 1] == m[|m| - 1];
    StripNoop(line);
    ExtinfLineFields(d, m);
    ParseIntToString(d);
  }

  lemma SongLinesRoundTrip(acc: seq<Song>, s: Song)
    requires WritableSong(s)
    ensures Run(ParserState(acc, None), SongLines(s)) == ParserState(acc + [Reread(s)], None)
  {
    if s.metadata != "" {
      SongWithMetadataRoundTrip(acc, s);
    } else {
      SongWithoutMetadataRoundTrip(acc, s);
    }
  }

  lemma PathLineStep(st: ParserState, p: string)
    requires SafePath(p)
    ensures Run(st, [p]) == Step(st, p)
    ensures Strip(p) == p && IsPathLine(p)
  {
    StripNoop(p);
    RunStepFirst(st, p, []);
    AppendNil([p]);
  }

  lemma SongWithoutMetadataRoundTrip(acc: seq<Song>, s: Song)
    requires WritableSong(s) && s.metadata == ""
    ensures Run(ParserState(acc, None), SongLines(s)) == ParserState(acc + [Reread(s)], None)
  {
    var st := ParserState(acc, None);
    assert SongLines(s) == [s.path] by {
      AppendNil2([s.path]);
    }
    PathLineStep(st, s.path);
  }

  lemma SongWithMetadataRoundTrip(acc: seq<Song>, s: Song)
    requires WritableSong(s) && s.metadata != ""
    ensures Run(ParserState(acc, None), SongLines(s)) == ParserState(acc + [Reread(s)], None)
  {
    var st := ParserState(acc, None);
    var e := ExtinfLine(s.duration, s.metadata);
    ExtinfLineParses(s.duration, s.metadata);
    RunStepFirst(st, e, [s.path]);
    var st1 := Step(st, e);
    assert st1.pending.Some? && st1.pending.value.path == "";
    PathLineStep(st1, s.path);
  }

  lemma {:induction false} AllSongLinesRoundTrip(acc: seq<Song>, songs: seq<Song>)
    requires forall k :: 0 <= k < |songs| ==> WritableSong(songs[k])
    ensures Run(ParserState(acc, None), AllSongLines(songs)) == ParserState(acc + RereadAll(songs), None)
    decreases |songs|
  {
    if |songs| == 0 {
      assert acc + RereadAll(songs) == acc;
    } else {
      var st := ParserState(acc, None);
      var s0 := songs[0];
      var rest := songs[1..];
      var acc' := acc + [Reread(s0)];
      assert AllSongLines(songs) == SongLines(s0) + AllSongLines(rest);
      RunConcat(st, SongLines(s0), AllSongLines(rest));
      SongLinesRoundTrip(acc, s0);
      assert Run(st, SongLines(s0)) == ParserState(acc', None);
      assert forall k :: 0 <= k < |rest| ==> WritableSong(rest[k]) by {
        forall k | 0 <= k < |rest| ensures WritableSong(rest[k]) {
          assert rest[k] == songs[k + 1];
        }
      }
      AllSongLinesRoundTrip(acc', rest);
      var tail := RereadAll(rest);
      AppendAssoc(acc, Reread(s0), tail);
      RereadAllCons(songs);
    }
  }

  lemma AppendNil<T>(a: seq<T>)
    ensures a + [] == a
  {
  }

  lemma AppendNil2<T>(a: seq<T>)
    ensures [] + a == a
  {
  }

  lemma AppendAssoc<T>(a: seq<T>, x: T, b: seq<T>)
    ensures a + [x] + b == a + ([x] + b)
  {
  }

  lemma SeqAssoc<T>(a: seq<T>, b: seq<T>, c: seq<T>)
    ensures a + b + c == a + (b + c)
  {
  }

  lemma RereadAllCons(songs: seq<Song>)
    requires |songs| > 0
    ensures RereadAll(songs) == [Reread(songs[0])] + RereadAll(songs[1..])
  {
  }

  /** Parsing the lines written for a batch gives back, song by song, what `Reread`
      promises. */
  lemma BatchRoundTrip(batch: seq<Song>)
    requires forall k :: 0 <= k < |batch| ==> WritableSong(batch[k])
    ensures ParseM3u(BatchLines(batch)) == RereadAll(batch)
  {
    StripNoop(Header);
    RunStepFirst(Start, Header, AllSongLines(batch));
    AllSongLinesRoundTrip([], batch);
    assert [] + RereadAll(batch) == RereadAll(batch);
  }

  lemma {:induction false} AllSongLinesNoNewline(songs: seq<Song>)
    requires forall k :: 0 <= k < |songs| ==> NoNewline(songs[k].path) && NoNewline(songs[k].metadata)
    ensures forall k :: 0 <= k < |AllSongLines(songs)| ==> NoNewline(AllSongLines(songs)[k])
    decreases |songs|
  {
    if |songs| > 0 {
      AllSongLinesNoNewline(songs[1..]);
      var s := songs[0];
      if s.metadata != "" {
        var dt := IntToString(s.duration);
        assert '\n' !in dt;
        assert NoNewline(ExtinfLine(s.duration, s.metadata));
      }
    }
  }

  /** The same round trip through the file's text, when no path or metadata holds a newline. */
  lemma BatchTextRoundTrip(batch: seq<Song>)
    requires forall k :: 0 <= k < |batch| ==> WritableSong(batch[k])
    requires forall k :: 0 <= k < |batch| ==> NoNewline(batch[k].path) && NoNewline(batch[k].metadata)
    ensures ParseM3uText(Unlines(BatchLines(batch))) == RereadAll(batch)
  {
    var lines := BatchLines(batch);
    AllSongLinesNoNewline(batch);
    assert forall k :: 0 <= k < |lines| ==> NoNewline(lines[k]) by {
      assert lines == [Header] + AllSongLines(batch);
      forall k | 0 <= k < |lines| ensures NoNewline(lines[k]) {
        if k > 0 { assert lines[k] == AllSongLines(batch)[k - 1]; }
      }
    }
    SplitUnlines(lines);
    TrailingBlankIgnored(lines);
    BatchRoundTrip(batch);
  }

  // ---------------------------------------------------------------------------
  // What the parser produces

  /** Every song the parser emits is writable, newline-free and parser-shaped, and a pending
      record has no path yet. */
  predicate GoodSong(s: Song) {
    WritableSong(s) && NoNewline(s.path) && NoNewline(s.metadata) && ParserShaped(s)
  }

  predicate GoodState(st: ParserState) {
    && (forall k :: 0 <= k < |st.songs| ==> GoodSong(st.songs[k]))
    && (st.pending.Some? ==>
          && SafeMetadata(st.pending.value.metadata)
          && NoNewline(st.pending.value.metadata)
          && ParserShaped(st.pending.value))
  }

  lemma SliceNoNewline(s: string, i: int, j: int)
    requires NoNewline(s) && 0 <= i <= j <= |s|
    ensures NoNewline(s[i..j])
  {
  }

  lemma ExtinfStepGood(st: ParserState, line: string)
    requires GoodState(st) && NoNewline(line) && StartsWith(line, ExtinfTag)
    requires !IsSpace(line[|line| - 1])
    ensures GoodState(ParserState(st.songs, ParseExtinf(line)))
  {
    var p := ParseExtinf(line);
    assert p.Some? ==> SafeMetadata(p.value.metadata) && NoNewline(p.value.metadata) && ParserShaped(p.value) by {
      ExtinfMetadataGood(line);
    }
    PendingKeepsGood(st, p);
  }

  /** The metadata of an `#EXTINF` line ends where the line ends. */
  lemma ExtinfMetadataGood(line: string)
    requires NoNewline(line) && StartsWith(line, ExtinfTag)
    requires !IsSpace(line[|line| - 1])
    ensures SafeMetadata(ExtinfFields(line).1) && NoNewline(ExtinfFields(line).1)
  {
    var m := ExtinfFields(line).1;
    if m != "" {
      assert line[|line| - |m|..] == m;
      assert m[|m| - 1] == line[|line| - 1];
      SliceNoNewline(line, |line| - |m|, |line|);
    }
  }

  lemma PendingKeepsGood(st: ParserState, p: Option<Song>)
    requires GoodState(st)
    requires p.Some? ==> SafeMetadata(p.value.metadata) && NoNewline(p.value.metadata) && ParserShaped(p.value)
    ensures GoodState(ParserState(st.songs, p))
  {
  }

  lemma StripNoNewline(raw: string)
    requires NoNewline(raw)
    ensures NoNewline(Strip(raw))
  {
    var i, j := StripIsSlice(raw);
    SliceNoNewline(raw, i, j);
  }

  lemma PathStepGood(st: ParserState, raw: string)
    requires GoodState(st) && NoNewline(raw) && IsPathLine(Strip(raw))
    ensures GoodState(Step(st, raw))
  {
    StepOnPath(st, raw);
    StripNoNewline(raw);
    PathSongGood(st, raw);
    AppendGood(st.songs, PathSong(st, Strip(raw)));
  }

  lemma PathSongGood(st: ParserState, raw: string)
    requires GoodState(st) && NoNewline(Strip(raw)) && IsPathLine(Strip(raw))
    ensures GoodSong(PathSong(st, Strip(raw)))
  {
    var line := Strip(raw);
    assert SafePath(line);
    assert !Contains("", " - ") by { assert IndexOf("", " - ") == None; }
  }

  lemma AppendGood(songs: seq<Song>, song: Song)
    requires forall k :: 0 <= k < |songs| ==> GoodSong(songs[k])
    requires GoodSong(song)
    ensures GoodState(ParserState(songs + [song], None))
  {
  }

  lemma StepPreservesGood(st: ParserState, raw: string)
    requires GoodState(st) && NoNewline(raw)
    ensures GoodState(Step(st, raw))
  {
    var line := Strip(raw);
    if IsIgnored(line) {
      IgnoredStepGood(st, raw);
    } else if StartsWith(line, ExtinfTag) {
      ExtinfRawStepGood(st, raw);
    } else {
      PathStepGood(st, raw);
    }
  }

  lemma IgnoredStepGood(st: ParserState, raw: string)
    requires GoodState(st) && IsIgnored(Strip(raw))
    ensures GoodState(Step(st, raw))
  {
  }

  lemma ExtinfRawStepGood(st: ParserState, raw: string)
    requires GoodState(st) && NoNewline(raw) && StartsWith(Strip(raw), ExtinfTag)
    ensures GoodState(Step(st, raw))
  {
    var line := Strip(raw);
    StripNoNewline(raw);
    ExtinfStepGood(st, line);
  }

  lemma {:induction false} RunPreservesGood(st: ParserState, lines: seq<string>)
    requires GoodState(st)
    requires forall k :: 0 <= k < |lines| ==> NoNewline(lines[k])
    ensures GoodState(Run(st, lines))
    decreases |lines|
  {
    if |lines| > 0 {
      StepPreservesGood(st, lines[0]);
      RunPreservesGood(Step(st, lines[0]), lines[1..]);
    }
  }

  /** Every song parsed from a file's text can be written to a batch file and read back. */
  lemma ParsedSongsAreGood(text: string)
    ensures forall k :: 0 <= k < |ParseM3uText(text)| ==> GoodSong(ParseM3uText(text)[k])
  {
    var lines := SplitAll(text, "\n");
    SplitAllFieldsLack(text, "\n");
    forall k | 0 <= k < |lines| ensures NoNewline(lines[k]) {
      ContainsChar(lines[k], '\n');
    }
    RunPreservesGood(Start, lines);
  }

  lemma {:induction false} RereadAllConcat(a: seq<Song>, b: seq<Song>)
    ensures RereadAll(a + b) == RereadAll(a) + RereadAll(b)
  {
  }

  /** The songs parsed back from each written file, file by file. */
  function ReadFiles(files: seq<BatchFile>): (r: seq<seq<Song>>)
    ensures |r| == |files|
  {
    seq(|files|, i requires 0 <= i < |files| => ParseM3uText(Unlines(files[i].lines)))
  }

  /** The splitter end to end: parse a playlist's text, split it into batches of a positive
      size, write each batch file, and parse the files back in order. Together they give
      `Reread` of every song, in order; and when every song has metadata or a zero duration,
      exactly the songs parsed from the original file. */
  lemma SplitterRoundTrip(text: string, batchSize: int, base: string)
    requires batchSize > 0
    ensures var songs := ParseM3uText(text);
      var files := SaveBatches(SplitIntoBatches(songs, batchSize).value, base);
      && Flatten(ReadFiles(files)) == RereadAll(songs)
      && ((forall k :: 0 <= k < |songs| ==> songs[k].metadata != "" || songs[k].duration == 0) ==>
            Flatten(ReadFiles(files)) == songs)
  {
    var songs := ParseM3uText(text);
    ParsedSongsAreGood(text);
    GoodSongsReadBack(songs, batchSize, base);
    if forall k :: 0 <= k < |songs| ==> songs[k].metadata != "" || songs[k].duration == 0 {
      RereadAllKeeps(songs);
    }
  }

  /** Parser-produced songs with metadata or a zero duration read back unchanged. */
  lemma RereadAllKeeps(songs: seq<Song>)
    requires forall k :: 0 <= k < |songs| ==> GoodSong(songs[k])
    requires forall k :: 0 <= k < |songs| ==> songs[k].metadata != "" || songs[k].duration == 0
    ensures RereadAll(songs) == songs
  {
    forall k | 0 <= k < |songs| ensures RereadAll(songs)[k] == songs[k] {
      RereadPreserves(songs[k]);
    }
  }

  lemma GoodSongsReadBack(songs: seq<Song>, batchSize: nat, base: string)
    requires batchSize > 0
    requires forall k :: 0 <= k < |songs| ==> GoodSong(songs[k])
    ensures Flatten(ReadFiles(SaveBatches(Chunks(songs, batchSize), base))) == RereadAll(songs)
  {
    var batches := Chunks(songs, batchSize);
    ChunksShape(songs, batchSize);
    RereadBatches(batches, songs);
    ReadSavedBatches(batches, base);
    FlattenRereadAll(batches);
  }

  /** Each saved file reads back as its batch re-read. */
  lemma ReadSavedBatches(batches: seq<seq<Song>>, base: string)
    requires forall i :: 0 <= i < |batches| ==> ParseM3uText(Unlines(BatchLines(batches[i]))) == RereadAll(batches[i])
    ensures ReadFiles(SaveBatches(batches, base)) == seq(|batches|, i requires 0 <= i < |batches| => RereadAll(batches[i]))
  {
    var files := SaveBatches(batches, base);
    var reread := ReadFiles(files);
    forall i | 0 <= i < |batches| ensures reread[i] == RereadAll(batches[i]) {
      assert files[i].lines == BatchLines(batches[i]);
    }
  }

  /** Every batch of parser-produced songs round-trips through its file's text. */
  lemma RereadBatches(batches: seq<seq<Song>>, songs: seq<Song>)
    requires Flatten(batches) == songs
    requires forall k :: 0 <= k < |songs| ==> GoodSong(songs[k])
    ensures forall i :: 0 <= i < |batches| ==> ParseM3uText(Unlines(BatchLines(batches[i]))) == RereadAll(batches[i])
  {
    forall i | 0 <= i < |batches|
      ensures ParseM3uText(Unlines(BatchLines(batches[i]))) == RereadAll(batches[i])
    {
      FlattenContains(batches, i);
      BatchTextRoundTrip(batches[i]);
    }
  }

  lemma {:induction false} FlattenContains(batches: seq<seq<Song>>, i: nat)
    requires i < |batches|
    ensures forall k :: 0 <= k < |batches[i]| ==> batches[i][k] in Flatten(batches)
  {
    if i > 0 {
      FlattenContains(batches[1..], i - 1);
    }
  }

  lemma {:induction false} FlattenRereadAll(batches: seq<seq<Song>>)
    ensures Flatten(seq(|batches|, i requires 0 <= i < |batches| => RereadAll(batches[i]))) == RereadAll(Flatten(batches))
  {
    if |batches| > 0 {
      var m := seq(|batches|, i requires 0 <= i < |batches| => RereadAll(batches[i]));
      var m' := seq(|batches| - 1, i requires 0 <= i < |batches| - 1 => RereadAll(batches[1..][i]));
      assert m[1..] == m';
      FlattenRereadAll(batches[1..]);
      RereadAllConcat(batches[0], Flatten(batches[1..]));
    }
  }
}
