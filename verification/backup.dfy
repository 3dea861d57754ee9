/** The backup script's pure core: folder slugs, export-format parsing, resolving the
    configured playlist references against the fetched playlists, normalising playlist
    items, and the lines of the M3U file written for a playlist. */
module Backup {
  import opened Common
  import opened Text
  import opened Spotify
  import M3u
  import Batching

  // ---------------------------------------------------------------------------------
  // Folder slugs
  // ---------------------------------------------------------------------------------

  const SlugLimit: nat := 60
  const SlugFallback: string := "playlist"

  /** The characters the first substitution keeps: `[a-z0-9\-\s_]`. */
  predicate SlugKeeps(c: char) {
    IsLowerAscii(c) || IsDigit(c) || c == '-' || IsSpace(c) || c == '_'
  }

  /** The characters whose runs the second substitution turns into one hyphen: `[\s_]`. */
  predicate IsSlugGap(c: char) { IsSpace(c) || c == '_' }

  predicate IsSlugChar(c: char) { IsLowerAscii(c) || IsDigit(c) || c == '-' }

  /** What `slugify` can return: 1 to 60 characters from `[a-z0-9-]`. */
  predicate IsSlug(s: string) {
    0 < |s| <= SlugLimit && AllSlugChars(s)
  }

  predicate AllSlugKeeps(s: string) { forall i :: 0 <= i < |s| ==> SlugKeeps(s[i]) }
  predicate NoSlugGaps(s: string) { forall i :: 0 <= i < |s| ==> !IsSlugGap(s[i]) }
  predicate AllSlugChars(s: string) { forall i :: 0 <= i < |s| ==> IsSlugChar(s[i]) }

  /** Delete every character outside `[a-z0-9\-\s_]`. */
  function DropUnsafe(s: string): (r: string)
    ensures |r| <= |s|
    ensures AllSlugKeeps(r)
  {
    if |s| == 0 then ""
    else (if SlugKeeps(s[0]) then [s[0]] else []) + DropUnsafe(s[1..])
  }

  /** Deleting works piece by piece: the kept characters stay in their order. */
  lemma {:induction false} DropUnsafeAppend(a: string, b: string)
    ensures DropUnsafe(a + b) == DropUnsafe(a) + DropUnsafe(b)
    decreases |a|
  {
    if |a| == 0 {
      assert a + b == b;
    } else {
      var c := a[0];
      assert a + b == [c] + (a[1..] + b);
      assert a == [c] + a[1..];
      DropUnsafeAppend(a[1..], b);
      DropUnsafeOne(c, a[1..] + b);
      DropUnsafeOne(c, a[1..]);
      HeadThenAppend(if SlugKeeps(c) then [c] else [], DropUnsafe(a[1..]), DropUnsafe(b),
                     DropUnsafe(a[1..] + b), DropUnsafe([c] + (a[1..] + b)), DropUnsafe([c] + a[1..]));
    }
  }

  /** A character in front is kept exactly when it is in the class. */
  lemma DropUnsafeOne(c: char, rest: string)
    ensures DropUnsafe([c] + rest) == (if SlugKeeps(c) then [c] else []) + DropUnsafe(rest)
  {
    assert ([c] + rest)[0] == c && ([c] + rest)[1..] == rest;
  }

  /** Text made only of kept characters passes through unchanged. */
  lemma {:induction false} DropUnsafeNoop(s: string)
    requires AllSlugKeeps(s)
    ensures DropUnsafe(s) == s
    decreases |s|
  {
    if |s| > 0 {
      KeepsSuffix(s, 1);
      DropUnsafeNoop(s[1..]);
    }
  }

  /** Text with no kept character vanishes. */
  lemma {:induction false} DropUnsafeNone(s: string)
    requires forall i :: 0 <= i < |s| ==> !SlugKeeps(s[i])
    ensures DropUnsafe(s) == []
    decreases |s|
  {
    if |s| > 0 {
      assert forall i :: 0 <= i < |s| - 1 ==> s[1..][i] == s[i + 1];
      DropUnsafeNone(s[1..]);
    }
  }

  /** The text after a leading run of gap characters. */
  function SkipGaps(s: string): (r: string)
    ensures |r| <= |s| && r == s[|s| - |r|..]
    ensures r == [] || !IsSlugGap(r[0])
  {
    if |s| > 0 && IsSlugGap(s[0]) then SkipGaps(s[1..]) else s
  }

  /** Replace each maximal run of gap characters by one hyphen. */
  function CollapseGaps(s: string): (r: string)
    ensures |r| <= |s|
    ensures NoSlugGaps(r)
    decreases |s|
  {
    if |s| == 0 then ""
    else if IsSlugGap(s[0]) then "-" + CollapseGaps(SkipGaps(s[1..]))
    else [s[0]] + CollapseGaps(s[1..])
  }

  /** A leading run of gap characters is skipped up to the first character after it. */
  lemma {:induction false} SkipGapsRun(g: string, t: string)
    requires forall i :: 0 <= i < |g| ==> IsSlugGap(g[i])
    requires t == [] || !IsSlugGap(t[0])
    ensures SkipGaps(g + t) == t
    decreases |g|
  {
    if |g| == 0 {
      assert g + t == t;
    } else {
      assert (g + t)[0] == g[0];
      assert (g + t)[1..] == g[1..] + t;
      SkipGapsRun(g[1..], t);
    }
  }

  /** A character outside the gap class is kept in place. */
  lemma CollapseGapsKeeps(c: char, t: string)
    requires !IsSlugGap(c)
    ensures CollapseGaps([c] + t) == [c] + CollapseGaps(t)
  {
    assert ([c] + t)[1..] == t;
  }

  /** A maximal run of gap characters becomes exactly one hyphen. */
  lemma CollapseGapsRun(g: string, t: string)
    requires |g| > 0 && forall i :: 0 <= i < |g| ==> IsSlugGap(g[i])
    requires t == [] || !IsSlugGap(t[0])
    ensures CollapseGaps(g + t) == "-" + CollapseGaps(t)
  {
    assert (g + t)[0] == g[0];
    assert (g + t)[1..] == g[1..] + t;
    SkipGapsRun(g[1..], t);
  }

  /** Collapsing the gaps of kept characters leaves only slug characters. */
  lemma {:induction false} CollapseGapsSlugChars(s: string)
    requires AllSlugKeeps(s)
    ensures AllSlugChars(CollapseGaps(s))
    decreases |s|
  {
    if |s| > 0 {
      if IsSlugGap(s[0]) {
        var rest := SkipGaps(s[1..]);
        KeepsSuffix(s, |s| - |rest|);
        assert rest == s[|s| - |rest|..];
        CollapseGapsSlugChars(rest);
        SlugCharsCons('-', CollapseGaps(rest));
      } else {
        KeepsSuffix(s, 1);
        CollapseGapsSlugChars(s[1..]);
        SlugCharsCons(s[0], CollapseGaps(s[1..]));
      }
    }
  }

  lemma KeepsSuffix(s: string, k: nat)
    requires AllSlugKeeps(s) && k <= |s|
    ensures AllSlugKeeps(s[k..])
  {
    assert forall i :: 0 <= i < |s| - k ==> s[k..][i] == s[k + i];
  }

  lemma SlugCharsCons(c: char, t: string)
    requires IsSlugChar(c) && AllSlugChars(t)
    ensures AllSlugChars([c] + t)
  {
    assert forall i :: 1 <= i < |t| + 1 ==> ([c] + t)[i] == t[i - 1];
  }

  /** Text without gap characters is left as it is. */
  lemma {:induction false} CollapseGapsNoop(s: string)
    requires NoSlugGaps(s)
    ensures CollapseGaps(s) == s
    decreases |s|
  {
    if |s| > 0 {
      assert !IsSlugGap(s[0]);
      assert forall i :: 0 <= i < |s| - 1 ==> s[1..][i] == s[i + 1];
      CollapseGapsNoop(s[1..]);
    }
  }

  /** `slugify`: strip, lower-case, drop unsafe characters, collapse gaps into hyphens,
      keep the first 60 characters, and fall back to "playlist" when nothing is left. */
  function Slugify(value: string): (r: string)
    ensures IsSlug(r)
  {
    var kept := DropUnsafe(Lower(Strip(value)));
    var cleaned := CollapseGaps(kept);
    assert AllSlugChars(cleaned) by {
      CollapseGapsSlugChars(kept);
    }
    var cut := if |cleaned| <= SlugLimit then cleaned else cleaned[..SlugLimit];
    assert AllSlugChars(cut) by {
      SlugCharsPrefix(cleaned, |cut|);
    }
    if cut == "" then SlugFallback else cut
  }

  lemma SlugCharsPrefix(s: string, n: nat)
    requires AllSlugChars(s) && n <= |s|
    ensures AllSlugChars(s[..n])
  {
    assert forall i :: 0 <= i < n ==> s[..n][i] == s[i];
  }

  /** A slug is its own slug, so `slugify` is idempotent. */
  lemma SlugifyKeepsSlugs(s: string)
    requires IsSlug(s)
    ensures Slugify(s) == s
  {
    var cleaned := CollapseGaps(DropUnsafe(Lower(Strip(s))));
    assert cleaned == s by {
      SlugPassesStages(s);
    }
  }

  /** Each stage of `slugify` leaves a slug unchanged. */
  lemma SlugPassesStages(s: string)
    requires IsSlug(s)
    ensures Strip(s) == s && Lower(s) == s && DropUnsafe(s) == s && CollapseGaps(s) == s
  {
    SlugStripNoop(s);
    SlugLowerNoop(s);
    SlugKeepsAll(s);
    DropUnsafeNoop(s);
    SlugHasNoGaps(s);
    CollapseGapsNoop(s);
  }

  lemma SlugStripNoop(s: string)
    requires IsSlug(s)
    ensures Strip(s) == s
  {
    assert IsSlugChar(s[0]) && IsSlugChar(s[|s| - 1]);
    StripNoop(s);
  }

  lemma SlugLowerNoop(s: string)
    requires AllSlugChars(s)
    ensures Lower(s) == s
  {
    assert forall i :: 0 <= i < |s| ==> IsSlugChar(s[i]);
  }

  lemma SlugKeepsAll(s: string)
    requires AllSlugChars(s)
    ensures AllSlugKeeps(s)
  {
    assert forall i :: 0 <= i < |s| ==> IsSlugChar(s[i]);
  }

  lemma SlugHasNoGaps(s: string)
    requires AllSlugChars(s)
    ensures NoSlugGaps(s)
  {
    assert forall i :: 0 <= i < |s| ==> IsSlugChar(s[i]);
  }

  lemma SlugifyIdempotent(value: string)
    ensures Slugify(Slugify(value)) == Slugify(value)
  {
    SlugifyKeepsSlugs(Slugify(value));
  }

  /** A name that is all whitespace, or that holds no letter, digit, hyphen, underscore
      or whitespace at all, gets the fallback folder name. */
  lemma SlugifyBlank(value: string)
    requires || AllSpace(value)
             || (forall i :: 0 <= i < |value| ==> !IsAlnum(value[i]) && !IsSlugGap(value[i]) && value[i] != '-')
    ensures Slugify(value) == SlugFallback
  {
    BlankKeepsNothing(value);
    assert CollapseGaps(DropUnsafe(Lower(Strip(value)))) == [];
  }

  lemma BlankKeepsNothing(value: string)
    requires || AllSpace(value)
             || (forall i :: 0 <= i < |value| ==> !IsAlnum(value[i]) && !IsSlugGap(value[i]) && value[i] != '-')
    ensures DropUnsafe(Lower(Strip(value))) == []
  {
    var t := Strip(value);
    var i, j := StripIsSlice(value);
    if !AllSpace(value) {
      NothingKept(value, t, i, j);
    }
  }

  lemma NothingKept(value: string, t: string, i: int, j: int)
    requires 0 <= i <= j <= |value| && t == value[i..j]
    requires forall k :: 0 <= k < |value| ==> !IsAlnum(value[k]) && !IsSlugGap(value[k]) && value[k] != '-'
    ensures DropUnsafe(Lower(t)) == []
  {
    var low := Lower(t);
    forall k | 0 <= k < |low| ensures !SlugKeeps(low[k]) {
      assert t[k] == value[i + k];
    }
    DropUnsafeNone(low);
  }

  // ---------------------------------------------------------------------------------
  // Export formats
  // ---------------------------------------------------------------------------------

  const FormatJson: string := "json"
  const FormatM3u: string := "m3u"
  const BothFormats: seq<string> := [FormatJson, FormatM3u]

  predicate ValidFormats(fs: seq<string>) {
    fs == BothFormats || fs == [FormatJson] || fs == [FormatM3u]
  }

  /** `parse_format`: a missing or empty value, "both", and any unknown value mean both
      formats; "json" and "m3u" (in any ASCII case) select one. */
  function ParseFormat(value: Option<string>): (r: seq<string>)
    ensures ValidFormats(r)
    ensures r == [FormatJson] <==> Truthy(value) && Lower(value.value) == FormatJson
    ensures r == [FormatM3u] <==> Truthy(value) && Lower(value.value) == FormatM3u
  {
    var v := if Truthy(value) then value.value else "both";
    var normalized := Lower(v);
    if normalized == "both" then BothFormats
    else if normalized == FormatJson || normalized == FormatM3u then [normalized]
    else BothFormats
  }

  /** The choice of format ignores ASCII case. */
  lemma ParseFormatIgnoresCase(a: string, b: string)
    requires Lower(a) == Lower(b)
    ensures ParseFormat(Some(a)) == ParseFormat(Some(b))
  {
    assert |a| == |b|;
  }

  // ---------------------------------------------------------------------------------
  // Playlist references
  // ---------------------------------------------------------------------------------

  /** One entry of `selected_playlists` or `exclude_playlists`: a mapping with optional
      `id`, `name` and `format` keys, a plain string, or any other configuration value. */
  datatype ConfigEntry =
    | MapEntry(id: Option<string>, name: Option<string>, format: Option<string>)
    | TextEntry(text: string)
    | OtherEntry

  /** The `id` and `name` keys of the dictionary `resolve_identifier` returns. */
  datatype Identifier = Identifier(id: Option<string>, name: Option<string>)

  const UriPrefix: string := "spotify:playlist:"
  const UrlMarker: string := "open.spotify.com/playlist/"

  /** Regular expression `[A-Za-z0-9]{22}`, matched in full. */
  predicate IsBareId(v: string) { |v| == 22 && AllAlnum(v) }

  /** `resolve_identifier`: a mapping keeps its truthy `id` and `name`; a string is read
      as a playlist URI, a playlist URL, a bare 22-character ID, or else a name. */
  function ResolveIdentifier(entry: ConfigEntry): (r: Identifier)
    ensures entry.OtherEntry? ==> r == Identifier(None, None)
    ensures entry.MapEntry? ==> (r.id.Some? <==> Truthy(entry.id)) && (r.id.Some? ==> r.id == entry.id)
    ensures entry.MapEntry? ==> (r.name.Some? <==> Truthy(entry.name)) && (r.name.Some? ==> r.name == entry.name)
    ensures entry.TextEntry? ==> r == ResolveText(entry.text)
  {
    match entry
    case MapEntry(id, name, _) =>
      Identifier(if Truthy(id) then id else None, if Truthy(name) then name else None)
    case TextEntry(text) => ResolveText(text)
    case OtherEntry => Identifier(None, None)
  }

  /** `resolve_identifier` on a string: exactly one of ID and name is set; a name is the
      stripped text when it is neither URI, URL nor bare ID. */
  function ResolveText(text: string): (r: Identifier)
    ensures r.id.Some? != r.name.Some?
    ensures r.name.Some? ==>
      var v := Strip(text);
      r.name.value == v && !StartsWith(v, UriPrefix) && !Contains(v, UrlMarker) && !IsBareId(v)
    ensures StartsWith(Strip(text), UriPrefix) ==> r.id.Some? && ':' !in r.id.value
    ensures !StartsWith(Strip(text), UriPrefix) && Contains(Strip(text), UrlMarker) ==>
      r.id.Some? && '?' !in r.id.value
    ensures IsBareId(Strip(text)) ==> r.id == Some(Strip(text))
  {
    var v := Strip(text);
    BareIdIsPlain(v);
    if StartsWith(v, UriPrefix) then Identifier(Some(IdFromUri(v)), None)
    else if Contains(v, UrlMarker) then Identifier(Some(IdFromUrl(v)), None)
    else if IsBareId(v) then Identifier(Some(v), None)
    else Identifier(None, Some(v))
  }

  /** `value.split(':')[-1]`: the text after the last colon. */
  function IdFromUri(v: string): (r: string)
    ensures ':' !in r
  {
    var fs := SplitAll(v, ":");
    SplitAllFieldsLack(v, ":");
    ContainsChar(fs[|fs| - 1], ':');
    fs[|fs| - 1]
  }

  /** `value.split('open.spotify.com/playlist/')[1].split('?')[0]`: the text after the
      first marker, up to a second marker or a question mark. */
  function IdFromUrl(v: string): (r: string)
    requires Contains(v, UrlMarker)
    ensures '?' !in r
  {
    SplitAllLength(v, UrlMarker);
    var id := SplitAll(SplitAll(v, UrlMarker)[1], "?")[0];
    SplitAllFieldsLack(SplitAll(v, UrlMarker)[1], "?");
    ContainsChar(id, '?');
    id
  }

  /** A bare ID is neither a URI nor a URL: it has no ':' and no '.'. */
  lemma BareIdIsPlain(v: string)
    ensures IsBareId(v) ==> !StartsWith(v, UriPrefix) && !Contains(v, UrlMarker)
  {
    if IsBareId(v) {
      assert UriPrefix[7] == ':';
    }
  }

  /** The three spellings of a playlist reference the script accepts name the same ID:
      the URI, the web URL (with or without a query string) and the bare ID. */
  lemma ResolveSpellingsAgree(x: string, query: string)
    requires IsBareId(x)
    requires query == "" || (query[0] == '?' && '/' !in query && !IsSpace(query[|query| - 1]))
    ensures ResolveIdentifier(TextEntry(x)).id == Some(x)
    ensures ResolveIdentifier(TextEntry(UriPrefix + x)).id == Some(x)
    ensures ResolveIdentifier(TextEntry("https://" + UrlMarker + x + query)).id == Some(x)
  {
    assert x[0] == x[0] && !IsSpace(x[0]) && !IsSpace(x[|x| - 1]);
    StripNoop(x);
    UriSpellingResolves(x);
    UrlSpellingResolves(x, query);
  }

  lemma UriSpellingResolves(x: string)
    requires IsBareId(x)
    ensures ResolveIdentifier(TextEntry(UriPrefix + x)).id == Some(x)
  {
    var v := UriPrefix + x;
    assert Strip(v) == v by {
      assert !IsSpace(v[0]) && v[|v| - 1] == x[|x| - 1];
      StripNoop(v);
    }
    assert StartsWith(v, UriPrefix) by {
      assert v[..|UriPrefix|] == UriPrefix;
    }
    assert IdFromUri(v) == x by {
      UriIdIsLastField(x);
    }
  }

  lemma UriIdIsLastField(x: string)
    requires IsBareId(x)
    ensures IdFromUri(UriPrefix + x) == x
  {
    var v := UriPrefix + x;
    assert !Contains(x, ":") by {
      assert ':' !in x;
      ContainsChar(x, ':');
    }
    assert v == "spotify:playlist" + ":" + x;
    var fs := SplitAll(v, ":");
    assert fs[|fs| - 1] == x by {
      SplitAllLast("spotify:playlist", ":", x);
    }
  }

  lemma UrlSpellingResolves(x: string, query: string)
    requires IsBareId(x)
    requires query == "" || (query[0] == '?' && '/' !in query && !IsSpace(query[|query| - 1]))
    ensures ResolveIdentifier(TextEntry("https://" + UrlMarker + x + query)).id == Some(x)
  {
    var v := "https://" + UrlMarker + x + query;
    assert !IsSpace(v[0]);
    assert v[|v| - 1] == (if query == "" then x[|x| - 1] else query[|query| - 1]);
    StripNoop(v);
    assert v[7] == '/';
    assert !StartsWith(v, UriPrefix);
    UrlIdOfCanonical(x, query);
  }

  lemma UrlIdOfCanonical(x: string, query: string)
    requires IsBareId(x)
    requires query == "" || (query[0] == '?' && '/' !in query)
    ensures var v := "https://" + UrlMarker + x + query;
      Contains(v, UrlMarker) && IdFromUrl(v) == x
  {
    var v := "https://" + UrlMarker + x + query;
    var tail := x + query;
    assert v == "https://" + UrlMarker + tail;
    assert Contains(v, UrlMarker) && SplitAll(v, UrlMarker)[1] == tail by {
      assert '/' !in tail;
      UrlAfterScheme(tail);
    }
    assert SplitAll(tail, "?")[0] == x by {
      QueryCutGivesId(x, query);
    }
  }

  /** Cutting `x + query` at the first '?' gives `x` back. */
  lemma QueryCutGivesId(x: string, query: string)
    requires IsBareId(x)
    requires query == "" || query[0] == '?'
    ensures SplitAll(x + query, "?")[0] == x
  {
    ContainsChar(x, '?');
    if query == "" {
      assert x + query == x;
    } else {
      assert x + query == x + "?" + query[1..];
      SplitAllAfterField(x, "?", query[1..]);
    }
  }

  /** In a URL that starts with the scheme and the marker, the second field of the split at
      the marker is everything after it, as long as no '/' follows. */
  lemma UrlAfterScheme(tail: string)
    requires '/' !in tail
    ensures var v := "https://" + UrlMarker + tail;
      Contains(v, UrlMarker) && SplitAll(v, UrlMarker)[1] == tail
  {
    var v := "https://" + UrlMarker + tail;
    MarkerFirstAfterScheme(tail);
    assert v[8 + |UrlMarker|..] == tail;
    MarkerNeedsSlash(tail);
    assert SplitAll(tail, UrlMarker) == [tail];
    assert SplitAll(v, UrlMarker) == [v[..8]] + [tail];
  }

  /** The marker holds a '/', so a text without one cannot hold the marker. */
  lemma MarkerNeedsSlash(tail: string)
    requires '/' !in tail
    ensures !Contains(tail, UrlMarker)
  {
    forall k ensures !OccursAt(tail, UrlMarker, k) {
      SliceIndex(tail, k, k + |UrlMarker|, 16);
    }
  }

  /** The marker first occurs right after the scheme: no 'o' comes earlier. */
  lemma MarkerFirstAfterScheme(tail: string)
    ensures IndexOf("https://" + UrlMarker + tail, UrlMarker) == Some(8)
  {
    var v := "https://" + UrlMarker + tail;
    assert OccursAt(v, UrlMarker, 8) by {
      assert v[8..8 + |UrlMarker|] == UrlMarker;
    }
    forall k | 0 <= k < 8 ensures !OccursAt(v, UrlMarker, k) {
      assert v[k] != 'o';
      SliceIndex(v, k, k + |UrlMarker|, 0);
    }
  }

  // ---------------------------------------------------------------------------------
  // Finding playlists
  // ---------------------------------------------------------------------------------

  /** `by_id`: a dictionary filled in playlist order, so for a repeated ID the last
      playlist with that ID wins. */
  function LastWithId(playlists: seq<Playlist>, id: string): (r: Option<Playlist>)
    ensures r.Some? <==> exists k :: 0 <= k < |playlists| && playlists[k].id == id
    ensures r.Some? ==> r.value.id == id && r.value in playlists
    decreases |playlists|
  {
    if |playlists| == 0 then None
    else
      var last := playlists[|playlists| - 1];
      if last.id == id then Some(last)
      else
        var front := playlists[..|playlists| - 1];
        assert forall k :: 0 <= k < |front| ==> front[k] == playlists[k];
        LastWithId(front, id)
  }

  /** The playlist `by_id` keeps for an ID is the one at its last position. */
  lemma {:induction false} LastWithIdIsLast(playlists: seq<Playlist>, id: string) returns (k: nat)
    requires LastWithId(playlists, id).Some?
    ensures k < |playlists| && playlists[k] == LastWithId(playlists, id).value
    ensures forall j :: k < j < |playlists| ==> playlists[j].id != id
    decreases |playlists|
  {
    if playlists[|playlists| - 1].id == id {
      k := |playlists| - 1;
    } else {
      var front := playlists[..|playlists| - 1];
      k := LastWithIdIsLast(front, id);
    }
  }

  /** The `name_map` key of a playlist: its case-folded name, empty when it has none. */
  function NameKey(p: Playlist, fold: string -> string): string {
    fold(OrElse(p.name, ""))
  }

  /** `name_map[key]`: the playlists with that key, in playlist order. */
  function NameMatches(playlists: seq<Playlist>, fold: string -> string, key: string): (r: seq<Playlist>)
    ensures |r| <= |playlists|
    ensures forall p :: p in r <==> p in playlists && NameKey(p, fold) == key
    ensures (forall p :: p in playlists ==> NameKey(p, fold) != key) ==> r == []
  {
    if |playlists| == 0 then []
    else
      var rest := NameMatches(playlists[1..], fold, key);
      assert forall p :: p in playlists <==> p == playlists[0] || p in playlists[1..];
      if NameKey(playlists[0], fold) == key then [playlists[0]] + rest else rest
  }

  /** Two positions with the same key make the name ambiguous. */
  lemma {:induction false} NameMatchesTwo(playlists: seq<Playlist>, fold: string -> string, key: string, j: nat, k: nat)
    requires j < k < |playlists|
    requires NameKey(playlists[j], fold) == key && NameKey(playlists[k], fold) == key
    ensures |NameMatches(playlists, fold, key)| >= 2
    decreases j
  {
    var rest := playlists[1..];
    if j == 0 {
      assert playlists[k] in rest by { assert rest[k - 1] == playlists[k]; }
      assert playlists[k] in NameMatches(rest, fold, key);
    } else {
      assert rest[j - 1] == playlists[j] && rest[k - 1] == playlists[k];
      NameMatchesTwo(rest, fold, key, j - 1, k - 1);
    }
  }

  /** A key held at exactly one position matches exactly that playlist. */
  lemma {:induction false} NameMatchesOne(playlists: seq<Playlist>, fold: string -> string, key: string, k: nat)
    requires k < |playlists| && NameKey(playlists[k], fold) == key
    requires forall j :: 0 <= j < |playlists| && j != k ==> NameKey(playlists[j], fold) != key
    ensures NameMatches(playlists, fold, key) == [playlists[k]]
    decreases k
  {
    var rest := playlists[1..];
    if k == 0 {
      assert forall p :: p in rest ==> NameKey(p, fold) != key by {
        forall p | p in rest ensures NameKey(p, fold) != key {
          var j :| 0 <= j < |rest| && rest[j] == p;
          assert p == playlists[j + 1];
        }
      }
    } else {
      assert rest[k - 1] == playlists[k];
      assert NameKey(playlists[0], fold) != key;
      forall j | 0 <= j < |rest| && j != k - 1 ensures NameKey(rest[j], fold) != key {
        assert rest[j] == playlists[j + 1];
      }
      NameMatchesOne(rest, fold, key, k - 1);
    }
  }

  /** `find_playlist`: by ID when the entry has a truthy one (the last playlist with it),
      otherwise by case-folded name when exactly one playlist carries it. Case folding
      is the parameter `fold`. */
  function FindPlaylist(entry: Identifier, playlists: seq<Playlist>, fold: string -> string): (r: Option<Playlist>)
    ensures r.Some? ==> r.value in playlists
    ensures Truthy(entry.id) ==>
      && (r.Some? <==> exists k :: 0 <= k < |playlists| && playlists[k].id == entry.id.value)
      && (r.Some? ==> r.value.id == entry.id.value)
    ensures !Truthy(entry.id) && Truthy(entry.name) ==>
      && (r.Some? <==> |NameMatches(playlists, fold, fold(entry.name.value))| == 1)
      && (r.Some? ==> NameKey(r.value, fold) == fold(entry.name.value))
    ensures !Truthy(entry.id) && !Truthy(entry.name) ==> r.None?
  {
    if Truthy(entry.id) then LastWithId(playlists, entry.id.value)
    else if Truthy(entry.name) then
      var matches := NameMatches(playlists, fold, fold(entry.name.value));
      if |matches| == 1 then
        assert matches[0] in matches;
        Some(matches[0])
      else None
    else None
  }

  /** A name finds a playlist exactly when one position of the listing carries it. */
  lemma FindByNameIffUnique(entry: Identifier, playlists: seq<Playlist>, fold: string -> string)
    requires !Truthy(entry.id) && Truthy(entry.name)
    ensures var key := fold(entry.name.value);
      FindPlaylist(entry, playlists, fold).Some? <==>
        exists k :: 0 <= k < |playlists| && NameKey(playlists[k], fold) == key &&
          forall j :: 0 <= j < |playlists| && j != k ==> NameKey(playlists[j], fold) != key
  {
    var key := fold(entry.name.value);
    var r := FindPlaylist(entry, playlists, fold);
    if r.Some? {
      var k :| 0 <= k < |playlists| && playlists[k] == r.value;
      forall j | 0 <= j < |playlists| && j != k ensures NameKey(playlists[j], fold) != key {
        if NameKey(playlists[j], fold) == key {
          if j < k { NameMatchesTwo(playlists, fold, key, j, k); }
          else { NameMatchesTwo(playlists, fold, key, k, j); }
        }
      }
    }
    if exists k :: 0 <= k < |playlists| && NameKey(playlists[k], fold) == key &&
         forall j :: 0 <= j < |playlists| && j != k ==> NameKey(playlists[j], fold) != key {
      var k :| 0 <= k < |playlists| && NameKey(playlists[k], fold) == key &&
         forall j :: 0 <= j < |playlists| && j != k ==> NameKey(playlists[j], fold) != key;
      NameMatchesOne(playlists, fold, key, k);
    }
  }

  // ---------------------------------------------------------------------------------
  // Choosing what to export
  // ---------------------------------------------------------------------------------

  datatype Mode = AllPlaylists | SelectedPlaylists

  /** The parts of the configuration `determine_playlist_exports` reads. */
  datatype ExportConfig = ExportConfig(
    mode: Mode,
    defaultFormat: Option<string>,
    selected: seq<ConfigEntry>,
    exclude: seq<ConfigEntry>)

  /** One playlist to back up, with the formats to write it in. */
  datatype Export = Export(id: string, name: Option<string>, formats: seq<string>)

  predicate ExportsFetched(r: seq<Export>, playlists: seq<Playlist>) {
    forall e :: e in r ==> Playlist(e.id, e.name) in playlists && ValidFormats(e.formats)
  }

  /** The playlist an exclude entry names: `find_playlist(resolve_identifier(entry))`. */
  function EntryPlaylist(entry: ConfigEntry, playlists: seq<Playlist>, fold: string -> string): Option<Playlist>
  {
    FindPlaylist(ResolveIdentifier(entry), playlists, fold)
  }

  /** `resolve_ids`: the IDs of the playlists the entries find, in entry order. Every entry
      that finds a playlist contributes its ID, and every ID comes from such an entry. */
  function ResolveIds(entries: seq<ConfigEntry>, playlists: seq<Playlist>, fold: string -> string): (r: seq<string>)
    ensures |r| <= |entries|
    ensures forall id :: id in r ==> exists p :: p in playlists && p.id == id
    ensures forall k :: 0 <= k < |entries| && EntryPlaylist(entries[k], playlists, fold).Some? ==>
      EntryPlaylist(entries[k], playlists, fold).value.id in r
    ensures forall id :: id in r ==> exists k :: 0 <= k < |entries| && EntryFinds(entries[k], playlists, fold, id)
  {
    if |entries| == 0 then []
    else
      var rest := ResolveIds(entries[1..], playlists, fold);
      assert forall k :: 1 <= k < |entries| ==> entries[k] == entries[1..][k - 1];
      match EntryPlaylist(entries[0], playlists, fold)
      case Some(p) =>
        assert EntryFinds(entries[0], playlists, fold, p.id);
        [p.id] + rest
      case None => rest
  }

  predicate EntryFinds(entry: ConfigEntry, playlists: seq<Playlist>, fold: string -> string, id: string) {
    EntryPlaylist(entry, playlists, fold).Some? && EntryPlaylist(entry, playlists, fold).value.id == id
  }

  /** The exclusions of a list of entries are those of its first part followed by those of
      the rest, so the IDs keep the order of the entries. */
  lemma {:induction false} ResolveIdsAppend(a: seq<ConfigEntry>, b: seq<ConfigEntry>, playlists: seq<Playlist>,
                                            fold: string -> string)
    ensures ResolveIds(a + b, playlists, fold) == ResolveIds(a, playlists, fold) + ResolveIds(b, playlists, fold)
    decreases |a|
  {
    if |a| == 0 {
      assert a + b == b;
    } else {
      assert (a + b)[0] == a[0];
      assert (a + b)[1..] == a[1..] + b;
      ResolveIdsAppend(a[1..], b, playlists, fold);
    }
  }

  /** One entry gives the ID of the playlist it finds, or nothing. */
  lemma ResolveIdsOne(entry: ConfigEntry, playlists: seq<Playlist>, fold: string -> string)
    ensures var found := EntryPlaylist(entry, playlists, fold);
      ResolveIds([entry], playlists, fold) == (if found.None? then [] else [found.value.id])
  {
    assert [entry][1..] == [];
  }

  /** The `all` mode: every fetched playlist whose ID is not excluded, in listing order. */
  function ExportAll(playlists: seq<Playlist>, excluded: set<string>, formats: seq<string>): (r: seq<Export>)
    ensures |r| <= |playlists|
    ensures forall e :: e in r ==> e.id !in excluded && e.formats == formats && Playlist(e.id, e.name) in playlists
    ensures forall p :: p in playlists && p.id !in excluded ==> Export(p.id, p.name, formats) in r
  {
    if |playlists| == 0 then []
    else
      var p := playlists[0];
      var rest := ExportAll(playlists[1..], excluded, formats);
      assert forall q :: q in playlists <==> q == p || q in playlists[1..];
      if p.id in excluded then rest else [Export(p.id, p.name, formats)] + rest
  }

  /** The `all` mode works playlist by playlist: the exports of a listing are those of its
      first part followed by those of the rest. */
  lemma {:induction false} ExportAllAppend(a: seq<Playlist>, b: seq<Playlist>, excluded: set<string>,
                                           formats: seq<string>)
    ensures ExportAll(a + b, excluded, formats) == ExportAll(a, excluded, formats) + ExportAll(b, excluded, formats)
    decreases |a|
  {
    if |a| == 0 {
      assert a + b == b;
    } else {
      var p := a[0];
      assert a + b == [p] + (a[1..] + b);
      assert a == [p] + a[1..];
      ExportAllAppend(a[1..], b, excluded, formats);
      ExportAllConsStep(p, a[1..], b, excluded, formats);
    }
  }

  lemma ExportAllConsStep(p: Playlist, a: seq<Playlist>, b: seq<Playlist>, excluded: set<string>,
                          formats: seq<string>)
    requires ExportAll(a + b, excluded, formats) == ExportAll(a, excluded, formats) + ExportAll(b, excluded, formats)
    ensures ExportAll([p] + (a + b), excluded, formats)
      == ExportAll([p] + a, excluded, formats) + ExportAll(b, excluded, formats)
  {
    var h := if p.id in excluded then [] else [Export(p.id, p.name, formats)];
    ExportAllOne(p, a + b, excluded, formats);
    ExportAllOne(p, a, excluded, formats);
    HeadThenAppend(h, ExportAll(a, excluded, formats), ExportAll(b, excluded, formats),
                   ExportAll(a + b, excluded, formats), ExportAll([p] + (a + b), excluded, formats),
                   ExportAll([p] + a, excluded, formats));
  }

  lemma HeadThenAppend<T>(h: seq<T>, x: seq<T>, y: seq<T>, xy: seq<T>, l: seq<T>, r: seq<T>)
    requires xy == x + y && l == h + xy && r == h + x
    ensures l == r + y
  {
  }

  /** One playlist in front gives one export with the given formats, unless its ID is excluded. */
  lemma ExportAllOne(p: Playlist, rest: seq<Playlist>, excluded: set<string>, formats: seq<string>)
    ensures ExportAll([p] + rest, excluded, formats)
      == (if p.id in excluded then [] else [Export(p.id, p.name, formats)]) + ExportAll(rest, excluded, formats)
  {
    assert ([p] + rest)[0] == p && ([p] + rest)[1..] == rest;
  }

  /** With nothing excluded, every fetched playlist is exported, in listing order. */
  lemma {:induction false} ExportAllKeepsOrder(playlists: seq<Playlist>, excluded: set<string>, formats: seq<string>)
    requires forall p :: p in playlists ==> p.id !in excluded
    ensures var r := ExportAll(playlists, excluded, formats);
      |r| == |playlists| && forall k :: 0 <= k < |r| ==> r[k] == Export(playlists[k].id, playlists[k].name, formats)
  {
    if |playlists| > 0 {
      var rest := playlists[1..];
      assert forall q :: q in rest ==> q in playlists;
      ExportAllKeepsOrder(rest, excluded, formats);
      var r := ExportAll(playlists, excluded, formats);
      var tail := ExportAll(rest, excluded, formats);
      assert playlists[0] in playlists;
      assert r == [Export(playlists[0].id, playlists[0].name, formats)] + tail;
      forall k | 0 < k < |r| ensures r[k] == Export(playlists[k].id, playlists[k].name, formats) {
        assert r[k] == tail[k - 1] && playlists[k] == rest[k - 1];
      }
    }
  }

  /** The formats for a selected entry: a mapping's truthy `format`, else the default. */
  function EntryFormats(entry: ConfigEntry, defaultFormat: Option<string>): (r: seq<string>)
    ensures ValidFormats(r)
    ensures entry.MapEntry? && Truthy(entry.format) ==> r == ParseFormat(entry.format)
    ensures !(entry.MapEntry? && Truthy(entry.format)) ==> r == ParseFormat(defaultFormat)
  {
    if entry.MapEntry? && Truthy(entry.format) then ParseFormat(entry.format) else ParseFormat(defaultFormat)
  }

  /** The identifier the `selected` mode looks up: a mapping's name is copied in when the
      resolved identifier lacks one. */
  function SelectedDetails(entry: ConfigEntry): Identifier
  {
    var details := ResolveIdentifier(entry);
    if entry.MapEntry? && Truthy(entry.name) && details.name.None? then details.(name := entry.name)
    else details
  }

  /** The name copy never fires: a mapping with a truthy name already resolves to it. */
  lemma SelectedDetailsAreResolved(entry: ConfigEntry)
    ensures SelectedDetails(entry) == ResolveIdentifier(entry)
  {
  }

  /** The `selected` mode: one export per entry that finds a playlist, in entry order. */
  function ExportSelected(entries: seq<ConfigEntry>, playlists: seq<Playlist>, fold: string -> string,
                          defaultFormat: Option<string>): (r: seq<Export>)
    ensures |r| <= |entries|
    ensures ExportsFetched(r, playlists)
  {
    if |entries| == 0 then []
    else
      var rest := ExportSelected(entries[1..], playlists, fold, defaultFormat);
      match FindPlaylist(SelectedDetails(entries[0]), playlists, fold)
      case Some(p) =>
        var e := Export(p.id, p.name, EntryFormats(entries[0], defaultFormat));
        assert Playlist(e.id, e.name) == p;
        [e] + rest
      case None => rest
  }

  /** The `selected` mode works entry by entry: the exports of a list of entries are those
      of its first part followed by those of the rest. */
  lemma {:induction false} ExportSelectedAppend(a: seq<ConfigEntry>, b: seq<ConfigEntry>, playlists: seq<Playlist>,
                                                fold: string -> string, defaultFormat: Option<string>)
    ensures ExportSelected(a + b, playlists, fold, defaultFormat)
      == ExportSelected(a, playlists, fold, defaultFormat) + ExportSelected(b, playlists, fold, defaultFormat)
    decreases |a|
  {
    if |a| == 0 {
      assert a + b == b;
    } else {
      assert (a + b)[0] == a[0];
      assert (a + b)[1..] == a[1..] + b;
      ExportSelectedAppend(a[1..], b, playlists, fold, defaultFormat);
    }
  }

  /** One entry gives nothing when no playlist is found, and otherwise one export of the
      found playlist with the entry's formats. */
  lemma ExportSelectedOne(entry: ConfigEntry, playlists: seq<Playlist>, fold: string -> string,
                          defaultFormat: Option<string>)
    ensures var found := FindPlaylist(SelectedDetails(entry), playlists, fold);
      ExportSelected([entry], playlists, fold, defaultFormat)
        == (if found.None? then [] else [Export(found.value.id, found.value.name, EntryFormats(entry, defaultFormat))])
  {
    assert [entry][1..] == [];
  }

  /** An export made for a configuration entry: the found playlist's ID and the entry's formats. */
  predicate ExportsEntry(e: Export, entry: ConfigEntry, playlists: seq<Playlist>, fold: string -> string,
                         defaultFormat: Option<string>)
  {
    && FindPlaylist(SelectedDetails(entry), playlists, fold).Some?
    && e.id == FindPlaylist(SelectedDetails(entry), playlists, fold).value.id
    && e.formats == EntryFormats(entry, defaultFormat)
  }

  /** When every selected entry is found, each gives one export, in the order of the
      configuration, with the found playlist's ID and the entry's formats. */
  lemma {:induction false} ExportSelectedAllFound(entries: seq<ConfigEntry>, playlists: seq<Playlist>,
                                                  fold: string -> string, defaultFormat: Option<string>)
    requires forall k :: 0 <= k < |entries| ==> FindPlaylist(SelectedDetails(entries[k]), playlists, fold).Some?
    ensures var r := ExportSelected(entries, playlists, fold, defaultFormat);
      && |r| == |entries|
      && forall k :: 0 <= k < |r| ==> ExportsEntry(r[k], entries[k], playlists, fold, defaultFormat)
    decreases |entries|
  {
    if |entries| > 0 {
      var rest := entries[1..];
      assert forall k :: 0 <= k < |rest| ==> rest[k] == entries[k + 1];
      ExportSelectedAllFound(rest, playlists, fold, defaultFormat);
      var r := ExportSelected(entries, playlists, fold, defaultFormat);
      var tail := ExportSelected(rest, playlists, fold, defaultFormat);
      var e := ExportSelectedFound(entries, playlists, fold, defaultFormat);
      assert r == [e] + tail;
      forall k | 0 <= k < |r| ensures ExportsEntry(r[k], entries[k], playlists, fold, defaultFormat) {
        if k > 0 {
          assert r[k] == tail[k - 1] && entries[k] == rest[k - 1];
        }
      }
    }
  }

  /** A found first entry contributes the first export. */
  lemma ExportSelectedFound(entries: seq<ConfigEntry>, playlists: seq<Playlist>,
                            fold: string -> string, defaultFormat: Option<string>) returns (e: Export)
    requires |entries| > 0 && FindPlaylist(SelectedDetails(entries[0]), playlists, fold).Some?
    ensures ExportsEntry(e, entries[0], playlists, fold, defaultFormat)
    ensures ExportSelected(entries, playlists, fold, defaultFormat)
      == [e] + ExportSelected(entries[1..], playlists, fold, defaultFormat)
  {
    var p := FindPlaylist(SelectedDetails(entries[0]), playlists, fold).value;
    e := Export(p.id, p.name, EntryFormats(entries[0], defaultFormat));
  }

  /** `determine_playlist_exports`. */
  function DeterminePlaylistExports(config: ExportConfig, playlists: seq<Playlist>, fold: string -> string): (r: seq<Export>)
    ensures ExportsFetched(r, playlists)
    ensures config.mode == AllPlaylists ==>
      forall p :: p in playlists ==>
        (Export(p.id, p.name, ParseFormat(config.defaultFormat)) in r <==>
         p.id !in ResolveIds(config.exclude, playlists, fold))
    ensures config.mode == SelectedPlaylists ==> |r| <= |config.selected|
    ensures config.mode == AllPlaylists ==>
      r == ExportAll(playlists, (set id | id in ResolveIds(config.exclude, playlists, fold)),
                     ParseFormat(config.defaultFormat))
    ensures config.mode == SelectedPlaylists ==>
      r == ExportSelected(config.selected, playlists, fold, config.defaultFormat)
  {
    match config.mode
    case AllPlaylists =>
      var excluded := set id | id in ResolveIds(config.exclude, playlists, fold);
      ExportAll(playlists, excluded, ParseFormat(config.defaultFormat))
    case SelectedPlaylists =>
      ExportSelected(config.selected, playlists, fold, config.defaultFormat)
  }

  // ---------------------------------------------------------------------------------
  // Normalising playlist items
  // ---------------------------------------------------------------------------------

  /** One record of `tracks.json`. `album` is `None` only for unavailable items; an
      available track without an album gets one whose ID and name are absent. */
  datatype NormalizedTrack = NormalizedTrack(
    position: nat,
    id: Option<string>,
    uri: Option<string>,
    name: Option<string>,
    artists: seq<Artist>,
    album: Option<Album>,
    durationMs: Option<int>,
    isLocal: bool,
    spotifyUrl: Option<string>,
    addedAt: Option<string>,
    addedBy: Option<string>,
    explicit: Option<bool>,
    available: bool)

  const UnavailableName: string := "Unavailable Track"

  function NormalizeItem(item: PlaylistItem, position: nat): NormalizedTrack
  {
    match item.track
    case None =>
      NormalizedTrack(position, None, None, Some(UnavailableName), [], None, None, false, None,
                      item.addedAt, None, None, false)
    case Some(t) =>
      NormalizedTrack(position, t.id, t.uri, t.name, t.artists,
                      Some(t.album.GetOr(Album(None, None))), t.durationMs, t.isLocal, t.spotifyUrl,
                      item.addedAt, item.addedBy, t.explicit, true)
  }

  /** `normalize_tracks`: one record per item, at the item's position; an item without a
      track becomes a placeholder marked unavailable. */
  function NormalizeTracks(items: seq<PlaylistItem>): (r: seq<NormalizedTrack>)
    ensures |r| == |items|
    ensures forall i :: 0 <= i < |r| ==> r[i].position == i && r[i].addedAt == items[i].addedAt
    ensures forall i :: 0 <= i < |r| ==> (r[i].available <==> items[i].track.Some?)
    ensures forall i :: 0 <= i < |r| && items[i].track.None? ==>
      && r[i].name == Some(UnavailableName) && r[i].id.None? && r[i].uri.None? && r[i].artists == []
      && r[i].album.None? && r[i].durationMs.None? && !r[i].isLocal && r[i].spotifyUrl.None?
      && r[i].addedBy.None? && r[i].explicit.None?
    ensures forall i :: 0 <= i < |r| && items[i].track.Some? ==>
      var t := items[i].track.value;
      && r[i].id == t.id && r[i].uri == t.uri && r[i].name == t.name && r[i].artists == t.artists
      && r[i].durationMs == t.durationMs && r[i].isLocal == t.isLocal && r[i].spotifyUrl == t.spotifyUrl
      && r[i].explicit == t.explicit && r[i].addedBy == items[i].addedBy
      && r[i].album.Some? && (t.album.Some? ==> r[i].album == t.album)
      && (t.album.None? ==> r[i].album == Some(Album(None, None)))
  {
    seq(|items|, i requires 0 <= i < |items| => NormalizeItem(items[i], i))
  }

  // ---------------------------------------------------------------------------------
  // The M3U file of a playlist
  // ---------------------------------------------------------------------------------

  const UnknownTitle: string := "Unknown Title"
  const ArtistSeparator: string := ", "

  /** Python `int(x)` of a float: truncation toward zero. */
  function TruncDiv(a: int, b: int): int
    requires b > 0
  {
    if a >= 0 then a / b else -((-a) / b)
  }

  /** The `#EXTINF` duration: whole seconds truncated toward zero, or -1 when the length
      is missing or zero. */
  function DurationSeconds(ms: Option<int>): (r: int)
    ensures (ms.None? || ms.value == 0) ==> r == -1
    ensures ms.Some? && ms.value > 0 ==> 0 <= r && r * 1000 <= ms.value < r * 1000 + 1000
    ensures ms.Some? && ms.value < 0 ==> r <= 0 && r * 1000 - 1000 < ms.value <= r * 1000
  {
    if ms.Some? && ms.value != 0 then TruncDiv(ms.value, 1000) else -1
  }

  /** Every artist of the track has a name, which `', '.join` needs. */
  predicate ArtistsNamed(t: NormalizedTrack) {
    forall k :: 0 <= k < |t.artists| ==> t.artists[k].name.Some?
  }

  function ArtistNames(artists: seq<Artist>): (r: seq<string>)
    requires forall k :: 0 <= k < |artists| ==> artists[k].name.Some?
    ensures |r| == |artists|
    ensures forall k :: 0 <= k < |r| ==> r[k] == artists[k].name.value
  {
    seq(|artists|, k requires 0 <= k < |artists| => artists[k].name.value)
  }

  function TrackTitle(t: NormalizedTrack): string {
    OrElse(t.name, UnknownTitle)
  }

  /** The text after the comma of the track's `#EXTINF` line: "artists - title", or just
      the title when the joined artist names are empty. */
  function TrackLabel(t: NormalizedTrack): (r: string)
    requires ArtistsNamed(t)
    ensures r != "" && EndsWith(r, TrackTitle(t))
    ensures t.artists == [] ==> r == TrackTitle(t)
    ensures var names := Join(ArtistNames(t.artists), ArtistSeparator);
      && (names != "" ==> r == names + M3u.ArtistTitleSeparator + TrackTitle(t))
      && (names == "" ==> r == TrackTitle(t))
  {
    var artists := Join(ArtistNames(t.artists), ArtistSeparator);
    if artists != "" then artists + " - " + TrackTitle(t) else TrackTitle(t)
  }

  /** The splitter's parser reads a label with artists back as those artists and the
      title, provided the joined names start and end with a letter or digit and hold no
      " - " of their own, and the title is already stripped. */
  lemma LabelSplitsBack(t: NormalizedTrack)
    requires ArtistsNamed(t)
    requires var a := Join(ArtistNames(t.artists), ArtistSeparator);
      a != "" && IsAlnum(a[0]) && IsAlnum(a[|a| - 1]) && !Contains(a, " - ")
    requires Strip(TrackTitle(t)) == TrackTitle(t)
    ensures M3u.SplitArtistTitle(TrackLabel(t)) == (Join(ArtistNames(t.artists), ArtistSeparator), TrackTitle(t))
  {
    M3u.ArtistTitleRoundTrip(Join(ArtistNames(t.artists), ArtistSeparator), TrackTitle(t));
  }

  /** The location line: the web URL, else the URI, else the title. */
  function TrackLocation(t: NormalizedTrack): (r: string)
    ensures Truthy(t.spotifyUrl) ==> r == t.spotifyUrl.value
    ensures !Truthy(t.spotifyUrl) && Truthy(t.uri) ==> r == t.uri.value
    ensures !Truthy(t.spotifyUrl) && !Truthy(t.uri) ==> r == TrackTitle(t)
    ensures r != ""
  {
    if Truthy(t.spotifyUrl) then t.spotifyUrl.value
    else if Truthy(t.uri) then t.uri.value
    else TrackTitle(t)
  }

  function TrackLines(t: NormalizedTrack): (r: seq<string>)
    requires ArtistsNamed(t)
    ensures |r| == 2
  {
    [M3u.ExtinfLine(DurationSeconds(t.durationMs), TrackLabel(t)), TrackLocation(t)]
  }

  /** Each track's pair of lines, in track order. */
  function TrackLinePairs(tracks: seq<NormalizedTrack>): (r: seq<seq<string>>)
    requires forall k :: 0 <= k < |tracks| ==> ArtistsNamed(tracks[k])
    ensures |r| == |tracks|
    ensures forall k :: 0 <= k < |tracks| ==> r[k] == TrackLines(tracks[k])
  {
    seq(|tracks|, k requires 0 <= k < |tracks| => TrackLines(tracks[k]))
  }

  function AllTrackLines(tracks: seq<NormalizedTrack>): seq<string>
    requires forall k :: 0 <= k < |tracks| ==> ArtistsNamed(tracks[k])
  {
    Batching.Flatten(TrackLinePairs(tracks))
  }

  /** Flattening pairs: pair `k` lands at positions `2k` and `2k + 1`. */
  lemma {:induction false} FlattenPairs<T>(xss: seq<seq<T>>)
    requires forall i :: 0 <= i < |xss| ==> |xss[i]| == 2
    ensures |Batching.Flatten(xss)| == 2 * |xss|
    ensures forall k :: 0 <= k < |xss| ==>
      Batching.Flatten(xss)[2 * k] == xss[k][0] && Batching.Flatten(xss)[2 * k + 1] == xss[k][1]
  {
    if |xss| > 0 {
      var rest := xss[1..];
      FlattenPairs(rest);
      var f := Batching.Flatten(xss);
      assert f == xss[0] + Batching.Flatten(rest);
      forall k | 1 <= k < |xss|
        ensures f[2 * k] == xss[k][0] && f[2 * k + 1] == xss[k][1]
      {
        assert rest[k - 1] == xss[k];
      }
    }
  }

  /** The lines `write_m3u` writes: the header, then an `#EXTINF` line and a location line
      per track, in track order. */
  function WriteM3uLines(tracks: seq<NormalizedTrack>): (r: seq<string>)
    requires forall k :: 0 <= k < |tracks| ==> ArtistsNamed(tracks[k])
    ensures |r| == 1 + 2 * |tracks| && r[0] == M3u.Header
    ensures forall k :: 0 <= k < |tracks| ==>
      r[1 + 2 * k] == M3u.ExtinfLine(DurationSeconds(tracks[k].durationMs), TrackLabel(tracks[k]))
      && r[2 + 2 * k] == TrackLocation(tracks[k])
  {
    FlattenPairs(TrackLinePairs(tracks));
    [M3u.Header] + AllTrackLines(tracks)
  }

  /** The file's text: the lines joined by newlines, plus a final newline, which is every
      line followed by its own newline. */
  function WriteM3uText(tracks: seq<NormalizedTrack>): (r: string)
    requires forall k :: 0 <= k < |tracks| ==> ArtistsNamed(tracks[k])
    ensures r == Unlines(WriteM3uLines(tracks))
  {
    JoinNewline(WriteM3uLines(tracks));
    Join(WriteM3uLines(tracks), "\n") + "\n"
  }

  /** The song the splitter's model would write the same two lines for. */
  function TrackSong(t: NormalizedTrack): M3u.Song
    requires ArtistsNamed(t)
  {
    M3u.Song(TrackLocation(t), "", "", DurationSeconds(t.durationMs), TrackLabel(t))
  }

  function TrackSongs(tracks: seq<NormalizedTrack>): (r: seq<M3u.Song>)
    requires forall k :: 0 <= k < |tracks| ==> ArtistsNamed(tracks[k])
    ensures |r| == |tracks|
    ensures forall k :: 0 <= k < |tracks| ==> r[k] == TrackSong(tracks[k])
  {
    seq(|tracks|, k requires 0 <= k < |tracks| => TrackSong(tracks[k]))
  }

  lemma {:induction false} AllTrackLinesAreSongLines(tracks: seq<NormalizedTrack>)
    requires forall k :: 0 <= k < |tracks| ==> ArtistsNamed(tracks[k])
    ensures AllTrackLines(tracks) == M3u.AllSongLines(TrackSongs(tracks))
    decreases |tracks|
  {
    if |tracks| > 0 {
      var songs := TrackSongs(tracks);
      assert M3u.AllSongLines(songs) == M3u.SongLines(TrackSong(tracks[0])) + M3u.AllSongLines(TrackSongs(tracks[1..])) by {
        assert songs[1..] == TrackSongs(tracks[1..]);
      }
      AllTrackLinesCons(tracks);
      TrackSongLines(tracks[0]);
      AllTrackLinesAreSongLines(tracks[1..]);
    }
  }

  lemma AllTrackLinesCons(tracks: seq<NormalizedTrack>)
    requires forall k :: 0 <= k < |tracks| ==> ArtistsNamed(tracks[k])
    requires |tracks| > 0
    ensures AllTrackLines(tracks) == TrackLines(tracks[0]) + AllTrackLines(tracks[1..])
  {
    var pairs := TrackLinePairs(tracks);
    assert pairs[1..] == TrackLinePairs(tracks[1..]);
  }

  /** A track's two lines are the lines a batch file holds for its song. */
  lemma TrackSongLines(t: NormalizedTrack)
    requires ArtistsNamed(t)
    ensures M3u.SongLines(TrackSong(t)) == TrackLines(t)
  {
    assert TrackLabel(t) != "";
  }

  /** The backup's M3U file has the layout of a splitter batch file: every track has
      non-empty metadata, so every track gets its `#EXTINF` line. */
  lemma BackupFileIsBatch(tracks: seq<NormalizedTrack>)
    requires forall k :: 0 <= k < |tracks| ==> ArtistsNamed(tracks[k])
    ensures WriteM3uLines(tracks) == M3u.BatchLines(TrackSongs(tracks))
  {
    AllTrackLinesAreSongLines(tracks);
  }

  /** Reading the backup's M3U file back with the splitter's parser gives one entry per
      track, with the written location, duration and label, provided the location and
      label survive the parser's stripping and hold no newline. */
  lemma BackupM3uReadsBack(tracks: seq<NormalizedTrack>)
    requires forall k :: 0 <= k < |tracks| ==> ArtistsNamed(tracks[k])
    requires forall k :: 0 <= k < |tracks| ==>
      && M3u.SafePath(TrackLocation(tracks[k])) && M3u.SafeMetadata(TrackLabel(tracks[k]))
      && M3u.NoNewline(TrackLocation(tracks[k])) && M3u.NoNewline(TrackLabel(tracks[k]))
    ensures var songs := M3u.ParseM3uText(WriteM3uText(tracks));
      && |songs| == |tracks|
      && forall k :: 0 <= k < |tracks| ==>
           && songs[k].path == TrackLocation(tracks[k])
           && songs[k].duration == DurationSeconds(tracks[k].durationMs)
           && songs[k].metadata == TrackLabel(tracks[k])
  {
    var songs := TrackSongs(tracks);
    assert M3u.ParseM3uText(WriteM3uText(tracks)) == M3u.RereadAll(songs) by {
      BackupTextIsBatchText(tracks);
    }
    forall k | 0 <= k < |tracks|
      ensures && M3u.RereadAll(songs)[k].path == TrackLocation(tracks[k])
              && M3u.RereadAll(songs)[k].duration == DurationSeconds(tracks[k].durationMs)
              && M3u.RereadAll(songs)[k].metadata == TrackLabel(tracks[k])
    {
      M3u.RereadPreserves(songs[k]);
    }
  }

  lemma BackupTextIsBatchText(tracks: seq<NormalizedTrack>)
    requires forall k :: 0 <= k < |tracks| ==> ArtistsNamed(tracks[k])
    requires forall k :: 0 <= k < |tracks| ==>
      && M3u.SafePath(TrackLocation(tracks[k])) && M3u.SafeMetadata(TrackLabel(tracks[k]))
      && M3u.NoNewline(TrackLocation(tracks[k])) && M3u.NoNewline(TrackLabel(tracks[k]))
    ensures M3u.ParseM3uText(WriteM3uText(tracks)) == M3u.RereadAll(TrackSongs(tracks))
  {
    var songs := TrackSongs(tracks);
    BackupFileIsBatch(tracks);
    JoinNewline(WriteM3uLines(tracks));
    assert forall k :: 0 <= k < |songs| ==> M3u.WritableSong(songs[k]);
    M3u.BatchTextRoundTrip(songs);
  }
}
