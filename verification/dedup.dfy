/** The deduplicator script: flag repeated track IDs, plan position-specific removals
    in descending order, and send them in chunks. */
module Deduplicator {
  import opened Common
  import opened Text
  import opened Batching
  import opened Spotify

  /** What the scan records for the first occurrence of an ID. */
  datatype FirstSeen = FirstSeen(position: nat, name: Option<string>, artists: seq<Option<string>>)

  /** `find_duplicates`' result: the first occurrence of each ID and the positions of repeats. */
  datatype Scan = Scan(unique: map<Option<string>, FirstSeen>, duplicates: seq<nat>)

  function IdAt(items: seq<PlaylistItem>, p: int): Option<string>
    requires HasTrack(items, p)
  {
    items[p].track.value.id
  }

  /** Position `p` holds a track whose ID (possibly null) some earlier track already has. */
  ghost predicate IsRepeat(items: seq<PlaylistItem>, p: int) {
    HasTrack(items, p) && exists q :: 0 <= q < p && HasTrack(items, q) && IdAt(items, q) == IdAt(items, p)
  }

  /** Position `p` is the first track carrying `id`. */
  ghost predicate IsFirstOf(items: seq<PlaylistItem>, p: int, id: Option<string>) {
    HasTrack(items, p) && IdAt(items, p) == id
    && forall q :: 0 <= q < p && HasTrack(items, q) ==> IdAt(items, q) != id
  }

  predicate StrictlyIncreasing(xs: seq<nat>) {
    forall i, j :: 0 <= i < j < |xs| ==> xs[i] < xs[j]
  }

  /** Number of items that hold a track. */
  function TrackCount(items: seq<PlaylistItem>): nat
  {
    if |items| == 0 then 0
    else TrackCount(items[..|items| - 1]) + (if items[|items| - 1].track.Some? then 1 else 0)
  }

  function ArtistNames(t: Track): seq<Option<string>>
  {
    seq(|t.artists|, i requires 0 <= i < |t.artists| => t.artists[i].name)
  }

  /** `find_duplicates`: one pass over the items, left to right. Flagged positions are
      strictly increasing and in range, and every track is either the first of its ID
      (a key of `unique`) or flagged. */
  function FindDuplicates(items: seq<PlaylistItem>): (r: Scan)
    ensures StrictlyIncreasing(r.duplicates)
    ensures forall k :: 0 <= k < |r.duplicates| ==> r.duplicates[k] < |items|
    ensures |r.unique| + |r.duplicates| == TrackCount(items)
    decreases |items|
  {
    if |items| == 0 then Scan(map[], [])
    else
      var prev := FindDuplicates(items[..|items| - 1]);
      var p := |items| - 1;
      match items[p].track
      case None => prev
      case Some(t) =>
        if t.id in prev.unique then Scan(prev.unique, prev.duplicates + [p])
        else Scan(prev.unique[t.id := FirstSeen(p, t.name, ArtistNames(t))], prev.duplicates)
  }

  lemma PrefixFacts(items: seq<PlaylistItem>)
    requires |items| > 0
    ensures var init := items[..|items| - 1];
      && (forall q :: HasTrack(init, q) <==> (q < |items| - 1 && HasTrack(items, q)))
      && (forall q :: HasTrack(init, q) ==> IdAt(init, q) == IdAt(items, q))
  {
  }

  /** A position is flagged exactly when its track's ID (null included) occurs in a track
      at an earlier position; items without a track are never flagged. */
  lemma {:induction false} FlagsExactlyRepeats(items: seq<PlaylistItem>)
    ensures forall p :: p in FindDuplicates(items).duplicates <==> (0 <= p < |items| && IsRepeat(items, p))
    decreases |items|
  {
    if |items| > 0 {
      var init := items[..|items| - 1];
      var last := |items| - 1;
      FlagsExactlyRepeats(init);
      var prev := FindDuplicates(init);
      var dups := FindDuplicates(items).duplicates;
      assert forall p :: p in dups <==> p in prev.duplicates || (p == last && LastIsFlagged(items)) by {
        LastFlagStep(items);
      }
      forall p ensures p in dups <==> (0 <= p < |items| && IsRepeat(items, p)) {
        if 0 <= p < last {
          RepeatInPrefix(items, p);
        } else if p == last {
          LastFlagged(items);
        }
      }
    }
  }

  /** The scan flags the last item: it holds a track whose ID is already a key. */
  predicate LastIsFlagged(items: seq<PlaylistItem>)
    requires |items| > 0
  {
    var t := items[|items| - 1].track;
    t.Some? && t.value.id in FindDuplicates(items[..|items| - 1]).unique
  }

  lemma LastFlagStep(items: seq<PlaylistItem>)
    requires |items| > 0
    ensures var prev := FindDuplicates(items[..|items| - 1]);
      forall p :: p in FindDuplicates(items).duplicates <==>
        p in prev.duplicates || (p == |items| - 1 && LastIsFlagged(items))
  {
    var prev := FindDuplicates(items[..|items| - 1]);
    assert forall p :: p in prev.duplicates ==> p < |items| - 1;
  }

  /** Whether an earlier position repeats an ID does not depend on later items. */
  lemma RepeatInPrefix(items: seq<PlaylistItem>, p: int)
    requires 0 <= p < |items| - 1
    ensures IsRepeat(items[..|items| - 1], p) <==> IsRepeat(items, p)
  {
    var init := items[..|items| - 1];
    PrefixFacts(items);
    if IsRepeat(items, p) {
      var q :| 0 <= q < p && HasTrack(items, q) && IdAt(items, q) == IdAt(items, p);
      assert HasTrack(init, q);
    }
    if IsRepeat(init, p) {
      var q :| 0 <= q < p && HasTrack(init, q) && IdAt(init, q) == IdAt(init, p);
      assert HasTrack(items, q);
    }
  }

  /** The last item is flagged exactly when it repeats an earlier ID. */
  lemma LastFlagged(items: seq<PlaylistItem>)
    requires |items| > 0
    ensures LastIsFlagged(items) <==> IsRepeat(items, |items| - 1)
  {
    var init := items[..|items| - 1];
    var p := |items| - 1;
    PrefixFacts(items);
    var prev := FindDuplicates(init);
    match items[p].track {
      case None =>
      case Some(t) =>
        if t.id in prev.unique {
          assert IsRepeat(items, p) by {
            KeysAreFirsts(init);
            var q := prev.unique[t.id].position;
            assert HasTrack(init, q) && IdAt(init, q) == t.id;
          }
        } else {
          TrackIdsAreKeys(init);
          forall q | 0 <= q < p && HasTrack(items, q) ensures IdAt(items, q) != t.id {
            assert HasTrack(init, q);
          }
        }
    }
  }

  /** Every track's ID (null included) is a key of `unique`. */
  lemma {:induction false} TrackIdsAreKeys(items: seq<PlaylistItem>)
    ensures forall p :: HasTrack(items, p) ==> IdAt(items, p) in FindDuplicates(items).unique
    decreases |items|
  {
    if |items| > 0 {
      var init := items[..|items| - 1];
      TrackIdsAreKeys(init);
      PrefixFacts(items);
    }
  }

  /** `unique` maps each key to the position of the first track carrying it. */
  lemma {:induction false} KeysAreFirsts(items: seq<PlaylistItem>)
    ensures forall id :: id in FindDuplicates(items).unique ==>
      IsFirstOf(items, FindDuplicates(items).unique[id].position, id)
    decreases |items|
  {
    if |items| > 0 {
      var init := items[..|items| - 1];
      var p := |items| - 1;
      KeysAreFirsts(init);
      TrackIdsAreKeys(init);
      PrefixFacts(items);
      var prev := FindDuplicates(init);
      forall id | id in prev.unique ensures IsFirstOf(items, prev.unique[id].position, id) {
        FirstInPrefix(items, prev.unique[id].position, id);
      }
      match items[p].track {
        case None =>
        case Some(t) =>
          if t.id !in prev.unique {
            assert IsFirstOf(items, p, t.id) by {
              forall q | 0 <= q < p && HasTrack(items, q) ensures IdAt(items, q) != t.id {
                assert HasTrack(init, q);
              }
            }
          }
      }
    }
  }

  lemma FirstInPrefix(items: seq<PlaylistItem>, pos: int, id: Option<string>)
    requires |items| > 0 && IsFirstOf(items[..|items| - 1], pos, id)
    ensures IsFirstOf(items, pos, id)
  {
    var init := items[..|items| - 1];
    forall q | 0 <= q < pos && HasTrack(items, q) ensures IdAt(items, q) != id {
      assert HasTrack(init, q) && IdAt(init, q) == IdAt(items, q);
    }
  }

  predicate RecordsTrack(items: seq<PlaylistItem>, f: FirstSeen) {
    HasTrack(items, f.position)
    && f.name == items[f.position].track.value.name
    && f.artists == ArtistNames(items[f.position].track.value)
  }

  /** The name and artist names recorded for a key are those of the track at its position. */
  lemma {:induction false} KeysRecordDetails(items: seq<PlaylistItem>)
    ensures forall id :: id in FindDuplicates(items).unique ==>
      RecordsTrack(items, FindDuplicates(items).unique[id])
    decreases |items|
  {
    if |items| > 0 {
      var init := items[..|items| - 1];
      KeysRecordDetails(init);
      var prev := FindDuplicates(init);
      forall id | id in prev.unique ensures RecordsTrack(items, prev.unique[id]) {
        assert RecordsTrack(init, prev.unique[id]);
      }
    }
  }

  /** `unique` maps every track ID that occurs (null included) to the position of its first
      occurrence, with the name and artist names found there. */
  lemma FirstOccurrences(items: seq<PlaylistItem>)
    ensures var u := FindDuplicates(items).unique;
      && (forall id :: id in u ==> IsFirstOf(items, u[id].position, id))
      && (forall p :: HasTrack(items, p) ==> IdAt(items, p) in u)
      && (forall id :: id in u ==>
            u[id].name == items[u[id].position].track.value.name
            && u[id].artists == ArtistNames(items[u[id].position].track.value))
  {
    KeysAreFirsts(items);
    TrackIdsAreKeys(items);
    KeysRecordDetails(items);
    var u := FindDuplicates(items).unique;
    assert forall id :: id in u ==> RecordsTrack(items, u[id]);
  }

  /** The first occurrence of an ID is never flagged. */
  lemma FirstOccurrenceNotFlagged(items: seq<PlaylistItem>, id: Option<string>)
    requires id in FindDuplicates(items).unique
    ensures FindDuplicates(items).unique[id].position !in FindDuplicates(items).duplicates
  {
    FirstOccurrences(items);
    FlagsExactlyRepeats(items);
  }

  // ---------------------------------------------------------------------------
  // Removal planning

  predicate NonIncreasing(xs: seq<int>) {
    forall i, j :: 0 <= i < j < |xs| ==> xs[i] >= xs[j]
  }

  predicate StrictlyDecreasing(xs: seq<int>) {
    forall i, j :: 0 <= i < j < |xs| ==> xs[i] > xs[j]
  }

  predicate Distinct(xs: seq<int>) {
    forall i, j :: 0 <= i < j < |xs| ==> xs[i] != xs[j]
  }

  function Insert(x: int, s: seq<int>): (r: seq<int>)
    requires NonIncreasing(s)
    ensures NonIncreasing(r)
    ensures multiset(r) == multiset(s) + multiset{x}
  {
    if |s| == 0 then [x]
    else if x >= s[0] then [x] + s
    else
      var tail := Insert(x, s[1..]);
      assert s == [s[0]] + s[1..];
      BoundCarriesOver(s[1..], x, tail, s[0], false);
      [s[0]] + tail
  }

  /** A bound on every element of `s` and on `x` bounds every element of a permutation of
      `s` plus `x`; `strict` chooses `<` over `<=`. */
  lemma BoundCarriesOver(s: seq<int>, x: int, t: seq<int>, b: int, strict: bool)
    requires multiset(t) == multiset(s) + multiset{x}
    requires strict ==> x < b && forall k :: 0 <= k < |s| ==> s[k] < b
    requires !strict ==> x <= b && forall k :: 0 <= k < |s| ==> s[k] <= b
    ensures strict ==> forall k :: 0 <= k < |t| ==> t[k] < b
    ensures !strict ==> forall k :: 0 <= k < |t| ==> t[k] <= b
  {
    forall k | 0 <= k < |t| ensures if strict then t[k] < b else t[k] <= b {
      assert t[k] in multiset(t);
      assert t[k] == x || t[k] in multiset(s);
    }
  }

  /** Inserting a new value into a strictly decreasing sequence keeps it strictly decreasing. */
  lemma {:induction false} InsertStrict(x: int, s: seq<int>)
    requires StrictlyDecreasing(s) && x !in s
    ensures StrictlyDecreasing(Insert(x, s))
  {
    if |s| > 0 && x < s[0] {
      InsertStrict(x, s[1..]);
      var tail := Insert(x, s[1..]);
      assert s == [s[0]] + s[1..];
      BoundCarriesOver(s[1..], x, tail, s[0], true);
    }
  }

  /** `sorted(positions, reverse=True)`, as an insertion sort. */
  function SortDescending(xs: seq<int>): (r: seq<int>)
    ensures NonIncreasing(r)
    ensures multiset(r) == multiset(xs)
  {
    if |xs| == 0 then []
    else
      assert xs == [xs[0]] + xs[1..];
      Insert(xs[0], SortDescending(xs[1..]))
  }

  /** Sorting distinct positions gives a strictly decreasing order. */
  lemma {:induction false} SortDistinctStrict(xs: seq<int>)
    requires Distinct(xs)
    ensures StrictlyDecreasing(SortDescending(xs))
  {
    if |xs| > 0 {
      SortDistinctStrict(xs[1..]);
      var rest := SortDescending(xs[1..]);
      assert xs[0] !in xs[1..];
      assert xs[0] !in multiset(rest);
      InsertStrict(xs[0], rest);
    }
  }

  /** One removal request: remove the track with this URI at exactly this position. */
  datatype RemovalEntry = RemovalEntry(uri: string, position: nat)

  /** The position refers to an item whose track has a (non-empty) URI. */
  predicate Removable(items: seq<PlaylistItem>, pos: int) {
    HasTrack(items, pos) && Truthy(items[pos].track.value.uri)
  }

  /** The loop over sorted positions that keeps in-range positions whose track has a URI. */
  function RemovalPlan(items: seq<PlaylistItem>, positions: seq<int>): (r: seq<RemovalEntry>)
    ensures |r| <= |positions|
    ensures forall k :: 0 <= k < |r| ==>
      Removable(items, r[k].position) && r[k].uri == items[r[k].position].track.value.uri.value
  {
    if |positions| == 0 then []
    else
      var pos := positions[0];
      var rest := RemovalPlan(items, positions[1..]);
      if 0 <= pos < |items| && Removable(items, pos) then
        [RemovalEntry(items[pos].track.value.uri.value, pos)] + rest
      else rest
  }

  function Positions(plan: seq<RemovalEntry>): (r: seq<int>)
    ensures |r| == |plan|
  {
    seq(|plan|, i requires 0 <= i < |plan| => plan[i].position as int)
  }

  /** The plan lists, in the order given, exactly the removable positions among those given. */
  lemma {:induction false} RemovalPlanSelects(items: seq<PlaylistItem>, positions: seq<int>)
    ensures forall p :: p in Positions(RemovalPlan(items, positions)) <==> p in positions && Removable(items, p)
    ensures NonIncreasing(positions) ==> NonIncreasing(Positions(RemovalPlan(items, positions)))
    ensures StrictlyDecreasing(positions) ==> StrictlyDecreasing(Positions(RemovalPlan(items, positions)))
  {
    if |positions| > 0 {
      var rest := positions[1..];
      RemovalPlanSelects(items, rest);
      var plan := RemovalPlan(items, positions);
      var restPlan := RemovalPlan(items, rest);
      assert positions == [positions[0]] + rest;
      if Removable(items, positions[0]) {
        assert Positions(plan) == [positions[0]] + Positions(restPlan);
        if NonIncreasing(positions) {
          ConsKeepsOrder(positions[0], Positions(restPlan), rest, false);
        }
        if StrictlyDecreasing(positions) {
          ConsKeepsOrder(positions[0], Positions(restPlan), rest, true);
        }
      } else {
        assert plan == restPlan;
      }
    }
  }

  /** Putting the head of an ordered list in front of an ordered selection from its tail
      keeps the order; `strict` chooses strictly decreasing over non-increasing. */
  lemma ConsKeepsOrder(x: int, t: seq<int>, xs: seq<int>, strict: bool)
    requires forall p :: p in t ==> p in xs
    requires if strict then StrictlyDecreasing([x] + xs) && StrictlyDecreasing(t)
             else NonIncreasing([x] + xs) && NonIncreasing(t)
    ensures if strict then StrictlyDecreasing([x] + t) else NonIncreasing([x] + t)
  {
    forall k | 0 <= k < |t| ensures if strict then t[k] < x else t[k] <= x {
      assert t[k] in t;
      assert t[k] in xs;
      var j :| 0 <= j < |xs| && xs[j] == t[k];
      assert ([x] + xs)[0] == x && ([x] + xs)[j + 1] == t[k];
      if strict {
        assert StrictlyDecreasing([x] + xs);
      } else {
        assert NonIncreasing([x] + xs);
      }
    }
    forall i, j | 0 <= i < j < |[x] + t|
      ensures if strict then ([x] + t)[i] > ([x] + t)[j] else ([x] + t)[i] >= ([x] + t)[j]
    {
      if i > 0 {
        assert ([x] + t)[i] == t[i - 1] && ([x] + t)[j] == t[j - 1];
      } else {
        assert ([x] + t)[j] == t[j - 1];
      }
    }
  }

  /** `remove_duplicates`: an empty position list or an empty plan makes no call and returns 0;
      otherwise the plan, sorted by descending position, goes out in chunks of at most 100 and
      the result counts the entries of the calls that succeeded (`accepted` holds their indices). */
  method RemoveDuplicates(items: seq<PlaylistItem>, positions: seq<int>, accepted: set<nat>)
    returns (removed: nat, calls: seq<seq<RemovalEntry>>)
    ensures |positions| == 0 ==> removed == 0 && calls == []
    ensures calls == Chunks(RemovalPlan(items, SortDescending(positions)), ApiChunkSize)
    ensures removed == AcceptedTotal(calls, accepted)
    ensures Flatten(calls) == RemovalPlan(items, SortDescending(positions))
    ensures forall k :: 0 <= k < |calls| ==> 0 < |calls[k]| <= ApiChunkSize
    ensures removed <= |Flatten(calls)|
    ensures (forall k :: 0 <= k < |calls| ==> k in accepted) ==> removed == |Flatten(calls)|
  {
    if |positions| == 0 {
      return 0, [];
    }
    var sorted := SortDescending(positions);
    var plan := RemovalPlan(items, sorted);
    if |plan| == 0 {
      return 0, [];
    }
    removed, calls := SendInChunks(plan, ApiChunkSize, accepted);
  }

  /** The removal plan for the scan's own flagged positions: strictly descending, and exactly
      the flagged positions whose track has a URI, each entry carrying its own position's URI. */
  lemma DuplicatePlan(items: seq<PlaylistItem>)
    ensures var plan := RemovalPlan(items, SortDescending(FindDuplicates(items).duplicates));
      && StrictlyDecreasing(Positions(plan))
      && (forall p :: p in Positions(plan) <==> IsRepeat(items, p) && Removable(items, p))
  {
    var dups := FindDuplicates(items).duplicates;
    var ds: seq<int> := seq(|dups|, i requires 0 <= i < |dups| => dups[i] as int);
    assert ds == dups;
    var sorted := SortDescending(dups);
    SortDistinctStrict(dups);
    RemovalPlanSelects(items, sorted);
    FlagsExactlyRepeats(items);
    forall p ensures p in sorted <==> p in dups {
      assert p in sorted <==> p in multiset(sorted);
      assert p in dups <==> p in multiset(dups);
    }
  }

  // ---------------------------------------------------------------------------
  // Command-line argument

  /** The playlist argument: `arg.split('playlist/')[1].split('?')[0]` when the argument
      contains `spotify.com/playlist/`; anything else is used as given. */
  function PlaylistIdFromArgument(arg: string): (r: string)
    ensures !Contains(arg, "spotify.com/playlist/") ==> r == arg
    ensures Contains(arg, "spotify.com/playlist/") ==> !Contains(r, "?") && !Contains(r, "playlist/")
  {
    if Contains(arg, "spotify.com/playlist/") then
      PlaylistInUrl(arg);
      SplitAllLength(arg, "playlist/");
      var fields := SplitAll(arg, "playlist/");
      SplitAllFieldsLack(arg, "playlist/");
      var r := SplitAll(fields[1], "?")[0];
      SplitAllFieldsLack(fields[1], "?");
      SplitFirstIsPrefix(fields[1], "?");
      PrefixKeepsAbsence(fields[1], r, "playlist/");
      r
    else arg
  }

  /** A prefix of a text without `sub` has no `sub` either. */
  lemma PrefixKeepsAbsence(s: string, prefix: string, sub: string)
    requires |sub| > 0 && StartsWith(s, prefix) && !Contains(s, sub)
    ensures !Contains(prefix, sub)
  {
    if Contains(prefix, sub) {
      var k := IndexOf(prefix, sub).value;
      assert s[..|prefix|] == prefix;
      OccursInSlice(s, sub, 0, |prefix|, k);
      ContainsAt(s, sub, k);
    }
  }

  /** For a playlist URL the result is the text right after the first `playlist/`, cut at the
      next `?` or the next `playlist/`, whichever comes first: `arg == pre + "playlist/" + id + post`
      with no `playlist/` in `pre`, and `post` empty or starting with `?` or `playlist/`. */
  lemma PlaylistIdIsBetween(arg: string) returns (pre: string, post: string)
    requires Contains(arg, "spotify.com/playlist/")
    ensures arg == pre + "playlist/" + PlaylistIdFromArgument(arg) + post
    ensures !Contains(pre, "playlist/")
    ensures post == "" || StartsWith(post, "?") || StartsWith(post, "playlist/")
  {
    PlaylistInUrl(arg);
    var fields := SplitAll(arg, "playlist/");
    var tail1 := SplitSecondField(arg, "playlist/");
    var r := PlaylistIdFromArgument(arg);
    assert r == SplitAll(fields[1], "?")[0];
    var tail2 := SplitFirstField(fields[1], "?");
    pre := fields[0];
    post := tail2 + tail1;
    assert !Contains(pre, "playlist/") by {
      SplitAllFieldsLack(arg, "playlist/");
    }
    Regroup(pre + "playlist/", r, tail2, tail1);
    CutStartsPost(tail2, tail1);
  }

  lemma Regroup(a: string, b: string, c: string, d: string)
    ensures a + (b + c) + d == a + b + (c + d)
  {
    ConcatAssoc(a, b, c);
    ConcatAssoc(a + b, c, d);
  }

  /** What follows the ID starts with the `?` or `playlist/` that cut it, if anything. */
  lemma CutStartsPost(tail2: string, tail1: string)
    requires tail2 == "" || StartsWith(tail2, "?")
    requires tail1 == "" || StartsWith(tail1, "playlist/")
    ensures var post := tail2 + tail1;
      post == "" || StartsWith(post, "?") || StartsWith(post, "playlist/")
  {
    if tail2 != "" {
      assert (tail2 + tail1)[..1] == tail2[..1];
    } else {
      assert tail2 + tail1 == tail1;
    }
  }

  /** A text holding `spotify.com/playlist/` holds `playlist/`. */
  lemma PlaylistInUrl(arg: string)
    requires Contains(arg, "spotify.com/playlist/")
    ensures Contains(arg, "playlist/")
  {
    var k := IndexOf(arg, "spotify.com/playlist/").value;
    assert arg[k + 12..k + 21] == "spotify.com/playlist/"[12..21];
    assert OccursAt(arg, "playlist/", k + 12);
    ContainsAt(arg, "playlist/", k + 12);
  }
}
