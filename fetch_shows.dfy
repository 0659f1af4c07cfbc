/**
  The episode script: it reads a ShowRSS feed, keeps the items whose magnet
  link carries an info hash, and submits every episode whose hash the
  destination does not hold yet, retrying rate-limited adds. Each episode is
  counted as added, skipped (already present) or failed.
 */
module FetchShows {
  import opened Wrappers
  import opened Text
  import opened Magnet
  import opened Submission

  // ---------------------------------------------------------------------------
  // The feed

  /** A child element of a feed item: missing, or present with its text (which may be None). */
  datatype Element = Absent | Present(text: Option<string>)

  /** One `<item>` of the feed: its `title`, `link` and `pubDate` children. */
  datatype FeedItem = FeedItem(title: Element, link: Element, pubDate: Element)

  /** The feed as the script gets it: unavailable (request or XML error) or its items in document order. */
  datatype FeedReply = Unavailable | Feed(items: seq<FeedItem>)

  /** One episode record: title, magnet link, extracted hash and publication date. */
  datatype Episode = Episode(title: Option<string>, magnet: string, hash: string, pubDate: Option<string>)

  /** What `parse_rss_feed` does: raise a TypeError (a link element without text), or return the episodes. */
  datatype FeedParse = TypeErrorRaised | Parsed(episodes: seq<Episode>)

  /** The item has both a title and a link element, so its link is searched for a hash. */
  predicate Candidate(item: FeedItem)
  {
    item.title.Present? && item.link.Present?
  }

  /** Searching the link raises: `re.search` is handed the `None` text of an empty link element. */
  predicate Breaks(item: FeedItem)
  {
    Candidate(item) && item.link.text.None?
  }

  /** The item becomes an episode: a title, a link with text, and a hash in that text. */
  predicate Keeps(item: FeedItem)
  {
    Candidate(item) && item.link.text.Some? && ExtractMagnetHash(item.link.text.value).Some?
  }

  /** The publication date, `"Unknown"` when the element is missing. */
  function PubDate(e: Element): (d: Option<string>)
    ensures e.Absent? ==> d == Some("Unknown")
    ensures e.Present? ==> d == e.text
  {
    match e
    case Absent => Some("Unknown")
    case Present(text) => text
  }

  function EpisodeOf(item: FeedItem): (e: Episode)
    requires Keeps(item)
    ensures e.magnet == item.link.text.value && Some(e.hash) == ExtractMagnetHash(e.magnet)
    ensures e.hash != "" && IsHex(e.hash) && IsLowerCase(e.hash)
  {
    var link := item.link.text.value;
    Episode(item.title.text, link, ExtractMagnetHash(link).value, PubDate(item.pubDate))
  }

  /** The loop of `parse_rss_feed` over the first n items, in document order. */
  function ParseUpTo(items: seq<FeedItem>, n: nat): FeedParse
    requires n <= |items|
  {
    if n == 0 then Parsed([])
    else
      var item := items[n - 1];
      match ParseUpTo(items, n - 1)
      case TypeErrorRaised => TypeErrorRaised
      case Parsed(episodes) =>
        if Breaks(item) then TypeErrorRaised
        else if Keeps(item) then Parsed(episodes + [EpisodeOf(item)])
        else Parsed(episodes)
  }

  /** `parse_rss_feed`: no episodes when the feed cannot be fetched or parsed. */
  function FeedEpisodes(reply: FeedReply): FeedParse
  {
    match reply
    case Unavailable => Parsed([])
    case Feed(items) => ParseUpTo(items, |items|)
  }

  /** The parse raises exactly when some candidate item has a link element without text. */
  lemma {:induction false} ParseRaisesIff(items: seq<FeedItem>, n: nat)
    requires n <= |items|
    ensures ParseUpTo(items, n).TypeErrorRaised? <==> exists i :: 0 <= i < n && Breaks(items[i])
  {
    if n > 0 {
      ParseRaisesIff(items, n - 1);
    }
  }

  /** The positions among the first n items of those that become episodes, in document order. */
  function KeptPositions(items: seq<FeedItem>, n: nat): (ps: seq<nat>)
    requires n <= |items|
    ensures forall k :: 0 <= k < |ps| ==> ps[k] < n && Keeps(items[ps[k]])
    ensures forall k, l :: 0 <= k < l < |ps| ==> ps[k] < ps[l]
  {
    if n == 0 then []
    else if Keeps(items[n - 1]) then KeptPositions(items, n - 1) + [n - 1]
    else KeptPositions(items, n - 1)
  }

  /** Every item that becomes an episode is listed among the kept positions. */
  lemma {:induction false} KeptPositionsComplete(items: seq<FeedItem>, n: nat)
    requires n <= |items|
    ensures forall i :: 0 <= i < n && Keeps(items[i]) ==> i in KeptPositions(items, n)
  {
    if n > 0 {
      KeptPositionsComplete(items, n - 1);
    }
  }

  /**
    Without a raise, the episodes are exactly the kept items, in feed order: the
    k-th episode comes from the k-th item that has a title, a link and a hash
    in the link (and every such item is kept, by KeptPositionsComplete).
   */
  lemma {:induction false} ParsedEpisodesAreKeptItems(items: seq<FeedItem>, n: nat)
    requires n <= |items| && ParseUpTo(items, n).Parsed?
    ensures var episodes := ParseUpTo(items, n).episodes; var ps := KeptPositions(items, n);
      && |episodes| == |ps|
      && (forall k :: 0 <= k < |ps| ==> episodes[k] == EpisodeOf(items[ps[k]]))
  {
    if n > 0 {
      ParsedEpisodesAreKeptItems(items, n - 1);
      var episodes0 := ParseUpTo(items, n - 1).episodes;
      var ps0 := KeptPositions(items, n - 1);
      if Keeps(items[n - 1]) {
        assert ParseUpTo(items, n).episodes == episodes0 + [EpisodeOf(items[n - 1])];
        assert KeptPositions(items, n) == ps0 + [n - 1];
      } else {
        assert ParseUpTo(items, n).episodes == episodes0;
        assert KeptPositions(items, n) == ps0;
      }
    }
  }

  /** Every episode carries a non-empty lower-case hex hash, the one its own link yields. */
  lemma EpisodeHashes(items: seq<FeedItem>)
    requires ParseUpTo(items, |items|).Parsed?
    ensures forall e :: e in ParseUpTo(items, |items|).episodes ==>
      e.hash != "" && IsHex(e.hash) && IsLowerCase(e.hash) && ExtractMagnetHash(e.magnet) == Some(e.hash)
  {
    ParsedEpisodesAreKeptItems(items, |items|);
  }

  /** `parse_rss_feed`: the loop over the items, appending each kept one. */
  method ParseFeed(reply: FeedReply) returns (r: FeedParse)
    ensures r == FeedEpisodes(reply)
  {
    if reply.Unavailable? {
      return Parsed([]);
    }
    var items := reply.items;
    var episodes: seq<Episode> := [];
    for j := 0 to |items|
      invariant ParseUpTo(items, j) == Parsed(episodes)
    {
      var item := items[j];
      if item.title.Present? && item.link.Present? {
        if item.link.text.None? {
          assert Breaks(items[j]);
          ParseRaisesIff(items, |items|);
          return TypeErrorRaised;
        }
        var hash := ExtractMagnetHash(item.link.text.value);
        if hash.Some? {
          episodes := episodes + [Episode(item.title.text, item.link.text.value, hash.value, PubDate(item.pubDate))];
        }
      }
    }
    r := Parsed(episodes);
  }

  // ---------------------------------------------------------------------------
  // The episode loop

  /** What happened to one episode. */
  datatype Fate = AlreadyPresent | Added | Failed

  /** The number of episodes with fate f. */
  function CountFate(fates: seq<Fate>, f: Fate): (n: nat)
    ensures n <= |fates|
  {
    if fates == [] then 0 else CountFate(fates[..|fates| - 1], f) + (if fates[|fates| - 1] == f then 1 else 0)
  }

  /** Every episode is counted exactly once: added, skipped or failed. */
  lemma {:induction false} FatesPartition(fates: seq<Fate>)
    ensures CountFate(fates, Added) + CountFate(fates, AlreadyPresent) + CountFate(fates, Failed) == |fates|
  {
    if fates != [] {
      FatesPartition(fates[..|fates| - 1]);
    }
  }

  /** Episode k went to `add_magnet`. */
  ghost predicate SubmittedEpisode(trace: seq<Entry>, k: nat)
  {
    exists i :: 0 <= i < |trace| && trace[i].item == k
  }

  /** Hash h was in the index when the loop reached episode k. */
  ghost predicate KnownBefore(initial: set<string>, trace: seq<Entry>, h: string, k: nat)
  {
    h in initial || exists i :: 0 <= i < |trace| && trace[i].added && trace[i].hash == h && trace[i].item < k
  }

  /** Each submission is of an episode already reached, with that episode's own hash and link, and its answer is the episode's fate. */
  ghost predicate EntriesFromEpisodes(episodes: seq<Episode>, trace: seq<Entry>, fates: seq<Fate>)
  {
    && |fates| <= |episodes|
    && forall i :: 0 <= i < |trace| ==>
         && trace[i].item < |fates| && trace[i].variant == 0
         && trace[i].hash == episodes[trace[i].item].hash && trace[i].magnet == episodes[trace[i].item].magnet
         && fates[trace[i].item] == (if trace[i].added then Added else Failed)
  }

  /** Submissions follow the feed order, one at most per episode. */
  ghost predicate InFeedOrder(trace: seq<Entry>)
  {
    forall i, j :: 0 <= i < j < |trace| ==> trace[i].item < trace[j].item
  }

  /** An episode was submitted exactly when it was not skipped. */
  ghost predicate SubmittedIffNotSkipped(trace: seq<Entry>, fates: seq<Fate>)
  {
    forall k :: 0 <= k < |fates| ==> (fates[k] != AlreadyPresent <==> SubmittedEpisode(trace, k))
  }

  /** Every skipped episode's hash was already in the index when it came up. */
  ghost predicate SkipsKnown(initial: set<string>, episodes: seq<Episode>, trace: seq<Entry>, fates: seq<Fate>)
    requires |fates| <= |episodes|
  {
    forall k :: 0 <= k < |fates| && fates[k] == AlreadyPresent ==> KnownBefore(initial, trace, episodes[k].hash, k)
  }

  /**
    What the episode loop keeps true after the first |fates| episodes: the
    dedup ledger; one submission at most per episode, in feed order, with the
    episode's own hash and link; an episode submitted exactly when it is not
    skipped, its fate the destination's answer; and every skipped episode's hash
    already in the index when it came up.
   */
  ghost predicate EpisodeLedger(dest: Destination, initial: set<string>, episodes: seq<Episode>,
                                existing: set<string>, trace: seq<Entry>, fates: seq<Fate>)
  {
    && LedgerValid(SHOWS_POLICY, dest, initial, existing, trace)
    && EntriesFromEpisodes(episodes, trace, fates)
    && InFeedOrder(trace)
    && SubmittedIffNotSkipped(trace, fates)
    && SkipsKnown(initial, episodes, trace, fates)
  }

  /** The three counters. */
  predicate CountsMatch(fates: seq<Fate>, added: nat, skipped: nat, failed: nat)
  {
    && added == CountFate(fates, Added)
    && skipped == CountFate(fates, AlreadyPresent)
    && failed == CountFate(fates, Failed)
  }

  lemma CountFateAppend(fates: seq<Fate>, f: Fate)
    ensures forall g :: CountFate(fates + [f], g) == CountFate(fates, g) + (if f == g then 1 else 0)
  {
    assert (fates + [f])[..|fates|] == fates;
  }

  /** Appending a fate keeps the earlier ones (a step of SkipEpisode and SubmitEpisode, which would be slow without it). */
  lemma FatesStep(fates: seq<Fate>, f: Fate)
    ensures forall k :: 0 <= k < |fates| ==> (fates + [f])[k] == fates[k]
    ensures (fates + [f])[|fates|] == f
  {
  }

  /** Appending a submission keeps the earlier ones (a step of SubmitEpisode, which would be slow without it). */
  lemma TraceStep(trace: seq<Entry>, e: Entry)
    ensures forall i :: 0 <= i < |trace| ==> (trace + [e])[i] == trace[i]
    ensures (trace + [e])[|trace|] == e
  {
  }

  lemma EntriesAfterSkip(episodes: seq<Episode>, trace: seq<Entry>, fates: seq<Fate>)
    requires EntriesFromEpisodes(episodes, trace, fates) && |fates| < |episodes|
    ensures EntriesFromEpisodes(episodes, trace, fates + [AlreadyPresent])
  {
    FatesStep(fates, AlreadyPresent);
  }

  lemma SubmittedAfterSkip(episodes: seq<Episode>, trace: seq<Entry>, fates: seq<Fate>)
    requires EntriesFromEpisodes(episodes, trace, fates) && SubmittedIffNotSkipped(trace, fates)
    ensures SubmittedIffNotSkipped(trace, fates + [AlreadyPresent])
  {
    FatesStep(fates, AlreadyPresent);
    assert !SubmittedEpisode(trace, |fates|);
  }

  lemma SkipsKnownAfterSkip(initial: set<string>, episodes: seq<Episode>, existing: set<string>,
                            trace: seq<Entry>, fates: seq<Fate>)
    requires existing == initial + AddedHashes(trace)
    requires EntriesFromEpisodes(episodes, trace, fates) && SkipsKnown(initial, episodes, trace, fates)
    requires |fates| < |episodes| && episodes[|fates|].hash in existing
    ensures SkipsKnown(initial, episodes, trace, fates + [AlreadyPresent])
  {
    var k := |fates|;
    var h := episodes[k].hash;
    FatesStep(fates, AlreadyPresent);
    if h !in initial {
      assert h in AddedHashes(trace);
      var i :| 0 <= i < |trace| && trace[i].added && trace[i].hash == h;
      assert KnownBefore(initial, trace, h, k);
    }
  }

  /** Skipping the next episode, whose hash is in the index, keeps the ledger. */
  lemma SkipEpisode(dest: Destination, initial: set<string>, episodes: seq<Episode>,
                    existing: set<string>, trace: seq<Entry>, fates: seq<Fate>)
    requires EpisodeLedger(dest, initial, episodes, existing, trace, fates)
    requires |fates| < |episodes| && episodes[|fates|].hash in existing
    ensures EpisodeLedger(dest, initial, episodes, existing, trace, fates + [AlreadyPresent])
  {
    EntriesAfterSkip(episodes, trace, fates);
    SubmittedAfterSkip(episodes, trace, fates);
    SkipsKnownAfterSkip(initial, episodes, existing, trace, fates);
  }

  lemma EntriesAfterSubmit(episodes: seq<Episode>, trace: seq<Entry>, fates: seq<Fate>, e: Entry)
    requires EntriesFromEpisodes(episodes, trace, fates) && |fates| < |episodes|
    requires e.item == |fates| && e.variant == 0 && e.hash == episodes[|fates|].hash && e.magnet == episodes[|fates|].magnet
    ensures EntriesFromEpisodes(episodes, trace + [e], fates + [if e.added then Added else Failed])
  {
    FatesStep(fates, if e.added then Added else Failed);
    TraceStep(trace, e);
  }

  lemma OrderAfterSubmit(episodes: seq<Episode>, trace: seq<Entry>, fates: seq<Fate>, e: Entry)
    requires EntriesFromEpisodes(episodes, trace, fates) && InFeedOrder(trace) && e.item == |fates|
    ensures InFeedOrder(trace + [e])
  {
    TraceStep(trace, e);
  }

  lemma SubmittedAfterSubmit(episodes: seq<Episode>, trace: seq<Entry>, fates: seq<Fate>, e: Entry)
    requires EntriesFromEpisodes(episodes, trace, fates) && SubmittedIffNotSkipped(trace, fates) && e.item == |fates|
    ensures SubmittedIffNotSkipped(trace + [e], fates + [if e.added then Added else Failed])
  {
    var t := trace + [e];
    var fs := fates + [if e.added then Added else Failed];
    FatesStep(fates, if e.added then Added else Failed);
    TraceStep(trace, e);
    forall j | 0 <= j < |fs| ensures fs[j] != AlreadyPresent <==> SubmittedEpisode(t, j) {
      if j < |fates| {
        if SubmittedEpisode(t, j) {
          var i :| 0 <= i < |t| && t[i].item == j;
          assert i < |trace|;
        }
        if SubmittedEpisode(trace, j) {
          var i :| 0 <= i < |trace| && trace[i].item == j;
          assert t[i] == trace[i];
        }
      } else {
        assert t[|trace|].item == j;
      }
    }
  }

  lemma SkipsKnownAfterSubmit(initial: set<string>, episodes: seq<Episode>, trace: seq<Entry>, fates: seq<Fate>, e: Entry)
    requires |fates| < |episodes| && SkipsKnown(initial, episodes, trace, fates)
    ensures SkipsKnown(initial, episodes, trace + [e], fates + [if e.added then Added else Failed])
  {
    FatesStep(fates, if e.added then Added else Failed);
    TraceStep(trace, e);
  }

  /** Submitting the next episode and recording the destination's answer keeps the ledger. */
  lemma SubmitEpisode(dest: Destination, initial: set<string>, episodes: seq<Episode>,
                      existing: set<string>, trace: seq<Entry>, fates: seq<Fate>, e: Entry)
    requires EpisodeLedger(dest, initial, episodes, existing, trace, fates)
    requires |fates| < |episodes| && episodes[|fates|].hash != "" && episodes[|fates|].hash !in existing
    requires e == Entry(|fates|, 0, episodes[|fates|].hash, episodes[|fates|].magnet, Succeeds(SHOWS_POLICY, dest, |trace|))
    ensures EpisodeLedger(dest, initial, episodes, if e.added then existing + {e.hash} else existing,
                          trace + [e], fates + [if e.added then Added else Failed])
  {
    LedgerAppend(SHOWS_POLICY, dest, initial, existing, trace, e);
    EntriesAfterSubmit(episodes, trace, fates, e);
    OrderAfterSubmit(episodes, trace, fates, e);
    SubmittedAfterSubmit(episodes, trace, fates, e);
    SkipsKnownAfterSubmit(initial, episodes, trace, fates, e);
  }

  /**
    One pass of `for episode in episodes`: an episode whose hash is already in
    the index is skipped; otherwise it is submitted with its own magnet link and
    counted as added, its hash joining the index, or as failed.
   */
  method ProcessEpisode(dest: Destination, initial: set<string>, episodes: seq<Episode>,
                        existing: set<string>, trace: seq<Entry>, fates: seq<Fate>,
                        added: nat, skipped: nat, failed: nat)
    returns (existing': set<string>, trace': seq<Entry>, fates': seq<Fate>, added': nat, skipped': nat, failed': nat)
    requires |fates| < |episodes| && episodes[|fates|].hash != ""
    requires EpisodeLedger(dest, initial, episodes, existing, trace, fates)
    requires CountsMatch(fates, added, skipped, failed)
    ensures EpisodeLedger(dest, initial, episodes, existing', trace', fates')
    ensures CountsMatch(fates', added', skipped', failed')
    ensures |fates'| == |fates| + 1
  {
    var episode := episodes[|fates|];
    if episode.hash in existing {
      SkipEpisode(dest, initial, episodes, existing, trace, fates);
      CountFateAppend(fates, AlreadyPresent);
      return existing, trace, fates + [AlreadyPresent], added, skipped + 1, failed;
    }
    var ok := Submit(SHOWS_POLICY, dest, |trace|);
    var e := Entry(|fates|, 0, episode.hash, episode.magnet, ok);
    SubmitEpisode(dest, initial, episodes, existing, trace, fates, e);
    trace' := trace + [e];
    if ok {
      CountFateAppend(fates, Added);
      existing', fates', added', skipped', failed' := existing + {episode.hash}, fates + [Added], added + 1, skipped, failed;
    } else {
      CountFateAppend(fates, Failed);
      existing', fates', added', skipped', failed' := existing, fates + [Failed], added, skipped, failed + 1;
    }
  }

  /** How the script ends: the parse raised, the feed had no episodes, or the summary. */
  datatype Outcome = Crashed | NoEpisodes | Summary(processed: nat, added: nat, skipped: nat, failed: nat)

  /**
    `main` after the token check: load the destination's hashes, parse the feed,
    stop when it has no episodes, and otherwise run every episode through the
    loop, counting each as added, skipped or failed.
   */
  method Run(listing: seq<string>, reply: FeedReply, dest: Destination)
    returns (outcome: Outcome, existing: set<string>, trace: seq<Entry>, fates: seq<Fate>)
    ensures outcome.Crashed? <==> FeedEpisodes(reply).TypeErrorRaised?
    ensures outcome.NoEpisodes? <==> FeedEpisodes(reply) == Parsed([])
    ensures !outcome.Summary? ==> existing == LoadIndex(listing) && trace == [] && fates == []
    ensures outcome.Summary? ==>
      var episodes := FeedEpisodes(reply).episodes;
      && EpisodeLedger(dest, LoadIndex(listing), episodes, existing, trace, fates)
      && |fates| == |episodes| == outcome.processed
      && CountsMatch(fates, outcome.added, outcome.skipped, outcome.failed)
      && outcome.added + outcome.skipped + outcome.failed == outcome.processed
  {
    var initial := LoadIndex(listing);
    existing, trace, fates := initial, [], [];
    var parse := ParseFeed(reply);
    if parse.TypeErrorRaised? {
      return Crashed, existing, trace, fates;
    }
    var episodes := parse.episodes;
    if episodes == [] {
      return NoEpisodes, existing, trace, fates;
    }
    assert forall e :: e in episodes ==> e.hash != "" by {
      if reply.Feed? {
        EpisodeHashes(reply.items);
      }
    }
    assert AddedHashes([]) == {};
    var added, skipped, failed := 0, 0, 0;
    while |fates| < |episodes|
      invariant EpisodeLedger(dest, initial, episodes, existing, trace, fates)
      invariant CountsMatch(fates, added, skipped, failed)
      decreases |episodes| - |fates|
    {
      assert episodes[|fates|] in episodes;
      existing, trace, fates, added, skipped, failed :=
        ProcessEpisode(dest, initial, episodes, existing, trace, fates, added, skipped, failed);
    }
    FatesPartition(fates);
    outcome := Summary(|episodes|, added, skipped, failed);
  }

  /**
    Once an episode is added, a later episode with the same hash is skipped as
    already present rather than submitted again.
   */
  lemma RepeatIsSkipped(dest: Destination, initial: set<string>, episodes: seq<Episode>,
                        existing: set<string>, trace: seq<Entry>, fates: seq<Fate>, a: nat, b: nat)
    requires EpisodeLedger(dest, initial, episodes, existing, trace, fates)
    requires a < b < |fates| && fates[a] == Added && episodes[b].hash == episodes[a].hash
    ensures fates[b] == AlreadyPresent
  {
    var i :| 0 <= i < |trace| && trace[i].item == a;
    assert trace[i].added;
    forall j | 0 <= j < |trace| ensures trace[j].item != b {
      if j < i {
        assert trace[j].item < a;
      } else if i < j {
        assert trace[j].hash != episodes[a].hash;
      }
    }
  }

  /** The hash of every added episode is in the index at the end of the loop. */
  lemma AddedEpisodesIndexed(dest: Destination, initial: set<string>, episodes: seq<Episode>,
                             existing: set<string>, trace: seq<Entry>, fates: seq<Fate>, k: nat)
    requires EpisodeLedger(dest, initial, episodes, existing, trace, fates)
    requires k < |fates| && fates[k] == Added
    ensures episodes[k].hash in existing
  {
    var i :| 0 <= i < |trace| && trace[i].item == k;
    assert trace[i].hash in AddedHashes(trace);
  }
}
