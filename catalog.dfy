/**
  The upstream movie catalog: one page of the listing API, the page-count
  arithmetic, and choosing which quality variants of a movie to submit.
 */
module Catalog {
  import opened Wrappers

  /**
    One quality variant of a movie: its `quality` label (None when the field is
    missing, as `torrent.get` returns it), its info `hash` (a missing hash reads
    as "", the default the scripts give) and its `size`.
   */
  datatype Torrent = Torrent(quality: Option<string>, hash: string, size: string)

  /** A catalog entry: `title` (default "Unknown"), `year` as printed (default ""), and its `torrents`. */
  datatype Movie = Movie(title: string, year: string, torrents: seq<Torrent>)

  /**
    The reply to one listing request: the request failed (transport error, non-2xx
    status), or a JSON body with its status flag, its `movies` array, and the
    optional `movie_count` and echoed `limit` fields.
   */
  datatype PageResponse =
    | RequestFailed
    | Reply(statusOk: bool, movies: seq<Movie>, movieCount: Option<int>, limit: Option<int>)

  /** `get_movies_page` either raises (a zero echoed limit) or returns the movies and the page count. */
  datatype PageOutcome = Raised | Fetched(movies: seq<Movie>, pageCount: int)

  /** The listing API's largest page. */
  const MAX_PAGE_SIZE: int := 50
  /** The `limit` default of `get_movies_page`. */
  const DEFAULT_LIMIT: int := 50

  /** `min(limit, 50)`: the page size actually requested. */
  function RequestedPageSize(limit: int): (r: int)
    ensures r <= MAX_PAGE_SIZE
    ensures r == limit || r == MAX_PAGE_SIZE
    ensures limit <= MAX_PAGE_SIZE ==> r == limit
  {
    if limit < MAX_PAGE_SIZE then limit else MAX_PAGE_SIZE
  }

  /** bulk_fetch.py calls `get_movies_page` with its default limit, so every request asks for a full page of 50. */
  lemma ScriptRequestsFullPages()
    ensures RequestedPageSize(DEFAULT_LIMIT) == MAX_PAGE_SIZE == 50
  {
  }

  /** Python's `//`, which rounds toward negative infinity (Dafny's `/` is Euclidean). */
  function FloorDiv(a: int, b: int): int
    requires b != 0
  {
    if b > 0 then a / b else (-a) / (-b)
  }

  /** FloorDiv(a, b) is the largest q with b * q <= a for b > 0, and the smallest q with b * q >= a for b < 0. */
  lemma FloorDivBounds(a: int, b: int)
    requires b != 0
    ensures var q := FloorDiv(a, b);
      && (b > 0 ==> b * q <= a < b * q + b)
      && (b < 0 ==> b * q >= a > b * q + b)
  {
  }

  /** `(movie_count + limit - 1) // limit`: for a positive page size, some page exactly when some movie. */
  function PageCount(movieCount: int, limit: int): (n: int)
    requires limit != 0
    ensures limit > 0 ==> (n > 0 <==> movieCount > 0)
    ensures limit > 0 && movieCount >= 0 ==> n <= movieCount
  {
    FloorDivBounds(movieCount + limit - 1, limit);
    FloorDiv(movieCount + limit - 1, limit)
  }

  /** For a positive page size the formula is the ceiling of movieCount / limit. */
  lemma PageCountIsCeiling(movieCount: int, limit: int)
    requires limit > 0
    ensures var n := PageCount(movieCount, limit);
      limit * (n - 1) < movieCount <= limit * n
  {
    var n := PageCount(movieCount, limit);
    FloorDivBounds(movieCount + limit - 1, limit);
    assert limit * n <= movieCount + limit - 1 < limit * n + limit;
    assert limit * (n - 1) == limit * n - limit;
  }

  /** 1001 movies in pages of 50 make 21 pages; 1000 make 20. */
  lemma PageCountExamples()
    ensures PageCount(1001, 50) == 21
    ensures PageCount(1000, 50) == 20
    ensures PageCount(0, 50) == 0
  {
  }

  /** `YTSFetcher.get_movies_page` given the reply to its request. */
  function GetMoviesPage(reply: PageResponse): (r: PageOutcome)
    ensures r.Raised? <==> reply.Reply? && reply.statusOk && reply.movies != [] && reply.limit.GetOr(DEFAULT_LIMIT) == 0
    ensures r.Fetched? && r.movies != [] ==>
      && reply.Reply? && reply.statusOk && r.movies == reply.movies
      && r.pageCount == PageCount(reply.movieCount.GetOr(0), reply.limit.GetOr(DEFAULT_LIMIT))
    ensures r.Fetched? && r.movies == [] ==> r.pageCount == 0
    ensures r.Fetched? && r.movies == [] <==> !(reply.Reply? && reply.statusOk && reply.movies != [])
  {
    match reply
    case RequestFailed => Fetched([], 0)
    case Reply(statusOk, movies, movieCount, limit) =>
      if statusOk && movies != [] then
        var echoed := limit.GetOr(DEFAULT_LIMIT);
        if echoed == 0 then Raised
        else Fetched(movies, PageCount(movieCount.GetOr(0), echoed))
      else Fetched([], 0)
  }

  /** `get_latest_movies` of the latest-movies script: the movies of a good reply, otherwise []. */
  function GetLatestMovies(reply: PageResponse): (movies: seq<Movie>)
    ensures movies != [] <==> reply.Reply? && reply.statusOk && reply.movies != []
    ensures movies != [] ==> movies == reply.movies
  {
    if reply.Reply? && reply.statusOk && reply.movies != [] then reply.movies else []
  }

  // ---------------------------------------------------------------------------
  // Variant selection

  /** The index of the first torrent labelled `quality`. */
  function FindQuality(torrents: seq<Torrent>, quality: string): (r: Option<nat>)
    ensures r.None? <==> forall j :: 0 <= j < |torrents| ==> torrents[j].quality != Some(quality)
    ensures r.Some? ==> r.value < |torrents| && torrents[r.value].quality == Some(quality)
    ensures r.Some? ==> forall j :: 0 <= j < r.value ==> torrents[j].quality != Some(quality)
  {
    if torrents == [] then None
    else if torrents[0].quality == Some(quality) then Some(0)
    else match FindQuality(torrents[1..], quality)
      case None => None
      case Some(i) => Some(i + 1)
  }

  /** For each preferred label in order, the first torrent with that label, if any. */
  function Selection(torrents: seq<Torrent>, preferred: seq<string>): seq<Torrent>
  {
    if preferred == [] then []
    else
      var init := Selection(torrents, preferred[..|preferred| - 1]);
      match FindQuality(torrents, preferred[|preferred| - 1])
      case Some(i) => init + [torrents[i]]
      case None => init
  }

  /** The nested loops with `break` that build `torrents_to_add`. */
  method SelectVariants(torrents: seq<Torrent>, preferred: seq<string>) returns (chosen: seq<Torrent>)
    ensures chosen == Selection(torrents, preferred)
  {
    chosen := [];
    for p := 0 to |preferred|
      invariant chosen == Selection(torrents, preferred[..p])
    {
      var quality := preferred[p];
      assert preferred[..p + 1][..p] == preferred[..p];
      var i := 0;
      while i < |torrents|
        invariant 0 <= i <= |torrents|
        invariant forall j :: 0 <= j < i ==> torrents[j].quality != Some(quality)
      {
        if torrents[i].quality == Some(quality) {
          chosen := chosen + [torrents[i]];
          break;
        }
        i := i + 1;
      }
    }
    assert preferred[..|preferred|] == preferred;
  }

  /** The preferred labels, in preference order, that some torrent carries. */
  function AvailableLabels(torrents: seq<Torrent>, preferred: seq<string>): seq<string>
  {
    if preferred == [] then []
    else
      var init := AvailableLabels(torrents, preferred[..|preferred| - 1]);
      if FindQuality(torrents, preferred[|preferred| - 1]).Some? then init + [preferred[|preferred| - 1]] else init
  }

  /**
    The selection holds one torrent per available preferred label, in preference
    order, and each is the first torrent of the movie with that label.
   */
  lemma {:induction false} SelectionMeaning(torrents: seq<Torrent>, preferred: seq<string>)
    ensures var sel := Selection(torrents, preferred);
      var labels := AvailableLabels(torrents, preferred);
      && |sel| == |labels| <= |preferred|
      && forall k :: 0 <= k < |sel| ==>
           && FindQuality(torrents, labels[k]).Some?
           && sel[k] == torrents[FindQuality(torrents, labels[k]).value]
           && sel[k].quality == Some(labels[k])
  {
    if preferred != [] {
      SelectionMeaning(torrents, preferred[..|preferred| - 1]);
    }
  }

  /** Every selected torrent carries a preferred label. */
  lemma {:induction false} SelectionLabelsPreferred(torrents: seq<Torrent>, preferred: seq<string>)
    ensures forall t :: t in Selection(torrents, preferred) ==> t in torrents && t.quality.Some? && t.quality.value in preferred
  {
    if preferred != [] {
      SelectionLabelsPreferred(torrents, preferred[..|preferred| - 1]);
    }
  }

  /** Nothing is selected exactly when no torrent carries a preferred label. */
  lemma {:induction false} SelectionEmptyIff(torrents: seq<Torrent>, preferred: seq<string>)
    ensures Selection(torrents, preferred) == [] <==>
      forall j, p :: 0 <= j < |torrents| && 0 <= p < |preferred| ==> torrents[j].quality != Some(preferred[p])
  {
    if preferred != [] {
      var init := preferred[..|preferred| - 1];
      SelectionEmptyIff(torrents, init);
      forall p | 0 <= p < |preferred| - 1 ensures preferred[p] == init[p] {
      }
    }
  }

  /** The movie scripts' preference lists. */
  const BULK_QUALITIES: seq<string> := ["2160p", "1080p"]
  const LATEST_QUALITIES: seq<string> := ["2160p", "1080p", "720p"]

  /** With ["2160p", "1080p"], a movie with 720p, 1080p and 2160p variants gets its 2160p and then its 1080p variant. */
  lemma SelectionPrefersHigher(a: string, b: string, c: string)
    ensures var t720 := Torrent(Some("720p"), a, ""); var t1080 := Torrent(Some("1080p"), b, ""); var t2160 := Torrent(Some("2160p"), c, "");
      Selection([t720, t1080, t2160], BULK_QUALITIES) == [t2160, t1080]
  {
    var t720 := Torrent(Some("720p"), a, "");
    var t1080 := Torrent(Some("1080p"), b, "");
    var t2160 := Torrent(Some("2160p"), c, "");
    var all := [t720, t1080, t2160];
    assert "1080p"[0] != "2160p"[0] && |"720p"| != |"2160p"| && |"720p"| != |"1080p"|;
    assert all[0].quality != Some("2160p") && all[1].quality != Some("2160p") && all[2].quality == Some("2160p");
    assert FindQuality(all, "2160p") == Some(2);
    assert all[0].quality != Some("1080p") && all[1].quality == Some("1080p");
    assert FindQuality(all, "1080p") == Some(1);
    assert BULK_QUALITIES[..1] == ["2160p"] && ["2160p"][..0] == [];
    assert Selection(all, ["2160p"]) == [t2160];
  }

  /** A 720p-only movie gets nothing from the bulk list and its 720p variant from the latest-movies list. */
  lemma SelectionOf720pOnly(a: string)
    ensures var t720 := Torrent(Some("720p"), a, "");
      && Selection([t720], BULK_QUALITIES) == []
      && Selection([t720], LATEST_QUALITIES) == [t720]
  {
    var t720 := Torrent(Some("720p"), a, "");
    assert FindQuality([t720], "2160p") == None;
    assert FindQuality([t720], "1080p") == None;
    assert FindQuality([t720], "720p") == Some(0);
    assert BULK_QUALITIES[..1] == ["2160p"] && ["2160p"][..0] == [];
    assert Selection([t720], ["2160p"]) == [];
    assert LATEST_QUALITIES[..2] == BULK_QUALITIES;
  }
}
