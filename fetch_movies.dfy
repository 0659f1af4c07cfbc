/**
  The latest-movies script's `main`: it loads the destination's existing hashes,
  asks the catalog for its most recently added movies, and submits for each
  movie either its first 2160p, 1080p and 720p torrents or just its first
  torrent, calling the destination once per request. Movies are counted as
  added or skipped.
 */
module FetchMovies {
  import opened Wrappers
  import opened Text
  import opened Catalog
  import opened Submission
  import opened MovieLoop

  /** The setting spells `true`, each letter in either ASCII case. */
  predicate SpellsTrue(value: string)
  {
    |value| == 4 && LowerChar(value[0]) == 't' && LowerChar(value[1]) == 'r' && LowerChar(value[2]) == 'u' && LowerChar(value[3]) == 'e'
  }

  /** `os.getenv("FETCH_ALL_QUALITIES", "true").lower() == "true"`. */
  function FetchAllQualities(setting: Option<string>): (all: bool)
    ensures all <==> setting.None? || SpellsTrue(setting.value)
  {
    var lowered := Lower(setting.GetOr("true"));
    assert lowered == "true" <==> |lowered| == 4 && lowered[0] == 't' && lowered[1] == 'r' && lowered[2] == 'u' && lowered[3] == 'e';
    lowered == "true"
  }

  /** Unset means true; the comparison ignores ASCII case, and any other value means false. */
  lemma FetchAllQualitiesExamples()
    ensures FetchAllQualities(None)
    ensures FetchAllQualities(Some("TRUE")) && FetchAllQualities(Some("True"))
    ensures !FetchAllQualities(Some("yes")) && !FetchAllQualities(Some("1")) && !FetchAllQualities(Some(""))
  {
    assert Lower("TRUE") == "true";
    assert Lower("True") == "true";
    assert |Lower("yes")| == 3;
    assert Lower("1")[0] == '1';
  }

  /** `torrents_to_add`: every preferred quality when fetching all qualities, otherwise the first torrent. */
  function LatestChoice(fetchAll: bool): Choice
  {
    if fetchAll then Preferred(LATEST_QUALITIES) else FirstOnly
  }

  /** How the run ends: no movies to process, or the summary of the movie loop. */
  datatype Summary = NoMovies | Summary(processed: nat, added: nat, skipped: nat)

  /**
    One pass of `for movie in movies`: the movie's chosen variants go through the
    variant loop, and the movie counts as added when one of them was accepted,
    as skipped otherwise (also when it had no torrent to submit).
   */
  method ProcessMovie(choice: Choice, dest: Destination, initial: set<string>,
                      existing: set<string>, trace: seq<Entry>, processed: seq<Movie>, movieAdded: seq<bool>,
                      addedCount: nat, skippedCount: nat, movie: Movie)
    returns (existing': set<string>, trace': seq<Entry>, movieAdded': seq<bool>, addedCount': nat, skippedCount': nat)
    requires MovieLedger(LATEST_POLICY, dest, choice, initial, existing, trace, processed, movieAdded)
    requires addedCount == CountTrue(movieAdded) && skippedCount == CountFalse(movieAdded)
    ensures MovieLedger(LATEST_POLICY, dest, choice, initial, existing', trace', processed + [movie], movieAdded')
    ensures addedCount' == CountTrue(movieAdded') && skippedCount' == CountFalse(movieAdded')
  {
    var added, failed;
    existing', trace', added, failed := VisitMovie(LATEST_POLICY, dest, choice, initial, existing, trace, processed, movieAdded, movie);
    if added > 0 {
      addedCount', skippedCount' := addedCount + 1, skippedCount;
    } else {
      addedCount', skippedCount' := addedCount, skippedCount + 1;
    }
    movieAdded' := movieAdded + [added > 0];
  }

  /**
    `main` after the token check: load the destination's hashes, fetch the
    latest movies, stop when there are none, and otherwise run every movie
    through the variant loop, counting it as added when one of its variants was
    accepted and as skipped otherwise.
   */
  method Run(fetchAll: bool, listing: seq<string>, reply: PageResponse, dest: Destination)
    returns (summary: Summary, existing: set<string>, trace: seq<Entry>, movieAdded: seq<bool>)
    ensures summary.NoMovies? <==> GetLatestMovies(reply) == []
    ensures summary.NoMovies? ==> existing == LoadIndex(listing) && trace == [] && movieAdded == []
    ensures MovieLedger(LATEST_POLICY, dest, LatestChoice(fetchAll), LoadIndex(listing), existing, trace,
                        GetLatestMovies(reply), movieAdded)
    ensures summary.Summary? ==>
      && summary.processed == |GetLatestMovies(reply)|
      && summary.added == CountTrue(movieAdded)
      && summary.skipped == CountFalse(movieAdded)
      && summary.added + summary.skipped == summary.processed
  {
    var choice := LatestChoice(fetchAll);
    var initial := LoadIndex(listing);
    existing, trace, movieAdded := initial, [], [];
    EmptyMovieLedger(LATEST_POLICY, dest, choice, initial);
    var movies := GetLatestMovies(reply);
    if movies == [] {
      return NoMovies, existing, trace, movieAdded;
    }
    var addedCount, skippedCount := 0, 0;
    for j := 0 to |movies|
      invariant MovieLedger(LATEST_POLICY, dest, choice, initial, existing, trace, movies[..j], movieAdded)
      invariant addedCount == CountTrue(movieAdded) && skippedCount == CountFalse(movieAdded)
    {
      existing, trace, movieAdded, addedCount, skippedCount :=
        ProcessMovie(choice, dest, initial, existing, trace, movies[..j], movieAdded, addedCount, skippedCount, movies[j]);
      TakeStep(movies, j);
    }
    TakeStep(movies, |movies|);
    FlagsPartition(movieAdded);
    summary := Summary(|movies|, addedCount, skippedCount);
  }
}
