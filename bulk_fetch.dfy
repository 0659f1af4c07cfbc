/**
  The bulk fetcher's `main`: it loads the destination's existing hashes, reads
  page 1 of the catalog for the page count, walks one batch of pages, submits
  the 2160p and 1080p variants of every listed movie that the destination does
  not hold yet, and overwrites `bulk_fetch_progress.txt` as it goes.
 */
module BulkFetch {
  import opened Wrappers
  import opened Text
  import opened Catalog
  import opened Submission
  import opened MovieLoop

  // ---------------------------------------------------------------------------
  // The batch of pages

  /** `START_PAGE`, `MAX_PAGES` (0 means all pages) and `BATCH_SIZE`, already parsed. */
  datatype Config = Config(startPage: int, maxPages: int, batchSize: int)

  /** The values used when the variables are unset. */
  const DEFAULT_CONFIG: Config := Config(1, 0, 500)

  /** How many pages one run may cover: `max_pages` when positive, otherwise `batch_size`. */
  function BatchLength(cfg: Config): int
  {
    if cfg.maxPages > 0 then cfg.maxPages else cfg.batchSize
  }

  /** The last page of the run: the batch end, clipped to the catalog's page count. */
  function EndPage(cfg: Config, totalPages: int): (e: int)
    ensures e <= totalPages && e <= cfg.startPage + BatchLength(cfg) - 1
    ensures e == totalPages || e == cfg.startPage + BatchLength(cfg) - 1
  {
    var batchEnd := cfg.startPage + BatchLength(cfg) - 1;
    if batchEnd < totalPages then batchEnd else totalPages
  }

  /** `range(lo, hi + 1)`: the pages lo, lo + 1, ..., hi. */
  function Range(lo: int, hi: int): (r: seq<int>)
    ensures |r| == if hi < lo then 0 else hi - lo + 1
    ensures forall i :: 0 <= i < |r| ==> r[i] == lo + i
    decreases hi - lo
  {
    if hi < lo then [] else Range(lo, hi - 1) + [hi]
  }

  lemma RangeSplit(lo: int, mid: int, hi: int)
    requires lo <= mid + 1 <= hi + 1
    ensures Range(lo, mid) + Range(mid + 1, hi) == Range(lo, hi)
  {
    var a, b, c := Range(lo, mid), Range(mid + 1, hi), Range(lo, hi);
    assert |a + b| == |c|;
    forall i | 0 <= i < |c| ensures (a + b)[i] == c[i] {
      if i >= |a| {
        assert (a + b)[i] == b[i - |a|];
      }
    }
  }

  /**
    The manual resume procedure: run with `cfg`, and while the batch is not
    complete run again with `START_PAGE` set to the printed `end_page + 1`.
    It ends only for a positive batch length (see ResumeStallsWithoutBatch).
   */
  function ResumePlan(cfg: Config, totalPages: int): (plan: seq<Config>)
    requires BatchLength(cfg) > 0
    ensures plan != [] && plan[0] == cfg
    decreases totalPages - cfg.startPage
  {
    var e := EndPage(cfg, totalPages);
    if e >= totalPages then [cfg]
    else [cfg] + ResumePlan(cfg.(startPage := e + 1), totalPages)
  }

  /** The pages the runs of a plan visit, one run after the other. */
  function PlanPages(plan: seq<Config>, totalPages: int): seq<int>
  {
    if plan == [] then []
    else Range(plan[0].startPage, EndPage(plan[0], totalPages)) + PlanPages(plan[1..], totalPages)
  }

  /** Resuming from each printed page visits every page from the first start to the last page exactly once, in order. */
  lemma {:induction false} ResumeCoversAll(cfg: Config, totalPages: int)
    requires BatchLength(cfg) > 0
    ensures PlanPages(ResumePlan(cfg, totalPages), totalPages) == Range(cfg.startPage, totalPages)
    decreases totalPages - cfg.startPage
  {
    var e := EndPage(cfg, totalPages);
    var plan := ResumePlan(cfg, totalPages);
    if e >= totalPages {
      assert plan[1..] == [];
    } else {
      var next := cfg.(startPage := e + 1);
      ResumeCoversAll(next, totalPages);
      assert plan[1..] == ResumePlan(next, totalPages);
      RangeSplit(cfg.startPage, e, totalPages);
    }
  }

  /** Only the last run of the plan completes the catalog. */
  lemma {:induction false} ResumeCompletesLast(cfg: Config, totalPages: int)
    requires BatchLength(cfg) > 0
    ensures var plan := ResumePlan(cfg, totalPages);
      && EndPage(plan[|plan| - 1], totalPages) >= totalPages
      && forall i :: 0 <= i < |plan| - 1 ==> EndPage(plan[i], totalPages) < totalPages
    decreases totalPages - cfg.startPage
  {
    var e := EndPage(cfg, totalPages);
    if e < totalPages {
      var next := cfg.(startPage := e + 1);
      var plan, rest := ResumePlan(cfg, totalPages), ResumePlan(next, totalPages);
      ResumeCompletesLast(next, totalPages);
      assert plan == [cfg] + rest;
      forall i | 0 <= i < |plan| - 1 ensures EndPage(plan[i], totalPages) < totalPages {
        if i > 0 {
          assert plan[i] == rest[i - 1];
        }
      }
    }
  }

  /**
    With `MAX_PAGES` and `BATCH_SIZE` both at most 0 (neither is checked), a run
    from a start page within the catalog visits no page, is not complete, and
    prints a resume page no later than its own start page: the resume
    procedure never advances.
   */
  lemma ResumeStallsWithoutBatch(cfg: Config, totalPages: int)
    requires BatchLength(cfg) <= 0 && cfg.startPage <= totalPages
    ensures Range(cfg.startPage, EndPage(cfg, totalPages)) == []
    ensures EndPage(cfg, totalPages) < totalPages
    ensures EndPage(cfg, totalPages) + 1 <= cfg.startPage
  {
  }

  // ---------------------------------------------------------------------------
  // The catalog as the page loop sees it

  /** The catalog's reply to the request for page p: `pages[p - 1]`, a failed request past the end. */
  function PageReply(pages: seq<PageResponse>, p: int): PageResponse
  {
    if 1 <= p <= |pages| then pages[p - 1] else RequestFailed
  }

  /** What the loop body finds on a page: the fetch raised, no movies, or a non-empty list of movies. */
  datatype PageStatus = Unreadable | Empty | Listed(movies: seq<Movie>)

  /**
    Page p as the loop sees it: pages up to 1 reuse the list fetched before the
    loop (`first`); a later page is fetched again, and the fetch can raise.
   */
  function PageAt(pages: seq<PageResponse>, first: seq<Movie>, p: int): (s: PageStatus)
    ensures s.Listed? ==> s.movies != []
    ensures s.Unreadable? <==> p > 1 && GetMoviesPage(PageReply(pages, p)).Raised?
    ensures p > 1 && s.Listed? ==> s.movies == GetMoviesPage(PageReply(pages, p)).movies
    ensures p <= 1 ==> s == (if first == [] then Empty else Listed(first))
  {
    if p <= 1 then (if first == [] then Empty else Listed(first))
    else match GetMoviesPage(PageReply(pages, p))
      case Raised => Unreadable
      case Fetched(movies, _) => if movies == [] then Empty else Listed(movies)
  }

  function MoviesOn(s: PageStatus): seq<Movie>
  {
    if s.Listed? then s.movies else []
  }

  /** The movies of pages lo..hi, in page order: every movie the loop processes. */
  function MoviesThrough(pages: seq<PageResponse>, first: seq<Movie>, lo: int, hi: int): seq<Movie>
    decreases hi - lo
  {
    if hi < lo then [] else MoviesThrough(pages, first, lo, hi - 1) + MoviesOn(PageAt(pages, first, hi))
  }

  // ---------------------------------------------------------------------------
  // The progress file

  /** `total_added`, `total_skipped`, `total_failed`. */
  datatype Totals = Totals(added: nat, skipped: nat, failed: nat)

  predicate TotalsLe(a: Totals, b: Totals)
  {
    a.added <= b.added && a.skipped <= b.skipped && a.failed <= b.failed
  }

  /** The submissions made for the first m movies of the run, in order: the entries whose movie index is below m. */
  function EntriesBefore(trace: seq<Entry>, m: nat): (t: seq<Entry>)
    ensures |t| <= |trace|
    ensures forall i :: 0 <= i < |t| ==> t[i] in trace && t[i].item < m
  {
    if trace == [] then []
    else
      var last := trace[|trace| - 1];
      EntriesBefore(trace[..|trace| - 1], m) + (if last.item < m then [last] else [])
  }

  /**
    The counters as they stood once the first m movies were processed:
    `total_added` and `total_failed` count those movies' accepted and refused
    submissions, `total_skipped` those of them that got nothing added.
   */
  function TotalsAfter(trace: seq<Entry>, movieAdded: seq<bool>, m: nat): Totals
    requires m <= |movieAdded|
  {
    var t := EntriesBefore(trace, m);
    Totals(CountAdded(t), CountFalse(movieAdded[..m]), CountFailed(t))
  }

  /** `totals` are the counters after the first m movies. */
  ghost predicate Checkpoint(trace: seq<Entry>, movieAdded: seq<bool>, m: nat, totals: Totals)
  {
    m <= |movieAdded| && totals == TotalsAfter(trace, movieAdded, m)
  }

  /** When every submission belongs to one of the first m movies, all of them are counted at m. */
  lemma {:induction false} EntriesBeforeAll(trace: seq<Entry>, m: nat)
    requires forall i :: 0 <= i < |trace| ==> trace[i].item < m
    ensures EntriesBefore(trace, m) == trace
  {
    if trace != [] {
      var pre := trace[..|trace| - 1];
      EntriesBeforeAll(pre, m);
      assert pre + [trace[|trace| - 1]] == trace;
    }
  }

  /** Submissions for movie m or later do not change what is counted at m. */
  lemma {:induction false} EntriesBeforeExtend(trace0: seq<Entry>, trace: seq<Entry>, m: nat)
    requires |trace0| <= |trace| && trace[..|trace0|] == trace0
    requires forall i :: |trace0| <= i < |trace| ==> trace[i].item >= m
    ensures EntriesBefore(trace, m) == EntriesBefore(trace0, m)
    decreases |trace|
  {
    if |trace| > |trace0| {
      var pre := trace[..|trace| - 1];
      assert pre[..|trace0|] == trace0;
      EntriesBeforeExtend(trace0, pre, m);
    } else {
      assert trace == trace0;
    }
  }

  /**
    One more movie, processed after the first n with its submissions appended,
    leaves the counters of every earlier checkpoint as they were.
   */
  lemma CheckpointsKept(trace0: seq<Entry>, flags0: seq<bool>, trace: seq<Entry>, flag: bool)
    requires |trace0| <= |trace| && trace[..|trace0|] == trace0
    requires forall i :: |trace0| <= i < |trace| ==> trace[i].item == |flags0|
    ensures forall m :: 0 <= m <= |flags0| ==> TotalsAfter(trace, flags0 + [flag], m) == TotalsAfter(trace0, flags0, m)
  {
    forall m | 0 <= m <= |flags0|
      ensures TotalsAfter(trace, flags0 + [flag], m) == TotalsAfter(trace0, flags0, m)
    {
      EntriesBeforeExtend(trace0, trace, m);
      assert (flags0 + [flag])[..m] == flags0[..m];
    }
  }

  /** The three kinds of content `bulk_fetch_progress.txt` is overwritten with (timestamps and the error text left out). */
  datatype ProgressRecord =
    | FetchError(lastCompleted: int, lastAttempted: int, totals: Totals)
    | Periodic(lastCompleted: int, totals: Totals)
    | Final(lastCompleted: int, totalPages: int, batchComplete: bool, totals: Totals)

  /** One whole-file write: the progress file, or `bulk_fetch_complete.flag`. */
  datatype FileWrite = Progress(record: ProgressRecord) | CompletionFlag

  /** What the progress file holds after a sequence of writes: the last record written. */
  function ProgressFile(writes: seq<FileWrite>): Option<ProgressRecord>
  {
    if writes == [] then None
    else if writes[|writes| - 1].Progress? then Some(writes[|writes| - 1].record)
    else ProgressFile(writes[..|writes| - 1])
  }

  /** The progress file is empty until a record is written, and then holds the last one: only flags came after it. */
  lemma {:induction false} ProgressFileIsLastRecord(writes: seq<FileWrite>)
    ensures ProgressFile(writes).None? <==> forall i :: 0 <= i < |writes| ==> writes[i] == CompletionFlag
    ensures ProgressFile(writes).Some? ==>
      exists i :: 0 <= i < |writes| && writes[i] == Progress(ProgressFile(writes).value) && OnlyFlagsAfter(writes, i)
  {
    if writes != [] && writes[|writes| - 1] == CompletionFlag {
      var pre := writes[..|writes| - 1];
      ProgressFileIsLastRecord(pre);
      assert forall i :: 0 <= i < |pre| ==> pre[i] == writes[i];
      if ProgressFile(pre).Some? {
        var i :| 0 <= i < |pre| && pre[i] == Progress(ProgressFile(pre).value) && OnlyFlagsAfter(pre, i);
        assert writes[i] == Progress(ProgressFile(writes).value) && OnlyFlagsAfter(writes, i);
      }
    } else if writes != [] {
      assert OnlyFlagsAfter(writes, |writes| - 1);
    }
  }

  /** Every write after index i is the completion flag. */
  predicate OnlyFlagsAfter(writes: seq<FileWrite>, i: nat)
  {
    forall j :: i < j < |writes| ==> writes[j] == CompletionFlag
  }

  /** The page a loop record is about: the attempted page of an error record, the completed page otherwise. */
  function RecordPage(r: ProgressRecord): int
  {
    match r
    case FetchError(_, attempted, _) => attempted
    case Periodic(completed, _) => completed
    case Final(completed, _, _, _) => completed
  }

  /** The loop writes a record for page p exactly when its fetch raised, or it listed movies and p is a multiple of 10. */
  predicate Recorded(pages: seq<PageResponse>, first: seq<Movie>, p: int)
  {
    PageAt(pages, first, p).Unreadable? || (PageAt(pages, first, p).Listed? && p % 10 == 0)
  }

  /**
    A record the loop wrote for a page in lo..hi, of the kind that page calls
    for, carrying the counters as they stood when it was written: after the
    movies of the pages before an unreadable page, or after the movies of a
    periodic record's own page. `trace` and `movieAdded` are the run's
    submissions and movie flags, then or later.
   */
  ghost predicate PageRecord(pages: seq<PageResponse>, first: seq<Movie>, lo: int, hi: int,
                             trace: seq<Entry>, movieAdded: seq<bool>, r: ProgressRecord)
  {
    match r
    case FetchError(completed, attempted, totals) =>
      && lo <= attempted <= hi && completed == attempted - 1 && PageAt(pages, first, attempted).Unreadable?
      && Checkpoint(trace, movieAdded, |MoviesThrough(pages, first, lo, attempted - 1)|, totals)
    case Periodic(completed, totals) =>
      && lo <= completed <= hi && completed % 10 == 0 && PageAt(pages, first, completed).Listed?
      && Checkpoint(trace, movieAdded, |MoviesThrough(pages, first, lo, completed)|, totals)
    case Final(_, _, _, _) => false
  }

  /**
    The writes of the page loop over pages lo..hi: one record per recorded page,
    in page order, each carrying the counters of the moment it was written.
   */
  ghost predicate PageRecords(pages: seq<PageResponse>, first: seq<Movie>, lo: int, hi: int, writes: seq<FileWrite>,
                              trace: seq<Entry>, movieAdded: seq<bool>)
  {
    && (forall i :: 0 <= i < |writes| ==> writes[i].Progress? && PageRecord(pages, first, lo, hi, trace, movieAdded, writes[i].record))
    && (forall i, j :: 0 <= i < j < |writes| ==> RecordPage(writes[i].record) < RecordPage(writes[j].record))
    && (forall p :: lo <= p <= hi && Recorded(pages, first, p) ==>
          exists i :: 0 <= i < |writes| && RecordPage(writes[i].record) == p)
  }

  /** A page that writes nothing keeps the records valid. */
  lemma PageWithoutRecord(pages: seq<PageResponse>, first: seq<Movie>, lo: int, page: int,
                          writes: seq<FileWrite>, trace: seq<Entry>, movieAdded: seq<bool>)
    requires PageRecords(pages, first, lo, page - 1, writes, trace, movieAdded)
    requires !Recorded(pages, first, page)
    ensures PageRecords(pages, first, lo, page, writes, trace, movieAdded)
  {
  }

  /** Later submissions and movies keep every record's counters, when they leave the earlier checkpoints as they were. */
  lemma RecordsKept(pages: seq<PageResponse>, first: seq<Movie>, lo: int, hi: int, writes: seq<FileWrite>,
                    trace: seq<Entry>, movieAdded: seq<bool>, trace': seq<Entry>, movieAdded': seq<bool>)
    requires PageRecords(pages, first, lo, hi, writes, trace, movieAdded)
    requires |movieAdded| <= |movieAdded'|
    requires forall m :: 0 <= m <= |movieAdded| ==> TotalsAfter(trace', movieAdded', m) == TotalsAfter(trace, movieAdded, m)
    ensures PageRecords(pages, first, lo, hi, writes, trace', movieAdded')
  {
    forall i | 0 <= i < |writes| ensures PageRecord(pages, first, lo, hi, trace', movieAdded', writes[i].record) {
      assert PageRecord(pages, first, lo, hi, trace, movieAdded, writes[i].record);
    }
  }

  /** A page that writes its record keeps the records valid and in page order. */
  lemma PageWithRecord(pages: seq<PageResponse>, first: seq<Movie>, lo: int, page: int,
                       writes: seq<FileWrite>, trace: seq<Entry>, movieAdded: seq<bool>, r: ProgressRecord)
    requires PageRecords(pages, first, lo, page - 1, writes, trace, movieAdded)
    requires lo <= page && PageRecord(pages, first, lo, page, trace, movieAdded, r) && RecordPage(r) == page
    ensures PageRecords(pages, first, lo, page, writes + [Progress(r)], trace, movieAdded)
  {
    var w := writes + [Progress(r)];
    forall i | 0 <= i < |w| ensures w[i].Progress? && PageRecord(pages, first, lo, page, trace, movieAdded, w[i].record) {
      if i < |writes| {
        assert w[i] == writes[i];
      }
    }
    forall p | lo <= p <= page && Recorded(pages, first, p)
      ensures exists i :: 0 <= i < |w| && RecordPage(w[i].record) == p
    {
      if p < page {
        var i :| 0 <= i < |writes| && RecordPage(writes[i].record) == p;
        assert w[i] == writes[i];
      } else {
        assert RecordPage(w[|writes|].record) == p;
      }
    }
  }

  // ---------------------------------------------------------------------------
  // The movies processed so far and what happened to them

  /** `torrents_to_add` for a movie: its first 2160p and its first 1080p torrent, when present. */
  const BULK_CHOICE: Choice := Preferred(BULK_QUALITIES)

  /**
    The run's mutable state: the dedup index, the submissions made, the movies
    processed in order (`movies_processed` is their number) with whether each got
    a variant added, the three counters, and the file writes.
   */
  datatype RunState = RunState(existing: set<string>, trace: seq<Entry>, processed: seq<Movie>,
                               movieAdded: seq<bool>, totals: Totals, writes: seq<FileWrite>)

  /** The counters: accepted submissions, refused submissions, and movies that got nothing added. */
  predicate CountersMatch(totals: Totals, movieAdded: seq<bool>, trace: seq<Entry>)
  {
    && totals.added == CountAdded(trace) && totals.failed == CountFailed(trace)
    && totals.skipped == CountFalse(movieAdded)
  }

  /** What the page, movie and variant loops keep true of the run's state. */
  ghost predicate Ledger(dest: Destination, initial: set<string>, s: RunState)
  {
    && MovieLedger(BULK_POLICY, dest, BULK_CHOICE, initial, s.existing, s.trace, s.processed, s.movieAdded)
    && CountersMatch(s.totals, s.movieAdded, s.trace)
  }

  // ---------------------------------------------------------------------------
  // The skip message, as written

  /** `[t.get("quality") for t in torrents]`: the movie's labels, None where a torrent has none. */
  function QualityLabels(torrents: seq<Torrent>): (labels: seq<Option<string>>)
    ensures |labels| == |torrents|
    ensures forall i :: 0 <= i < |torrents| ==> labels[i] == torrents[i].quality
  {
    seq(|torrents|, i requires 0 <= i < |torrents| => torrents[i].quality)
  }

  /**
    `', '.join(labels)`: the labels separated by ", ", or None where Python
    raises a TypeError because one of them is None.
   */
  function JoinLabels(labels: seq<Option<string>>): (r: Option<string>)
    ensures r.Some? <==> forall i :: 0 <= i < |labels| ==> labels[i].Some?
  {
    if labels == [] then Some("")
    else if labels[0].None? then None
    else if |labels| == 1 then Some(labels[0].value)
    else match JoinLabels(labels[1..])
      case None => None
      case Some(rest) => Some(labels[0].value + ", " + rest)
  }

  /**
    The n-th movie of the run, as bulk_fetch.py is written, raises while it is
    being skipped: a movie with torrents but none to submit is reported on
    every tenth movie with `', '.join(available_qualities)`, and the join
    raises when one of the labels is None. No handler encloses that line.
   */
  predicate SkipMessageRaises(n: int, movie: Movie)
  {
    && movie.torrents != [] && Chosen(BULK_CHOICE, movie) == [] && n % 10 == 0
    && JoinLabels(QualityLabels(movie.torrents)).None?
  }

  /** When the skip message raises: a tenth movie, no 2160p or 1080p torrent, and a torrent without a label. */
  lemma SkipMessageRaisesIff(n: int, movie: Movie)
    ensures SkipMessageRaises(n, movie) <==>
      && n % 10 == 0
      && (forall j :: 0 <= j < |movie.torrents| ==>
            movie.torrents[j].quality != Some("2160p") && movie.torrents[j].quality != Some("1080p"))
      && (exists j :: 0 <= j < |movie.torrents| && movie.torrents[j].quality.None?)
  {
    SelectionEmptyIff(movie.torrents, BULK_QUALITIES);
    assert BULK_QUALITIES[0] == "2160p" && BULK_QUALITIES[1] == "1080p";
    var labels := QualityLabels(movie.torrents);
    if exists j :: 0 <= j < |movie.torrents| && movie.torrents[j].quality.None? {
      var j :| 0 <= j < |movie.torrents| && movie.torrents[j].quality.None?;
      assert labels[j].None?;
    }
  }

  /** The tenth movie, with a single torrent that has no `quality`, ends the run. */
  lemma SkipMessageRaisesOnUnlabelled(hash: string)
    ensures SkipMessageRaises(10, Movie("Unknown", "", [Torrent(None, hash, "")]))
  {
    SkipMessageRaisesIff(10, Movie("Unknown", "", [Torrent(None, hash, "")]));
  }

  // ---------------------------------------------------------------------------
  // The loops

  /**
    The body of `for movie in movies`: a movie without torrents, or without a
    2160p or 1080p torrent, is skipped; otherwise its chosen variants are
    submitted, and the movie is skipped when none of them was accepted. A
    skipped movie's message never ends the run here (see SkipMessageRaises).
   */
  method ProcessMovie(dest: Destination, initial: set<string>, s: RunState, movie: Movie) returns (s': RunState)
    requires Ledger(dest, initial, s)
    ensures Ledger(dest, initial, s')
    ensures s'.processed == s.processed + [movie] && s'.writes == s.writes
    ensures Chosen(BULK_CHOICE, movie) == [] ==>
      s'.existing == s.existing && s'.trace == s.trace && s'.totals == s.totals.(skipped := s.totals.skipped + 1)
    ensures TotalsLe(s.totals, s'.totals)
    ensures |s.movieAdded| < |s'.movieAdded|
    ensures forall m :: 0 <= m <= |s.movieAdded| ==> TotalsAfter(s'.trace, s'.movieAdded, m) == TotalsAfter(s.trace, s.movieAdded, m)
  {
    var existing, trace, added, failed :=
      VisitMovie(BULK_POLICY, dest, BULK_CHOICE, initial, s.existing, s.trace, s.processed, s.movieAdded, movie);
    var totals := Totals(s.totals.added + added, s.totals.skipped + (if added > 0 then 0 else 1), s.totals.failed + failed);
    assert CountersMatch(totals, s.movieAdded + [added > 0], trace);
    CheckpointsKept(s.trace, s.movieAdded, trace, added > 0);
    s' := RunState(existing, trace, s.processed + [movie], s.movieAdded + [added > 0], totals, s.writes);
  }

  /** `for movie in movies`: every movie of the page is processed, in order. */
  method ProcessMovies(dest: Destination, initial: set<string>, s: RunState, movies: seq<Movie>) returns (s': RunState)
    requires Ledger(dest, initial, s)
    ensures Ledger(dest, initial, s')
    ensures s'.processed == s.processed + movies && s'.writes == s.writes
    ensures TotalsLe(s.totals, s'.totals)
    ensures |s.movieAdded| <= |s'.movieAdded|
    ensures forall m :: 0 <= m <= |s.movieAdded| ==> TotalsAfter(s'.trace, s'.movieAdded, m) == TotalsAfter(s.trace, s.movieAdded, m)
  {
    s' := s;
    PrefixStep(s.processed, movies, 0);
    for j := 0 to |movies|
      invariant Ledger(dest, initial, s')
      invariant s'.processed == s.processed + movies[..j] && s'.writes == s.writes
      invariant TotalsLe(s.totals, s'.totals)
      invariant |s.movieAdded| <= |s'.movieAdded|
      invariant forall m :: 0 <= m <= |s.movieAdded| ==> TotalsAfter(s'.trace, s'.movieAdded, m) == TotalsAfter(s.trace, s.movieAdded, m)
    {
      PrefixStep(s.processed, movies, j);
      s' := ProcessMovie(dest, initial, s', movies[j]);
    }
    PrefixStep(s.processed, movies, |movies|);
  }

  /** What the page loop keeps true before page `page`: the ledger, the movies of the pages so far, and their records. */
  ghost predicate PageLoopInv(dest: Destination, initial: set<string>, pages: seq<PageResponse>, first: seq<Movie>,
                              lo: int, page: int, s: RunState)
  {
    && Ledger(dest, initial, s)
    && s.processed == MoviesThrough(pages, first, lo, page - 1)
    && PageRecords(pages, first, lo, page - 1, s.writes, s.trace, s.movieAdded)
  }

  /** The counters of the run are those of the checkpoint after all the movies processed so far. */
  lemma CountersAtLatestCheckpoint(dest: Destination, initial: set<string>, s: RunState)
    requires Ledger(dest, initial, s)
    ensures Checkpoint(s.trace, s.movieAdded, |s.processed|, s.totals)
  {
    assert RunEntries(BULK_CHOICE, initial, s.processed, s.trace);
    CountersAtEnd(s.trace, s.processed, s.movieAdded, s.totals);
  }

  lemma CountersAtEnd(trace: seq<Entry>, processed: seq<Movie>, movieAdded: seq<bool>, totals: Totals)
    requires EntriesMatch(BULK_CHOICE, processed, trace) && |movieAdded| == |processed|
    requires CountersMatch(totals, movieAdded, trace)
    ensures Checkpoint(trace, movieAdded, |processed|, totals)
  {
    EntriesBeforeAll(trace, |processed|);
    assert movieAdded[..|processed|] == movieAdded;
  }

  /**
    One pass of the page loop: pages after 1 are fetched again, and a fetch that
    raises writes an error record and moves on; a page without movies is passed
    over; otherwise its movies are processed and, on every tenth page, a
    periodic record is written.
   */
  method VisitPage(dest: Destination, initial: set<string>, pages: seq<PageResponse>, first: seq<Movie>,
                   lo: int, page: int, s: RunState) returns (s': RunState)
    requires lo <= page
    requires PageLoopInv(dest, initial, pages, first, lo, page, s)
    ensures PageLoopInv(dest, initial, pages, first, lo, page + 1, s')
  {
    var movies := first;
    if page > 1 {
      var r := GetMoviesPage(PageReply(pages, page));
      if r.Raised? {
        var record := FetchError(page - 1, page, s.totals);
        CountersAtLatestCheckpoint(dest, initial, s);
        PageWithRecord(pages, first, lo, page, s.writes, s.trace, s.movieAdded, record);
        return s.(writes := s.writes + [Progress(record)]);
      }
      movies := r.movies;
    }
    assert MoviesThrough(pages, first, lo, page) == s.processed + movies;
    if movies == [] {
      PageWithoutRecord(pages, first, lo, page, s.writes, s.trace, s.movieAdded);
      return s;
    }
    s' := ProcessMovies(dest, initial, s, movies);
    RecordsKept(pages, first, lo, page - 1, s.writes, s.trace, s.movieAdded, s'.trace, s'.movieAdded);
    if page % 10 == 0 {
      var record := Periodic(page, s'.totals);
      CountersAtLatestCheckpoint(dest, initial, s');
      PageWithRecord(pages, first, lo, page, s.writes, s'.trace, s'.movieAdded, record);
      s' := s'.(writes := s'.writes + [Progress(record)]);
    } else {
      PageWithoutRecord(pages, first, lo, page, s.writes, s'.trace, s'.movieAdded);
    }
  }

  /** The state before the page loop: the loaded index, nothing submitted, nothing processed, nothing written. */
  function StartState(initial: set<string>): RunState
  {
    RunState(initial, [], [], [], Totals(0, 0, 0), [])
  }

  lemma EmptyLedger(dest: Destination, initial: set<string>)
    ensures Ledger(dest, initial, StartState(initial))
  {
    EmptyMovieLedger(BULK_POLICY, dest, BULK_CHOICE, initial);
  }

  lemma EmptyRecords(pages: seq<PageResponse>, first: seq<Movie>, lo: int, trace: seq<Entry>, movieAdded: seq<bool>)
    ensures PageRecords(pages, first, lo, lo - 1, [], trace, movieAdded)
  {
  }

  lemma EmptyRun(dest: Destination, initial: set<string>, pages: seq<PageResponse>, first: seq<Movie>, lo: int)
    ensures PageLoopInv(dest, initial, pages, first, lo, lo, StartState(initial))
  {
    EmptyLedger(dest, initial);
    EmptyRecords(pages, first, lo, [], []);
  }

  /** `for page in range(lo, hi + 1)`. */
  method VisitPages(dest: Destination, initial: set<string>, pages: seq<PageResponse>, first: seq<Movie>,
                    lo: int, hi: int, s: RunState) returns (s': RunState)
    requires lo <= hi + 1
    requires PageLoopInv(dest, initial, pages, first, lo, lo, s)
    ensures PageLoopInv(dest, initial, pages, first, lo, hi + 1, s')
  {
    s' := s;
    for page := lo to hi + 1
      invariant PageLoopInv(dest, initial, pages, first, lo, page, s')
    {
      s' := VisitPage(dest, initial, pages, first, lo, page, s');
    }
  }

  // ---------------------------------------------------------------------------
  // The whole run

  /**
    How `main` ends: an exception out of the page-1 fetch, the exit when page 1
    reports no pages, or the final summary of a batch.
   */
  datatype Outcome =
    | Crashed
    | Aborted
    | Finished(endPage: int, totalPages: int, batchComplete: bool, moviesProcessed: nat, totals: Totals)

  /** The writes after the page loop: the completion flag when the batch reached the last page, then the final record. */
  function FinalWrites(endPage: int, totalPages: int, totals: Totals): (w: seq<FileWrite>)
    ensures w != [] && w[|w| - 1] == Progress(Final(endPage, totalPages, endPage >= totalPages, totals))
    ensures CompletionFlag in w <==> endPage >= totalPages
  {
    (if endPage >= totalPages then [CompletionFlag] else []) + [Progress(Final(endPage, totalPages, endPage >= totalPages, totals))]
  }

  /**
    What a batch leaves behind: the ledger of the run, the movies of pages `lo`
    through `end`, their progress records, then the completion flag (only when
    the last page was reached) and the final record, which is what the progress
    file holds afterwards.
   */
  ghost predicate BatchFinished(dest: Destination, initial: set<string>, pages: seq<PageResponse>, first: seq<Movie>,
                                lo: int, end: int, total: int, s: RunState)
  {
    var tail := FinalWrites(end, total, s.totals);
    && Ledger(dest, initial, s)
    && s.processed == MoviesThrough(pages, first, lo, end)
    && |tail| <= |s.writes| && s.writes[|s.writes| - |tail|..] == tail
    && PageRecords(pages, first, lo, end, s.writes[..|s.writes| - |tail|], s.trace, s.movieAdded)
    && ProgressFile(s.writes) == Some(Final(end, total, end >= total, s.totals))
  }

  /** A batch whose start page lies past its end page visits no page. */
  lemma EmptyBatch(dest: Destination, initial: set<string>, pages: seq<PageResponse>, first: seq<Movie>,
                   lo: int, end: int, s: RunState)
    requires end < lo
    requires PageLoopInv(dest, initial, pages, first, lo, lo, s)
    ensures PageLoopInv(dest, initial, pages, first, lo, end + 1, s)
  {
  }

  /** After the page loop: the completion flag when the last page was reached, then the final record. */
  method Finish(dest: Destination, initial: set<string>, pages: seq<PageResponse>, first: seq<Movie>,
                lo: int, end: int, total: int, s0: RunState) returns (s: RunState)
    requires PageLoopInv(dest, initial, pages, first, lo, end + 1, s0)
    ensures s == s0.(writes := s0.writes + FinalWrites(end, total, s0.totals))
    ensures BatchFinished(dest, initial, pages, first, lo, end, total, s)
  {
    var complete := end >= total;
    s := s0;
    if complete {
      s := s.(writes := s.writes + [CompletionFlag]);
    }
    s := s.(writes := s.writes + [Progress(Final(end, total, complete, s.totals))]);
    assert s.writes == s0.writes + FinalWrites(end, total, s.totals);
    assert s.writes[..|s0.writes|] == s0.writes;
  }

  /** The page loop of `main` over pages `lo` through `end`, then the completion flag and the final record. */
  method RunBatch(dest: Destination, initial: set<string>, pages: seq<PageResponse>, first: seq<Movie>,
                  lo: int, end: int, total: int, s0: RunState) returns (s: RunState)
    requires PageLoopInv(dest, initial, pages, first, lo, lo, s0)
    ensures BatchFinished(dest, initial, pages, first, lo, end, total, s)
  {
    s := s0;
    if lo <= end + 1 {
      s := VisitPages(dest, initial, pages, first, lo, end, s);
    } else {
      EmptyBatch(dest, initial, pages, first, lo, end, s);
    }
    s := Finish(dest, initial, pages, first, lo, end, total, s);
  }

  /**
    `main` after the token check: load the destination's hashes, read page 1,
    give up when it raises or reports no pages, otherwise run the batch from
    the configured start page to its end page.
   */
  method Run(cfg: Config, listing: seq<string>, pages: seq<PageResponse>, dest: Destination)
    returns (outcome: Outcome, s: RunState)
    ensures var r := GetMoviesPage(PageReply(pages, 1));
      && (outcome.Crashed? <==> r.Raised?)
      && (outcome.Aborted? <==> r.Fetched? && r.pageCount == 0)
    ensures !outcome.Finished? ==> s == StartState(LoadIndex(listing))
    ensures Ledger(dest, LoadIndex(listing), s)
    ensures outcome.Finished? ==>
      var r := GetMoviesPage(PageReply(pages, 1));
      var end := EndPage(cfg, r.pageCount);
      && outcome == Finished(end, r.pageCount, end >= r.pageCount, |s.processed|, s.totals)
      && BatchFinished(dest, LoadIndex(listing), pages, r.movies, cfg.startPage, end, r.pageCount, s)
  {
    var initial := LoadIndex(listing);
    s := StartState(initial);
    EmptyLedger(dest, initial);
    var r := GetMoviesPage(PageReply(pages, 1));
    if r.Raised? {
      return Crashed, s;
    }
    if r.pageCount == 0 {
      return Aborted, s;
    }
    var end := EndPage(cfg, r.pageCount);
    EmptyRun(dest, initial, pages, r.movies, cfg.startPage);
    s := RunBatch(dest, initial, pages, r.movies, cfg.startPage, end, r.pageCount, s);
    outcome := Finished(end, r.pageCount, end >= r.pageCount, |s.processed|, s.totals);
  }
}


