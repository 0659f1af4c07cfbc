# YTS / ShowRSS to Real-Debrid fetchers, modelled in Dafny

The repository holds three scripts that copy torrents into a Real-Debrid
account:

- `bulk_fetch.py` walks the YTS catalog page by page, in batches. For each movie it submits the first 2160p and the first 1080p torrent. It writes progress records and, once the last page is reached, a completion flag.
- `fetch_movies.py` takes the latest YTS movies. It submits either every preferred quality (2160p, 1080p, 720p) or only the first torrent, depending on `FETCH_ALL_QUALITIES`.
- `fetch_shows.py` reads a ShowRSS feed, extracts each episode's info hash from its magnet link and submits the new ones.

All three share one pipeline. An in-memory index of the hashes the account
already holds (`existing_hashes`) is loaded once at the start. A hash is
submitted only when it is non-empty and not yet in the index. A submission
is accepted when `add_magnet` returns an id and `select_files` then
succeeds. Only an accepted hash joins the index. Each script keeps its own
counters.

The model takes each script in its own form. The attempt loops, the
variant, movie, page and episode loops, the magnet-link builder and the
feed filter are methods with loops. Each is proved against a recursive
function or a ledger predicate. The page-count and batch-range arithmetic
and the hash extraction are functions.

The world outside is given as oracle inputs:

- the account's torrent listing (the hash fields);
- the catalog's replies, one per page;
- the feed's items;
- the destination's replies, indexed by submission number and attempt.

The progress file is a log of whole-file writes, and the last record written
is what the file holds.

Modules:

- `Wrappers` (wrappers.dfy): `Option`.
- `Text` (text.dfy): lower-casing restricted to ASCII letters, and hex digits.
- `Retry` (retry.dfy): the `add_magnet` and `select_files` attempt loops and their single-attempt variants.
- `Catalog` (catalog.dfy): the listing page, the page count, and variant selection.
- `Magnet` (magnet.dfy): `create_magnet_link` and `extract_magnet_hash`.
- `Submission` (submission.dfy): one submission, the dedup index and its ledger, and the variant loop.
- `MovieLoop` (movie_loop.dfy): the movie loop shared by both movie scripts.
- `BulkFetch` (bulk_fetch.dfy): the bulk driver.
- `FetchMovies` (fetch_movies.dfy): the latest-movies driver.
- `FetchShows` (fetch_shows.dfy): the feed filter and the episode driver.

## Model

| member | source | states |
|---|---|---|
| Text.LowerChar | bulk_fetch.py:302 | lower-casing of one character restricted to ASCII: an ASCII capital moves up by 32 to its small letter, and every other character (non-ASCII capitals included) is kept |
| Text.Lower | bulk_fetch.py:213 | ASCII lower-casing of a string keeps its length and maps each character through `LowerChar`; it agrees with `str.lower()` on ASCII text such as hex hashes |
| Text.LowerIsLowerCase | bulk_fetch.py:213 | a lower-cased string has no capital, and lower-casing again changes nothing |
| Text.LowerKeepsHex | fetch_shows.py:96 | lower-casing a hex string leaves a hex string |
| Retry.AddMagnet | bulk_fetch.py:90-113 | the attempt loop of `add_magnet` returns the id, the number of requests and the sleeps of the recursive `AddMagnetSpec` |
| Retry.AddMagnetFromMeaning | bulk_fetch.py:95-113 | from any attempt on: the number of requests is bounded, every request but the last got a 429, and the sleeps are `(k+1)*unit`; an early stop happens only on a non-429 reply; an id comes back exactly when the last reply was a success |
| Retry.AddMagnetMeaning | bulk_fetch.py:90-113 | at most `retry_count` requests (none for a count of 0); every request but the last got a 429; the sleep before request k+1 is `(k+1)*unit`; an early stop happens only on a non-429 reply; the id is that of a final success |
| Retry.AddMagnetGivesUpOnOtherErrors | bulk_fetch.py:104-111 | a first reply that is neither a success nor a 429 ends the call after one request with no id and no sleep |
| Retry.AddMagnetRateLimitedThrice | bulk_fetch.py:101-106 | three 429s with the default count give 3 requests, sleeps `[unit, 2*unit]` (`[10, 20]` in the bulk script, `[5, 10]` in the episode script) and no id |
| Retry.SelectFiles | bulk_fetch.py:115-137 | the attempt loop of `select_files` returns the result, the number of requests and the sleeps of the recursive `SelectFilesSpec` |
| Retry.SelectFilesFromMeaning | bulk_fetch.py:120-137 | from any attempt on: the number of requests is bounded; every request but the last got a 404 or a transport error, each followed by a 2 s sleep; the result is true exactly when some request succeeded |
| Retry.SelectFilesMeaning | bulk_fetch.py:115-137 | at most `retry_count` requests; all but the last were retryable; a 2 s sleep follows each; an early stop happens only on a non-retryable reply; true iff some request succeeded |
| Retry.SelectFilesGivesUpOnOtherStatus | bulk_fetch.py:127-131 | an HTTP status other than 404 ends the call after one request with false |
| Retry.SelectFilesSucceedsOnThirdTry | bulk_fetch.py:120-137 | a 404, a transport error, then a success give 3 requests, sleeps `[2, 2]` and true |
| Retry.AddMagnetOnce | fetch_movies.py:65-86 | the single-attempt `add_magnet` returns an id exactly for a successful reply |
| Retry.SelectFilesOnce | fetch_movies.py:88-108 | the single-attempt `select_files` is true exactly for a successful reply |
| Retry.SingleAttemptIsOneTry | fetch_movies.py:65-108 | each single-attempt call behaves as its retrying version with a retry count of 1, with no sleep |
| Catalog.RequestedPageSize | bulk_fetch.py:55 | the page size requested is `min(limit, 50)`: never above 50, and the limit itself when that is at most 50 |
| Catalog.ScriptRequestsFullPages | bulk_fetch.py:40-55 | with the default limit of `get_movies_page`, which both calls in the script use, the request asks for the full 50 |
| Catalog.FloorDivBounds | bulk_fetch.py:71 | the model of Python's `//` is the floor quotient, for both signs of the divisor |
| Catalog.PageCount | bulk_fetch.py:71 | `(movie_count + limit - 1) // limit`: for a positive page size there is a page exactly when there is a movie, and never more pages than movies |
| Catalog.PageCountIsCeiling | bulk_fetch.py:71 | for an echoed limit above 0, the page count n satisfies `limit*(n-1) < movie_count <= limit*n`, so n is the ceiling |
| Catalog.PageCountExamples | bulk_fetch.py:71 | 1001 movies in pages of 50 make 21 pages, 1000 make 20 and 0 make 0 |
| Catalog.GetMoviesPage | bulk_fetch.py:62-77 | it raises exactly on a good non-empty reply echoing limit 0; a good non-empty reply gives its movies and the page count of its `movie_count` and `limit` (defaults 0 and 50); any other reply gives `([], 0)` |
| Catalog.GetLatestMovies | fetch_movies.py:40-52 | the movies are non-empty exactly for a good reply with movies, and are then the reply's movies; otherwise `[]` |
| Catalog.FindQuality | bulk_fetch.py:286-289 | the inner loop finds the first torrent with the label, or reports that none has it |
| Catalog.SelectVariants | bulk_fetch.py:284-289 | the nested loops with `break` compute `Selection(torrents, preferred)` |
| Catalog.SelectionMeaning | bulk_fetch.py:284-289 | the selection holds one torrent per preferred label present, in preference order, each the first torrent with that label |
| Catalog.SelectionLabelsPreferred | bulk_fetch.py:284-289 | every selected torrent is one of the movie's and carries a preferred label |
| Catalog.SelectionEmptyIff | bulk_fetch.py:284-293 | nothing is selected exactly when no torrent carries a preferred label |
| Catalog.SelectionPrefersHigher | bulk_fetch.py:183 | with `["2160p", "1080p"]`, a movie with 720p, 1080p and 2160p variants gets its 2160p and then its 1080p variant |
| Catalog.SelectionOf720pOnly | fetch_movies.py:208-218 | a 720p-only movie gets nothing from the bulk list and its 720p variant from the latest-movies list |
| Magnet.CleanName | bulk_fetch.py:156 | every space of the name becomes `+` and every other character is kept, so no space is left |
| Magnet.CreateMagnetLink | bulk_fetch.py:154-172 | the loop builds the prefix, the hash, `&dn=` with the cleaned name, then one `&tr=` parameter per tracker in list order |
| Magnet.EightTrackerParams | bulk_fetch.py:157-170 | the tracker list has 8 entries and the tracker part holds exactly 8 `&`, one per `&tr=` |
| Magnet.MagnetLinkLayout | bulk_fetch.py:168 | the link starts with `magnet:?xt=urn:btih:`, then holds the hash unchanged (not lower-cased), then `&dn=`, then the cleaned name |
| Magnet.FindMarker | fetch_shows.py:94 | the search finds the leftmost position holding `urn:btih:` followed by a hex digit, or reports that there is none |
| Magnet.HexRunEnd | fetch_shows.py:94 | the greedy `[a-fA-F0-9]+` run is hex and ends at the end of the link or at a non-hex character |
| Magnet.ExtractMagnetHash | fetch_shows.py:92-97 | None exactly when no marker followed by a hex digit occurs; otherwise a non-empty, lower-case hex string |
| Magnet.ExtractOfMagnetLink | fetch_shows.py:92-97 | round trip: for a non-empty hex hash, extracting from the link the movie scripts build gives back the lower-cased hash, because `&` ends the hex run |
| Magnet.ExtractWithoutMarker | fetch_shows.py:94-97 | two examples: a `urn:sha1:` link, and a link whose `urn:btih:` is followed directly by `&`, both yield no hash |
| Submission.Submit | bulk_fetch.py:310-322 | one submission is accepted exactly when `add_magnet` returns a non-empty id and `select_files` then succeeds, under the script's retry policy |
| Submission.DisplayNameLayout | bulk_fetch.py:308 | the display name is the title, a space, the year, a space and the quality label; a torrent without a `quality` field gives the text `None`, as the f-string renders it |
| Submission.LoadIndex | bulk_fetch.py:212-213 | the lower-cased hash of every listed torrent is in the index |
| Submission.LoadIndexOnlyListed | bulk_fetch.py:212-213 | the index holds only lower-case strings, each the lower-cased hash of a listed torrent |
| Submission.LedgerAppend | bulk_fetch.py:304-322 | submitting a non-empty hash that is not in the index, and adding it to the index only when accepted, keeps the index equal to the loaded hashes plus the accepted ones and keeps every submission fresh |
| Submission.IndexGrowsByAdded | bulk_fetch.py:315-318 | the index grows by exactly the number of accepted submissions, because no hash is accepted twice |
| Submission.CountsPartition | bulk_fetch.py:312-322 | every submission is counted once, as accepted or as refused |
| Submission.CountAddedPositive | fetch_movies.py:243-259 | the accepted count is positive exactly when some submission was accepted |
| Submission.SubmitVariant | bulk_fetch.py:302-322 | a variant reaching `add_magnet` is submitted under its lower-cased hash and a link built from that hash and `"{title} {year} {quality}"`; its outcome is the destination's answer; the index gains the hash only when accepted |
| Submission.VariantStep | bulk_fetch.py:301-324 | one pass of the variant loop skips a variant whose hash is empty or already indexed, and otherwise submits it, keeping the loop invariant |
| Submission.SubmitVariants | bulk_fetch.py:301-324 | after the variant loop: the ledger is valid and extends the old one; the new submissions are chosen variants of this movie, in order; `added` and `failed` count them; every chosen variant left out had an empty hash or one already indexed |
| MovieLoop.NoTorrentsNoChoice | fetch_movies.py:202-205 | a movie without torrents has nothing to submit |
| MovieLoop.ChosenFromTorrents | fetch_movies.py:208-218 | chosen torrents are the movie's own; with the preference list they carry preferred labels; otherwise at most one (`torrents[0]`) is taken |
| MovieLoop.ChooseVariants | fetch_movies.py:208-218 | for a movie with torrents, the selection is the preferred variants or the first torrent, per the switch |
| MovieLoop.FlagsPartition | fetch_movies.py:256-259 | every movie is counted once, as added or as skipped |
| MovieLoop.EmptyMovieLedger | fetch_movies.py:175-176 | before the first movie the ledger holds with the loaded index and nothing submitted |
| MovieLoop.MovieStep | fetch_movies.py:194-259 | after one more movie the ledger still holds. The submission counts of the run grow by the movie's own. The added or skipped count grows by one, depending on `movie_added` |
| MovieLoop.NothingChosen | fetch_movies.py:220-223 | with nothing chosen, no submission is made |
| MovieLoop.SubmitChosen | fetch_movies.py:202-254 | a movie without torrents or without a chosen variant submits nothing; otherwise the chosen variants go through the variant loop |
| MovieLoop.VisitMovie | fetch_movies.py:194-259 | one movie keeps the run's ledger, sets its `movie_added` flag to "some submission accepted" and moves the counts by its own; its submissions are appended after the earlier ones and all belong to it; with nothing chosen it changes nothing and counts as skipped |
| BulkFetch.EndPage | bulk_fetch.py:233-237 | `end_page` is at most `total_pages` and at most `start_page + n - 1` (n is `max_pages` when positive, else `batch_size`), and equals one of them |
| BulkFetch.Range | bulk_fetch.py:245 | `range(start_page, end_page + 1)` lists the pages from start to end in increasing order |
| BulkFetch.ResumePlan | bulk_fetch.py:363-364 | for a positive batch length, restarting at the printed `end_page + 1` gives a chain of runs beginning with the given one |
| BulkFetch.ResumeStallsWithoutBatch | bulk_fetch.py:233-237 | with `MAX_PAGES` and `BATCH_SIZE` both at most 0, a run from a page within the catalog visits no page, is not complete, and prints a resume page no later than its own start page, so resuming never advances |
| BulkFetch.ResumeCoversAll | bulk_fetch.py:363-364 | the resumed runs together visit every page from the first start page to the last page exactly once, in order |
| BulkFetch.ResumeCompletesLast | bulk_fetch.py:350 | in a resume chain only the last run reaches `end_page >= total_pages` |
| BulkFetch.PageAt | bulk_fetch.py:224-255 | pages up to 1 reuse the list fetched before the loop; later pages are fetched again; only a later page's fetch can raise; a listed page is non-empty |
| BulkFetch.ProgressFileIsLastRecord | bulk_fetch.py:376-383 | the progress file is empty until a record is written, and afterwards holds the last record written |
| BulkFetch.CheckpointsKept | bulk_fetch.py:269-331 | one more movie, with its submissions appended, leaves the counters of every earlier checkpoint unchanged |
| BulkFetch.CountersAtLatestCheckpoint | bulk_fetch.py:262-266 | the running `total_added`, `total_skipped` and `total_failed` are the counts over all movies processed so far |
| BulkFetch.RecordsKept | bulk_fetch.py:257-346 | records written earlier keep their counters as more movies are processed |
| BulkFetch.PageWithoutRecord | bulk_fetch.py:337 | a page that is not a multiple of 10 (or has no movies) writes nothing, and the records stay valid |
| BulkFetch.PageWithRecord | bulk_fetch.py:257-346 | a page's record (error or periodic) is appended in page order, carrying the counters after the movies of the earlier pages (error) or of its own page (periodic) |
| BulkFetch.ProcessMovie | bulk_fetch.py:269-331 | one movie keeps the run's ledger: `total_added` and `total_failed` count accepted and refused submissions, and `total_skipped` counts movies with nothing accepted; a movie with no 2160p or 1080p torrent is skipped with nothing submitted and the run goes on; counters only grow, earlier checkpoints keep their counters, and nothing is written |
| BulkFetch.JoinLabels | bulk_fetch.py:294 | `', '.join` of the labels succeeds exactly when no label is None |
| BulkFetch.SkipMessageRaisesIff | bulk_fetch.py:281-294 | as written, the skip message raises exactly for a tenth movie with no 2160p or 1080p torrent and some torrent without `quality` |
| BulkFetch.SkipMessageRaisesOnUnlabelled | bulk_fetch.py:281-294 | the tenth movie with one unlabelled torrent raises in its skip message |
| BulkFetch.ProcessMovies | bulk_fetch.py:269-331 | every movie of a page is processed in order, keeping the ledger and the counters of every earlier checkpoint |
| BulkFetch.VisitPage | bulk_fetch.py:246-346 | one pass of the page loop: a raising fetch writes an error record for that page and goes on; an empty page is passed over; otherwise its movies are processed and every tenth page writes a periodic record; each record carries `total_added`, `total_skipped` and `total_failed` exactly as they stood at the write |
| BulkFetch.VisitPages | bulk_fetch.py:245-346 | the page loop visits each page of the range once, in order, keeping the ledger; it writes one record per unreadable page and per tenth page with movies, in page order, each with the counters of the moment it was written |
| BulkFetch.EmptyLedger | bulk_fetch.py:213-219 | the start state, with the loaded index, no submission and zero counters, satisfies the ledger |
| BulkFetch.EmptyRun | bulk_fetch.py:245 | before the first page the page-loop invariant holds |
| BulkFetch.EmptyBatch | bulk_fetch.py:245 | a start page past the end page visits no page |
| BulkFetch.FinalWrites | bulk_fetch.py:350-383 | the completion flag is written exactly when `end_page >= total_pages`, and the last write is the final record with `end_page`, `total_pages`, `batch_complete` and the counters |
| BulkFetch.Finish | bulk_fetch.py:370-383 | after the loop only the flag (when complete) and the final record are written |
| BulkFetch.RunBatch | bulk_fetch.py:245-383 | a batch processes exactly the movies of pages `start_page..end_page` in order, with their records (each carrying the counters at its write), then the flag and the final record, which the progress file then holds |
| BulkFetch.Run | bulk_fetch.py:175-383 | a raising page-1 fetch crashes and a page count of 0 aborts, both before any submission; otherwise the run processes the batch and reports `end_page`, `total_pages`, `batch_complete`, `movies_processed` and the counters |
| FetchMovies.FetchAllQualities | fetch_movies.py:160 | all qualities are fetched exactly when the setting is unset or spells `true` in any mix of ASCII case; no non-ASCII character lowers to `t`, `r`, `u` or `e`, so this is exactly Python's `.lower() == "true"` |
| FetchMovies.FetchAllQualitiesExamples | fetch_movies.py:160 | unset means true, the comparison ignores ASCII case, and any value other than "true" means false |
| FetchMovies.ProcessMovie | fetch_movies.py:194-259 | one movie keeps the ledger, and `added_count`/`skipped_count` stay the numbers of movies with and without an accepted variant |
| FetchMovies.Run | fetch_movies.py:154-266 | no movies ends the run with nothing submitted; otherwise every movie is processed in order, and `added_count + skipped_count` equals the number of movies |
| FetchShows.PubDate | fetch_shows.py:125 | a missing `pubDate` becomes `"Unknown"`; otherwise the element's text |
| FetchShows.EpisodeOf | fetch_shows.py:128-136 | a kept item's episode carries its link and the hash extracted from it: non-empty, lower-case hex |
| FetchShows.ParseRaisesIff | fetch_shows.py:117-145 | parsing raises (an uncaught TypeError) exactly when some item with title and link has a link without text |
| FetchShows.KeptPositions | fetch_shows.py:117-136 | the kept positions are increasing and each names an item with title, link and a hash in its link |
| FetchShows.KeptPositionsComplete | fetch_shows.py:117-136 | every item with title, link and a hash in its link is kept |
| FetchShows.ParsedEpisodesAreKeptItems | fetch_shows.py:117-136 | without a raise, the k-th episode is built from the k-th kept item, so the episodes are exactly the kept items in feed order |
| FetchShows.EpisodeHashes | fetch_shows.py:127-136 | every episode's hash is non-empty lower-case hex and is what its own link yields |
| FetchShows.ParseFeed | fetch_shows.py:100-145 | the filtering loop returns `FeedEpisodes`: `[]` for an unavailable feed, and otherwise the filtered items or the raise |
| FetchShows.FatesPartition | fetch_shows.py:185-220 | every episode is counted once, as added, skipped or failed |
| FetchShows.SkipEpisode | fetch_shows.py:198-201 | skipping an episode whose hash is indexed keeps the episode ledger |
| FetchShows.SubmitEpisode | fetch_shows.py:203-220 | submitting an episode with its own link keeps the episode ledger; its fate is the destination's answer |
| FetchShows.ProcessEpisode | fetch_shows.py:190-223 | one episode is skipped when its hash is indexed, otherwise submitted and counted as added (its hash joining the index) or failed |
| FetchShows.Run | fetch_shows.py:148-233 | a raising parse crashes and no episodes ends the run, both with nothing submitted; otherwise every episode is processed, and the three counters match the fates and sum to the number of episodes |
| FetchShows.RepeatIsSkipped | fetch_shows.py:198-214 | once an episode is added, a later episode with the same hash is skipped rather than submitted |
| FetchShows.AddedEpisodesIndexed | fetch_shows.py:212-214 | every added episode's hash is in the index at the end |

## Left out

- Token check and environment parsing: the missing-token exit and the parsing of `REAL_DEBRID_API_TOKEN`, `MIN_RATING`, `MAX_MOVIES`, `START_PAGE`, `MAX_PAGES`, `BATCH_SIZE` and `SHOWRSS_URL` are left out. `Config` and the drivers' parameters are the parsed values. `MIN_RATING` and `MAX_MOVIES` are only passed to the catalog, whose reply is an input. A malformed number (a `ValueError`) is not modelled.
- Text.LowerChar: only ASCII capitals are lowered. Python's `str.lower()` also lowers other capitals ('É' to 'é'), which the model keeps as they are.
- Text.Lower: it always keeps the length, while Python's `str.lower()` can lengthen a string ('İ' gives two code points). The scripts lower info hashes and the listing's hash fields, where the two agree on ASCII hex text.
- BulkFetch.ProcessMovie: the TypeError that the skip message raises, as written (see Findings), is not carried through the loops. The movie is skipped and the run goes on, as intended.
- BulkFetch.Run: it does not report the crash that the skip message's TypeError causes. That crash would end the run with no final record and no flag.
- BulkFetch.ResumePlan: the resume chain is defined only for a positive batch length. With `MAX_PAGES` and `BATCH_SIZE` both at most 0, which the script accepts unchecked, the chain never ends; ResumeStallsWithoutBatch states what one such run does.
- `get_total_movie_count`: it only feeds a printed line.
- `get_torrents`: the listing is an input. A failed request reads as an empty listing, the same as the script's `[]`. A listing entry without a `hash` field is the empty string, which the script also lower-cases into the index.
- HTTP, JSON and XML: replies are oracle inputs.
  - A catalog reply is `PageResponse`.
  - A destination reply is a `Response` per attempt; attempts past the supplied replies time out.
  - A feed is a list of items with their `title`, `link` and `pubDate` elements already found. `Unavailable` stands for a request error or an XML parse error, which the script turns into `[]`.
  - The exact HTTP status classes raised by `raise_for_status` are not modelled.
- `Retry.AddMagnet` and `Retry.SelectFiles`: the sleeps are returned as a list of requested durations, and no time passes. The drivers' own sleeps between requests and pages (1 s and 2 s) are not recorded.
- `BulkFetch.PageAt`: an exception out of a page fetch is modelled only for the one the code can raise there, a reply echoing limit 0 (`ZeroDivisionError`). Other runtime errors are not modelled.
- Timestamps (`datetime.now()`), the text of the error in an error record and all `print` output are left out. Progress records keep their page fields and the counters as they stood at each write.
- Real file I/O: every progress write is a whole-file overwrite in a log, and the flag file is one log entry. A failing write is not modelled: the periodic write's `try`/`except` is dropped, and the final write and the flag write cannot fail.
- `Magnet.ExtractMagnetHash`: the regular expression `urn:btih:([a-fA-F0-9]+)` is modelled as an explicit leftmost scan with a greedy hex run, not through a regex engine.
- `Retry.AddMagnet`: a success whose JSON has no `id` is modelled as the empty id, which the drivers treat as a failure, as they do `None`.

## Findings

| source | as written | input that shows it | evidently intended | confidence | as-written member | corrected member |
|---|---|---|---|---|---|---|
| bulk_fetch.py:281-294 | the skip message joins `[t.get("quality") for t in torrents]` with `', '.join`, which raises a TypeError when a torrent has no `quality`; no handler encloses it, so the run ends without a final record or the flag | the tenth movie processed, with torrents `[{"hash": h}]` | print the message and skip the movie (`total_skipped += 1`), as for every other movie with nothing to submit | not executed; the join's TypeError on None is standard Python | BulkFetch.SkipMessageRaisesOnUnlabelled | BulkFetch.ProcessMovie |
