/**
  The submission pipeline shared by the three scripts: the destination oracle,
  one add-then-select submission, the in-memory dedup index (`existing_hashes`)
  and the loop that submits the chosen variants of one movie.
 */
module Submission {
  import opened Wrappers
  import opened Text
  import opened Retry
  import opened Catalog
  import opened Magnet

  /**
    The destination service as seen by one run: the n-th submission of the run
    gets `addReplies[n]` for its `add_magnet` attempts and `selectReplies[n]` for
    its `select_files` attempts (missing entries: every attempt times out).
   */
  datatype Destination = Destination(addReplies: seq<seq<Response>>, selectReplies: seq<seq<Response>>)

  function AddRepliesFor(dest: Destination, n: nat): seq<Response>
  {
    if n < |dest.addReplies| then dest.addReplies[n] else []
  }

  function SelectRepliesFor(dest: Destination, n: nat): seq<Response>
  {
    if n < |dest.selectReplies| then dest.selectReplies[n] else []
  }

  /** How a script calls the destination: with the attempt loops, or with one attempt per call. */
  datatype Policy = Retrying(retryCount: int, backoffUnit: int) | SingleAttempt

  /** The bulk fetcher backs off 10 s per 429, the episode fetcher 5 s; the latest-movies script does not retry. */
  const BULK_POLICY: Policy := Retrying(DEFAULT_RETRIES, 10)
  const SHOWS_POLICY: Policy := Retrying(DEFAULT_RETRIES, 5)
  const LATEST_POLICY: Policy := SingleAttempt

  function AddResult(policy: Policy, replies: seq<Response>): Option<string>
  {
    match policy
    case Retrying(retryCount, unit) => AddMagnetSpec(replies, retryCount, unit).id
    case SingleAttempt => AddMagnetOnce(Answer(replies, 0))
  }

  function SelectResult(policy: Policy, replies: seq<Response>): bool
  {
    match policy
    case Retrying(retryCount, _) => SelectFilesSpec(replies, retryCount).ok
    case SingleAttempt => SelectFilesOnce(Answer(replies, 0))
  }

  /** The n-th submission is accepted: `add_magnet` returned a truthy id and `select_files` then returned true. */
  predicate Succeeds(policy: Policy, dest: Destination, n: nat)
  {
    var id := AddResult(policy, AddRepliesFor(dest, n));
    id.Some? && id.value != "" && SelectResult(policy, SelectRepliesFor(dest, n))
  }

  /** `torrent_id = rd.add_magnet(magnet)`, then `rd.select_files(torrent_id)` only if the id is truthy. */
  method Submit(policy: Policy, dest: Destination, n: nat) returns (added: bool)
    ensures added == Succeeds(policy, dest, n)
  {
    var id: Option<string>;
    match policy {
      case Retrying(retryCount, unit) =>
        var attempts, waits;
        id, attempts, waits := AddMagnet(AddRepliesFor(dest, n), retryCount, unit);
      case SingleAttempt =>
        id := AddMagnetOnce(Answer(AddRepliesFor(dest, n), 0));
    }
    if id.Some? && id.value != "" {
      match policy {
        case Retrying(retryCount, _) =>
          var attempts, waits;
          added, attempts, waits := SelectFiles(SelectRepliesFor(dest, n), retryCount);
        case SingleAttempt =>
          added := SelectFilesOnce(Answer(SelectRepliesFor(dest, n), 0));
      }
    } else {
      added := false;
    }
  }

  // ---------------------------------------------------------------------------
  // The dedup index

  /** `{t.get("hash", "").lower() for t in existing_torrents}`. */
  function LoadIndex(listing: seq<string>): (index: set<string>)
    ensures forall h :: h in listing ==> Lower(h) in index
  {
    if listing == [] then {}
    else
      var init := listing[..|listing| - 1];
      assert forall h :: h in listing ==> h in init || h == listing[|listing| - 1];
      LoadIndex(init) + {Lower(listing[|listing| - 1])}
  }

  /** The index holds only lower-cased hashes of the listing. */
  lemma {:induction false} LoadIndexOnlyListed(listing: seq<string>)
    ensures forall h :: h in LoadIndex(listing) ==> IsLowerCase(h) && exists g :: g in listing && Lower(g) == h
  {
    if listing != [] {
      var init, last := listing[..|listing| - 1], listing[|listing| - 1];
      LoadIndexOnlyListed(init);
      LowerIsLowerCase(last);
      forall h | h in LoadIndex(listing) ensures IsLowerCase(h) && exists g :: g in listing && Lower(g) == h {
        if h in LoadIndex(init) {
          var g :| g in init && Lower(g) == h;
          assert g in listing;
        } else {
          assert last in listing;
        }
      }
    }
  }

  /**
    One call to `add_magnet` in a run: which movie or episode (`item`) and which
    of its chosen variants (`variant`) it was for, the hash and link submitted,
    and whether the submission was accepted (both calls succeeded).
   */
  datatype Entry = Entry(item: nat, variant: nat, hash: string, magnet: string, added: bool)

  /** The hashes of the accepted submissions. */
  function AddedHashes(trace: seq<Entry>): set<string>
  {
    set i | 0 <= i < |trace| && trace[i].added :: trace[i].hash
  }

  /** The number of accepted submissions. */
  function CountAdded(trace: seq<Entry>): nat
  {
    if trace == [] then 0
    else CountAdded(trace[..|trace| - 1]) + (if trace[|trace| - 1].added then 1 else 0)
  }

  /** The number of refused submissions. */
  function CountFailed(trace: seq<Entry>): nat
  {
    if trace == [] then 0
    else CountFailed(trace[..|trace| - 1]) + (if trace[|trace| - 1].added then 0 else 1)
  }

  /**
    No submission of an empty hash or of a hash the destination already listed,
    and no submission of a hash after it was accepted earlier in the run.
   */
  ghost predicate Deduplicated(initial: set<string>, trace: seq<Entry>)
  {
    && (forall i :: 0 <= i < |trace| ==> trace[i].hash != "" && trace[i].hash !in initial)
    && (forall i, j :: 0 <= i < j < |trace| && trace[i].added ==> trace[i].hash != trace[j].hash)
  }

  /** Each recorded outcome is what the destination oracle answered that submission. */
  ghost predicate Answered(policy: Policy, dest: Destination, trace: seq<Entry>)
  {
    forall i :: 0 <= i < |trace| ==> trace[i].added == Succeeds(policy, dest, i)
  }

  /**
    The run's dedup state: the index is the loaded listing grown by exactly the
    accepted hashes, and the submissions so far are deduplicated and answered by the oracle.
   */
  ghost predicate LedgerValid(policy: Policy, dest: Destination, initial: set<string>, existing: set<string>, trace: seq<Entry>)
  {
    && existing == initial + AddedHashes(trace)
    && Deduplicated(initial, trace)
    && Answered(policy, dest, trace)
  }

  lemma AddedHashesAppend(trace: seq<Entry>, e: Entry)
    ensures AddedHashes(trace + [e]) == AddedHashes(trace) + (if e.added then {e.hash} else {})
  {
    var t := trace + [e];
    forall h | h in AddedHashes(t) ensures h in AddedHashes(trace) + (if e.added then {e.hash} else {}) {
      var i :| 0 <= i < |t| && t[i].added && t[i].hash == h;
      if i < |trace| {
        assert trace[i] == t[i];
      }
    }
    forall h | h in AddedHashes(trace) ensures h in AddedHashes(t) {
      var i :| 0 <= i < |trace| && trace[i].added && trace[i].hash == h;
      assert t[i] == trace[i];
    }
    if e.added {
      assert t[|trace|] == e;
    }
  }

  /** Submitting an unseen, non-empty hash and recording the oracle's answer keeps the ledger valid. */
  lemma LedgerAppend(policy: Policy, dest: Destination, initial: set<string>, existing: set<string>, trace: seq<Entry>, e: Entry)
    requires LedgerValid(policy, dest, initial, existing, trace)
    requires e.hash != "" && e.hash !in existing
    requires e.added == Succeeds(policy, dest, |trace|)
    ensures LedgerValid(policy, dest, initial, if e.added then existing + {e.hash} else existing, trace + [e])
  {
    AddedHashesAppend(trace, e);
    var t := trace + [e];
    forall i, j | 0 <= i < j < |t| && t[i].added ensures t[i].hash != t[j].hash {
      assert t[i] == trace[i];
      if j == |trace| {
        assert trace[i].hash in AddedHashes(trace);
      }
    }
  }

  /** Distinct accepted hashes: the index grows by exactly the number of accepted submissions. */
  lemma {:induction false} IndexGrowsByAdded(policy: Policy, dest: Destination, initial: set<string>, existing: set<string>, trace: seq<Entry>)
    requires LedgerValid(policy, dest, initial, existing, trace)
    ensures |existing| == |initial| + CountAdded(trace)
  {
    AddedHashesCount(initial, trace);
  }

  lemma {:induction false} AddedHashesCount(initial: set<string>, trace: seq<Entry>)
    requires Deduplicated(initial, trace)
    ensures |AddedHashes(trace)| == CountAdded(trace)
    ensures AddedHashes(trace) !! initial
  {
    if trace != [] {
      var init := trace[..|trace| - 1];
      var e := trace[|trace| - 1];
      assert init + [e] == trace;
      AddedHashesCount(initial, init);
      AddedHashesAppend(init, e);
      if e.added {
        assert e.hash !in AddedHashes(init);
      }
    }
  }

  lemma {:induction false} CountAddedAppend(a: seq<Entry>, b: seq<Entry>)
    ensures CountAdded(a + b) == CountAdded(a) + CountAdded(b)
    decreases |b|
  {
    if b == [] {
      assert a + b == a;
    } else {
      assert (a + b)[..|a + b| - 1] == a + b[..|b| - 1];
      CountAddedAppend(a, b[..|b| - 1]);
    }
  }

  lemma {:induction false} CountFailedAppend(a: seq<Entry>, b: seq<Entry>)
    ensures CountFailed(a + b) == CountFailed(a) + CountFailed(b)
    decreases |b|
  {
    if b == [] {
      assert a + b == a;
    } else {
      assert (a + b)[..|a + b| - 1] == a + b[..|b| - 1];
      CountFailedAppend(a, b[..|b| - 1]);
    }
  }

  /** Every submission is either accepted or refused. */
  lemma {:induction false} CountsPartition(trace: seq<Entry>)
    ensures CountAdded(trace) + CountFailed(trace) == |trace|
  {
    if trace != [] {
      CountsPartition(trace[..|trace| - 1]);
    }
  }

  /** Some submission was accepted exactly when the accepted count is positive. */
  lemma {:induction false} CountAddedPositive(trace: seq<Entry>)
    ensures CountAdded(trace) > 0 <==> exists i :: 0 <= i < |trace| && trace[i].added
    ensures CountAdded(trace) <= |trace|
  {
    if trace != [] {
      var init := trace[..|trace| - 1];
      CountAddedPositive(init);
      if exists i :: 0 <= i < |init| && init[i].added {
        var i :| 0 <= i < |init| && init[i].added;
        assert trace[i] == init[i];
      }
      if exists i :: 0 <= i < |trace| && trace[i].added {
        var i :| 0 <= i < |trace| && trace[i].added;
        if i < |init| {
          assert trace[i] == init[i];
        }
      }
    }
  }

  // ---------------------------------------------------------------------------
  // The variant loop of the movie scripts

  /** How an f-string renders an optional field: the text, or `None` when it is missing. */
  function FieldText(field: Option<string>): (r: string)
    ensures field.Some? ==> r == field.value
    ensures field.None? ==> r == "None"
  {
    match field
    case Some(text) => text
    case None => "None"
  }

  /**
    The display name the movie scripts put in `dn`: f"{title} {year} {quality}",
    where a torrent without a `quality` field shows `None`.
   */
  function DisplayName(title: string, year: string, quality: Option<string>): string
  {
    title + " " + year + " " + FieldText(quality)
  }

  /**
    The name is the title, a space, the year, a space and the quality label, or
    `None` for a torrent without one, as Python renders the missing field.
   */
  lemma DisplayNameLayout(title: string, year: string, quality: Option<string>)
    ensures var name := DisplayName(title, year, quality);
      && |name| == |title| + |year| + |FieldText(quality)| + 2
      && name[..|title|] == title && name[|title|] == ' '
      && name[|title| + 1..|title| + 1 + |year|] == year && name[|title| + 1 + |year|] == ' '
      && name[|title| + |year| + 2..] == FieldText(quality)
    ensures quality.None? ==> DisplayName(title, year, quality)[|title| + |year| + 2..] == "None"
  {
  }

  /** Entry e submitted variant e.variant of this movie's chosen list, under its lower-cased hash. */
  ghost predicate VariantEntry(e: Entry, item: nat, movie: Movie, chosen: seq<Torrent>)
  {
    && e.item == item
    && e.variant < |chosen|
    && e.hash == Lower(chosen[e.variant].hash)
    && e.magnet == MagnetLink(e.hash, DisplayName(movie.title, movie.year, chosen[e.variant].quality))
  }

  /** The entries from index `from` on cover variant k. */
  ghost predicate Picked(trace: seq<Entry>, from: nat, k: nat)
  {
    exists i :: from <= i < |trace| && trace[i].variant == k
  }

  /** A hash in the index now was there before the movie, or was accepted for an earlier variant of it. */
  ghost predicate SeenBefore(h: string, existing0: set<string>, trace: seq<Entry>, from: nat, k: nat)
  {
    h in existing0 || exists i :: from <= i < |trace| && trace[i].variant < k && trace[i].added && trace[i].hash == h
  }

  /** Every variant before k that was not submitted had an empty hash or one seen before it. */
  ghost predicate SkipsJustified(chosen: seq<Torrent>, existing0: set<string>, trace: seq<Entry>, from: nat, k: nat)
    requires k <= |chosen|
  {
    forall k' :: 0 <= k' < k && !Picked(trace, from, k') ==>
      Lower(chosen[k'].hash) == "" || SeenBefore(Lower(chosen[k'].hash), existing0, trace, from, k')
  }

  lemma SeenBeforeGrows(h: string, existing0: set<string>, trace: seq<Entry>, trace': seq<Entry>, from: nat, k: nat, k': nat)
    requires SeenBefore(h, existing0, trace, from, k)
    requires |trace| <= |trace'| && trace'[..|trace|] == trace && k <= k'
    ensures SeenBefore(h, existing0, trace', from, k')
  {
    if h !in existing0 {
      var i :| from <= i < |trace| && trace[i].variant < k && trace[i].added && trace[i].hash == h;
      assert trace'[i] == trace[i];
    }
  }

  /** Skipping variant k, whose hash is empty or in the index, keeps the skips justified. */
  lemma SkipStep(chosen: seq<Torrent>, existing0: set<string>, existing: set<string>, trace: seq<Entry>, from: nat, k: nat)
    requires k < |chosen|
    requires SkipsJustified(chosen, existing0, trace, from, k)
    requires forall h :: h in existing ==> SeenBefore(h, existing0, trace, from, k)
    requires Lower(chosen[k].hash) == "" || Lower(chosen[k].hash) in existing
    ensures SkipsJustified(chosen, existing0, trace, from, k + 1)
    ensures forall h :: h in existing ==> SeenBefore(h, existing0, trace, from, k + 1)
  {
    forall h | h in existing ensures SeenBefore(h, existing0, trace, from, k + 1) {
      SeenBeforeGrows(h, existing0, trace, trace, from, k, k + 1);
    }
  }

  /** Submitting variant k as entry e keeps the skips justified. */
  lemma SubmitStep(chosen: seq<Torrent>, existing0: set<string>, existing: set<string>, existing': set<string>,
                   trace: seq<Entry>, from: nat, k: nat, e: Entry)
    requires k < |chosen| && from <= |trace|
    requires existing' == if e.added then existing + {e.hash} else existing
    requires SkipsJustified(chosen, existing0, trace, from, k)
    requires forall h :: h in existing ==> SeenBefore(h, existing0, trace, from, k)
    requires e.variant == k && e.hash == Lower(chosen[k].hash)
    ensures SkipsJustified(chosen, existing0, trace + [e], from, k + 1)
    ensures forall h :: h in existing' ==> SeenBefore(h, existing0, trace + [e], from, k + 1)
  {
    var t := trace + [e];
    assert t[..|trace|] == trace;
    forall k' | 0 <= k' < k + 1 && !Picked(t, from, k')
      ensures Lower(chosen[k'].hash) == "" || SeenBefore(Lower(chosen[k'].hash), existing0, t, from, k')
    {
      assert t[|trace|].variant == k;
      if !Picked(trace, from, k') {
        if Lower(chosen[k'].hash) != "" {
          SeenBeforeGrows(Lower(chosen[k'].hash), existing0, trace, t, from, k', k');
        }
      }
    }
    forall h | h in existing' ensures SeenBefore(h, existing0, t, from, k + 1) {
      if h in existing {
        SeenBeforeGrows(h, existing0, trace, t, from, k, k + 1);
      } else {
        assert t[|trace|] == e;
      }
    }
  }

  /** One pass of the variant loop that reaches `add_magnet`: build the link, submit, record, grow the index. */
  method SubmitVariant(policy: Policy, dest: Destination, item: nat, movie: Movie, chosen: seq<Torrent>, k: nat,
                       initial: set<string>, existing0: set<string>, trace0: seq<Entry>)
    returns (existing: set<string>, trace: seq<Entry>)
    requires k < |chosen|
    requires LedgerValid(policy, dest, initial, existing0, trace0)
    requires Lower(chosen[k].hash) != "" && Lower(chosen[k].hash) !in existing0
    ensures LedgerValid(policy, dest, initial, existing, trace)
    ensures |trace| == |trace0| + 1 && trace[..|trace0|] == trace0
    ensures var e := trace[|trace0|];
      && e.item == item && e.variant == k && e.hash == Lower(chosen[k].hash)
      && e.magnet == MagnetLink(e.hash, DisplayName(movie.title, movie.year, chosen[k].quality))
      && e.added == Succeeds(policy, dest, |trace0|)
      && existing == if e.added then existing0 + {e.hash} else existing0
  {
    var hash := Lower(chosen[k].hash);
    var magnet := CreateMagnetLink(hash, DisplayName(movie.title, movie.year, chosen[k].quality));
    var ok := Submit(policy, dest, |trace0|);
    var e := Entry(item, k, hash, magnet, ok);
    LedgerAppend(policy, dest, initial, existing0, trace0, e);
    trace := trace0 + [e];
    assert trace[..|trace0|] == trace0;
    existing := if ok then existing0 + {hash} else existing0;
  }

  /** What the variant loop has established after looking at the first k chosen variants. */
  ghost predicate VariantLoopInv(policy: Policy, dest: Destination, item: nat, movie: Movie, chosen: seq<Torrent>,
                                 initial: set<string>, existing0: set<string>, trace0: seq<Entry>,
                                 existing: set<string>, trace: seq<Entry>, added: nat, failed: nat, k: nat)
  {
    && k <= |chosen|
    && LedgerValid(policy, dest, initial, existing, trace)
    && |trace0| <= |trace| && trace[..|trace0|] == trace0
    && added == CountAdded(trace[|trace0|..]) && added + failed == |trace| - |trace0|
    && (forall i :: |trace0| <= i < |trace| ==> VariantEntry(trace[i], item, movie, chosen) && trace[i].variant < k)
    && (forall i, j :: |trace0| <= i < j < |trace| ==> trace[i].variant < trace[j].variant)
    && (forall h :: h in existing ==> SeenBefore(h, existing0, trace, |trace0|, k))
    && SkipsJustified(chosen, existing0, trace, |trace0|, k)
  }

  lemma SkipPreserves(policy: Policy, dest: Destination, item: nat, movie: Movie, chosen: seq<Torrent>,
                      initial: set<string>, existing0: set<string>, trace0: seq<Entry>,
                      existing: set<string>, trace: seq<Entry>, added: nat, failed: nat, k: nat)
    requires VariantLoopInv(policy, dest, item, movie, chosen, initial, existing0, trace0, existing, trace, added, failed, k)
    requires k < |chosen|
    requires Lower(chosen[k].hash) == "" || Lower(chosen[k].hash) in existing
    ensures VariantLoopInv(policy, dest, item, movie, chosen, initial, existing0, trace0, existing, trace, added, failed, k + 1)
  {
    SkipStep(chosen, existing0, existing, trace, |trace0|, k);
  }

  lemma SubmitPreserves(policy: Policy, dest: Destination, item: nat, movie: Movie, chosen: seq<Torrent>,
                        initial: set<string>, existing0: set<string>, trace0: seq<Entry>,
                        existing: set<string>, trace: seq<Entry>, added: nat, failed: nat, k: nat,
                        existing': set<string>, e: Entry)
    requires VariantLoopInv(policy, dest, item, movie, chosen, initial, existing0, trace0, existing, trace, added, failed, k)
    requires k < |chosen|
    requires LedgerValid(policy, dest, initial, existing', trace + [e])
    requires e.item == item && e.variant == k && e.hash == Lower(chosen[k].hash)
    requires e.magnet == MagnetLink(e.hash, DisplayName(movie.title, movie.year, chosen[k].quality))
    requires existing' == if e.added then existing + {e.hash} else existing
    ensures VariantLoopInv(policy, dest, item, movie, chosen, initial, existing0, trace0, existing', trace + [e],
                           if e.added then added + 1 else added, if e.added then failed else failed + 1, k + 1)
  {
    var t := trace + [e];
    SubmitStep(chosen, existing0, existing, existing', trace, |trace0|, k, e);
    assert t[|trace0|..] == trace[|trace0|..] + [e];
    CountAddedAppend(trace[|trace0|..], [e]);
    assert t[..|trace0|] == trace0;
    assert forall i :: 0 <= i < |trace| ==> t[i] == trace[i];
  }

  /** The body of the variant loop for chosen variant k: skip it, or submit it. */
  method VariantStep(policy: Policy, dest: Destination, item: nat, movie: Movie, chosen: seq<Torrent>,
                     initial: set<string>, existing0: set<string>, trace0: seq<Entry>,
                     existing: set<string>, trace: seq<Entry>, added: nat, failed: nat, k: nat)
    returns (existing': set<string>, trace': seq<Entry>, added': nat, failed': nat)
    requires k < |chosen|
    requires VariantLoopInv(policy, dest, item, movie, chosen, initial, existing0, trace0, existing, trace, added, failed, k)
    ensures VariantLoopInv(policy, dest, item, movie, chosen, initial, existing0, trace0, existing', trace', added', failed', k + 1)
  {
    var hash := Lower(chosen[k].hash);
    if hash == "" || hash in existing {
      SkipPreserves(policy, dest, item, movie, chosen, initial, existing0, trace0, existing, trace, added, failed, k);
      return existing, trace, added, failed;
    }
    existing', trace' := SubmitVariant(policy, dest, item, movie, chosen, k, initial, existing, trace);
    var e := trace'[|trace'| - 1];
    assert trace' == trace + [e];
    SubmitPreserves(policy, dest, item, movie, chosen, initial, existing0, trace0, existing, trace, added, failed, k, existing', e);
    if e.added {
      added', failed' := added + 1, failed;
    } else {
      added', failed' := added, failed + 1;
    }
  }

  /**
    What the variant loop of one movie leaves behind: a valid ledger that extends
    the old one, `added` accepted and `failed` refused new submissions, each of a
    chosen variant of this movie, in variant order, and a reason for every chosen
    variant that was not submitted.
   */
  ghost predicate VariantsSubmitted(policy: Policy, dest: Destination, item: nat, movie: Movie, chosen: seq<Torrent>,
                                    initial: set<string>, existing0: set<string>, trace0: seq<Entry>,
                                    existing: set<string>, trace: seq<Entry>, added: nat, failed: nat)
  {
    && LedgerValid(policy, dest, initial, existing, trace)
    && |trace0| <= |trace| && trace[..|trace0|] == trace0
    && added == CountAdded(trace[|trace0|..]) && added + failed == |trace| - |trace0|
    && (forall i :: |trace0| <= i < |trace| ==> VariantEntry(trace[i], item, movie, chosen))
    && (forall i, j :: |trace0| <= i < j < |trace| ==> trace[i].variant < trace[j].variant)
    && SkipsJustified(chosen, existing0, trace, |trace0|, |chosen|)
  }

  /**
    The loop over `torrents_to_add` of one movie: a variant is skipped when its
    lower-cased hash is empty or already in the index, and otherwise submitted
    under a link built from that hash; an accepted hash joins the index.
    `added` and `failed` count the accepted and the refused submissions.
   */
  method SubmitVariants(policy: Policy, dest: Destination, item: nat, movie: Movie, chosen: seq<Torrent>,
                        initial: set<string>, existing0: set<string>, trace0: seq<Entry>)
    returns (existing: set<string>, trace: seq<Entry>, added: nat, failed: nat)
    requires LedgerValid(policy, dest, initial, existing0, trace0)
    ensures VariantsSubmitted(policy, dest, item, movie, chosen, initial, existing0, trace0, existing, trace, added, failed)
  {
    existing, trace, added, failed := existing0, trace0, 0, 0;
    assert trace0[|trace0|..] == [];
    for k := 0 to |chosen|
      invariant VariantLoopInv(policy, dest, item, movie, chosen, initial, existing0, trace0, existing, trace, added, failed, k)
    {
      existing, trace, added, failed := VariantStep(policy, dest, item, movie, chosen, initial, existing0, trace0, existing, trace, added, failed, k);
    }
  }
}
