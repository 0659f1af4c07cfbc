/**
  The movie loop shared by the two movie scripts: for every listed movie, pick
  the variants to submit, submit those whose hash the destination does not hold
  yet, and remember whether one of them was accepted (`movie_added`). The
  scripts differ in how they pick variants, in how they call the destination and
  in what they count, so all three are parameters here.
 */
module MovieLoop {
  import opened Wrappers
  import opened Text
  import opened Catalog
  import opened Submission

  /** How a script builds `torrents_to_add`: by preferred labels, or the first torrent only. */
  datatype Choice = Preferred(labels: seq<string>) | FirstOnly

  /** `torrents_to_add` for a movie. */
  function Chosen(choice: Choice, movie: Movie): seq<Torrent>
  {
    match choice
    case Preferred(labels) => Selection(movie.torrents, labels)
    case FirstOnly => if movie.torrents == [] then [] else [movie.torrents[0]]
  }

  /** A movie without torrents has nothing chosen. */
  lemma NoTorrentsNoChoice(choice: Choice, movie: Movie)
    requires movie.torrents == []
    ensures Chosen(choice, movie) == []
  {
    if choice.Preferred? {
      SelectionEmptyIff(movie.torrents, choice.labels);
    }
  }

  /** What is chosen is among the movie's torrents. */
  lemma ChosenFromTorrents(choice: Choice, movie: Movie)
    ensures forall t :: t in Chosen(choice, movie) ==> t in movie.torrents
    ensures choice.Preferred? ==> forall t :: t in Chosen(choice, movie) ==> t.quality.Some? && t.quality.value in choice.labels
    ensures choice.FirstOnly? ==> |Chosen(choice, movie)| <= 1
  {
    if choice.Preferred? {
      SelectionLabelsPreferred(movie.torrents, choice.labels);
    }
  }

  /** The selection step of the loop body, run once the movie is known to have torrents. */
  method ChooseVariants(choice: Choice, movie: Movie) returns (chosen: seq<Torrent>)
    requires movie.torrents != []
    ensures chosen == Chosen(choice, movie)
  {
    match choice {
      case Preferred(labels) =>
        chosen := SelectVariants(movie.torrents, labels);
      case FirstOnly =>
        chosen := [movie.torrents[0]];
    }
  }

  // ---------------------------------------------------------------------------
  // The movies processed so far and what happened to them

  /** Entry a comes before position (m, k): an earlier movie, or an earlier variant of movie m. */
  predicate Before(e: Entry, m: nat, k: nat)
  {
    e.item < m || (e.item == m && e.variant < k)
  }

  /** The number of false flags: movies that got no variant added. */
  function CountFalse(flags: seq<bool>): (n: nat)
    ensures n <= |flags|
  {
    if flags == [] then 0 else CountFalse(flags[..|flags| - 1]) + (if flags[|flags| - 1] then 0 else 1)
  }

  /** The number of true flags: movies that got some variant added. */
  function CountTrue(flags: seq<bool>): (n: nat)
    ensures n <= |flags|
  {
    if flags == [] then 0 else CountTrue(flags[..|flags| - 1]) + (if flags[|flags| - 1] then 1 else 0)
  }

  /** Every movie is either added or skipped. */
  lemma {:induction false} FlagsPartition(flags: seq<bool>)
    ensures CountTrue(flags) + CountFalse(flags) == |flags|
  {
    if flags != [] {
      FlagsPartition(flags[..|flags| - 1]);
    }
  }

  /** Every submission is variant `variant` of processed movie `item`, under its lower-cased hash and its link. */
  ghost predicate EntriesMatch(choice: Choice, processed: seq<Movie>, trace: seq<Entry>)
  {
    forall i :: 0 <= i < |trace| ==>
      trace[i].item < |processed| && VariantEntry(trace[i], trace[i].item, processed[trace[i].item], Chosen(choice, processed[trace[i].item]))
  }

  /** Submissions follow the loops: movie by movie, variant by variant. */
  ghost predicate InLoopOrder(trace: seq<Entry>)
  {
    forall i, j :: 0 <= i < j < |trace| ==> Before(trace[i], trace[j].item, trace[j].variant)
  }

  /** Variant k of movie m was submitted. */
  ghost predicate Submitted(trace: seq<Entry>, m: nat, k: nat)
  {
    exists i :: 0 <= i < |trace| && trace[i].item == m && trace[i].variant == k
  }

  /** Some variant of movie m was accepted: the loop's `movie_added`. */
  ghost predicate MovieGotAdded(trace: seq<Entry>, m: nat)
  {
    exists i :: 0 <= i < |trace| && trace[i].item == m && trace[i].added
  }

  /** Hash h was in the index when the loop reached variant k of movie m. */
  ghost predicate KnownAt(initial: set<string>, trace: seq<Entry>, h: string, m: nat, k: nat)
  {
    h in initial || exists i :: 0 <= i < |trace| && trace[i].added && trace[i].hash == h && Before(trace[i], m, k)
  }

  /** Every chosen variant that was not submitted had an empty hash, or a hash in the index at that point. */
  ghost predicate SkipsExplained(choice: Choice, initial: set<string>, processed: seq<Movie>, trace: seq<Entry>)
  {
    forall m, k :: 0 <= m < |processed| && 0 <= k < |Chosen(choice, processed[m])| && !Submitted(trace, m, k) ==>
      var h := Lower(Chosen(choice, processed[m])[k].hash);
      h == "" || KnownAt(initial, trace, h, m, k)
  }

  /** The submissions follow the loops, each belongs to its movie, and every chosen variant left out is explained. */
  ghost predicate RunEntries(choice: Choice, initial: set<string>, processed: seq<Movie>, trace: seq<Entry>)
  {
    EntriesMatch(choice, processed, trace) && InLoopOrder(trace) && SkipsExplained(choice, initial, processed, trace)
  }

  /** Each movie's `movie_added` flag says whether one of its variants was accepted. */
  ghost predicate FlagsMatch(movieAdded: seq<bool>, trace: seq<Entry>)
  {
    forall m :: 0 <= m < |movieAdded| ==> (movieAdded[m] <==> MovieGotAdded(trace, m))
  }

  /**
    What the movie and variant loops keep true: the dedup ledger, one flag per
    processed movie, and the submissions explained movie by movie.
   */
  ghost predicate MovieLedger(policy: Policy, dest: Destination, choice: Choice, initial: set<string>,
                              existing: set<string>, trace: seq<Entry>, processed: seq<Movie>, movieAdded: seq<bool>)
  {
    && LedgerValid(policy, dest, initial, existing, trace)
    && |movieAdded| == |processed|
    && RunEntries(choice, initial, processed, trace)
    && FlagsMatch(movieAdded, trace)
  }

  /** Before the first movie: nothing processed, nothing submitted. */
  lemma EmptyMovieLedger(policy: Policy, dest: Destination, choice: Choice, initial: set<string>)
    ensures MovieLedger(policy, dest, choice, initial, initial, [], [], [])
  {
    assert AddedHashes([]) == {};
  }

  /** The prefixes of a list walked by a `for` loop (used by the page loop's ProcessMovies to keep its invariant cheap). */
  lemma PrefixStep<T>(pre: seq<T>, xs: seq<T>, j: nat)
    requires j <= |xs|
    ensures j < |xs| ==> pre + xs[..j + 1] == (pre + xs[..j]) + [xs[j]]
    ensures j == 0 ==> pre + xs[..j] == pre
    ensures j == |xs| ==> pre + xs[..j] == pre + xs
  {
    if j < |xs| {
      assert xs[..j + 1] == xs[..j] + [xs[j]];
    }
  }

  /** The first j + 1 elements are the first j and element j; all of them are the list (used by the latest-movies loop). */
  lemma TakeStep<T>(xs: seq<T>, j: nat)
    requires j <= |xs|
    ensures j < |xs| ==> xs[..j + 1] == xs[..j] + [xs[j]]
    ensures j == |xs| ==> xs[..j] == xs
  {
  }

  // ---------------------------------------------------------------------------
  // One movie more

  lemma EntriesStep(choice: Choice, processed: seq<Movie>, movie: Movie, trace0: seq<Entry>, trace: seq<Entry>)
    requires EntriesMatch(choice, processed, trace0)
    requires |trace0| <= |trace| && trace[..|trace0|] == trace0
    requires forall i :: |trace0| <= i < |trace| ==> VariantEntry(trace[i], |processed|, movie, Chosen(choice, movie))
    ensures EntriesMatch(choice, processed + [movie], trace)
  {
    var ps := processed + [movie];
    forall i | 0 <= i < |trace|
      ensures trace[i].item < |ps| && VariantEntry(trace[i], trace[i].item, ps[trace[i].item], Chosen(choice, ps[trace[i].item]))
    {
      if i < |trace0| {
        assert trace[i] == trace0[i];
        assert ps[trace[i].item] == processed[trace[i].item];
      } else {
        assert ps[|processed|] == movie;
      }
    }
  }

  lemma OrderStep(choice: Choice, processed: seq<Movie>, trace0: seq<Entry>, trace: seq<Entry>)
    requires EntriesMatch(choice, processed, trace0) && InLoopOrder(trace0)
    requires |trace0| <= |trace| && trace[..|trace0|] == trace0
    requires forall i :: |trace0| <= i < |trace| ==> trace[i].item == |processed|
    requires forall i, j :: |trace0| <= i < j < |trace| ==> trace[i].variant < trace[j].variant
    ensures InLoopOrder(trace)
  {
    forall i, j | 0 <= i < j < |trace| ensures Before(trace[i], trace[j].item, trace[j].variant) {
      if j < |trace0| {
        assert trace[i] == trace0[i] && trace[j] == trace0[j];
      } else if i < |trace0| {
        assert trace[i] == trace0[i];
      }
    }
  }

  lemma FlagsStep(m: nat, flags0: seq<bool>, trace0: seq<Entry>, trace: seq<Entry>, added: nat)
    requires |flags0| == m
    requires FlagsMatch(flags0, trace0)
    requires forall i :: 0 <= i < |trace0| ==> trace0[i].item < m
    requires |trace0| <= |trace| && trace[..|trace0|] == trace0
    requires forall i :: |trace0| <= i < |trace| ==> trace[i].item == m
    requires added == CountAdded(trace[|trace0|..])
    ensures FlagsMatch(flags0 + [added > 0], trace)
  {
    var flags := flags0 + [added > 0];
    var tail := trace[|trace0|..];
    CountAddedPositive(tail);
    forall k | 0 <= k < |flags| ensures flags[k] <==> MovieGotAdded(trace, k) {
      if k < m {
        assert flags[k] == flags0[k];
        if MovieGotAdded(trace, k) {
          var i :| 0 <= i < |trace| && trace[i].item == k && trace[i].added;
          assert trace[i] == trace0[i];
        }
        if MovieGotAdded(trace0, k) {
          var i :| 0 <= i < |trace0| && trace0[i].item == k && trace0[i].added;
          assert trace[i] == trace0[i];
        }
      } else {
        if MovieGotAdded(trace, k) {
          var i :| 0 <= i < |trace| && trace[i].item == k && trace[i].added;
          assert tail[i - |trace0|] == trace[i];
        }
        if added > 0 {
          var i :| 0 <= i < |tail| && tail[i].added;
          assert trace[i + |trace0|] == tail[i];
        }
      }
    }
  }

  /** The run's counts of accepted and refused submissions and of added and skipped movies after one more movie. */
  lemma CountersStep(flags0: seq<bool>, trace0: seq<Entry>, trace: seq<Entry>, added: nat, failed: nat)
    requires |trace0| <= |trace| && trace[..|trace0|] == trace0
    requires added == CountAdded(trace[|trace0|..]) && added + failed == |trace| - |trace0|
    ensures CountAdded(trace) == CountAdded(trace0) + added
    ensures CountFailed(trace) == CountFailed(trace0) + failed
    ensures CountFalse(flags0 + [added > 0]) == CountFalse(flags0) + (if added > 0 then 0 else 1)
    ensures CountTrue(flags0 + [added > 0]) == CountTrue(flags0) + (if added > 0 then 1 else 0)
  {
    assert trace0 + trace[|trace0|..] == trace;
    CountAddedAppend(trace0, trace[|trace0|..]);
    CountFailedAppend(trace0, trace[|trace0|..]);
    CountsPartition(trace[|trace0|..]);
    assert (flags0 + [added > 0])[..|flags0|] == flags0;
  }

  lemma SkipsStep(policy: Policy, dest: Destination, choice: Choice, initial: set<string>, processed: seq<Movie>, movie: Movie,
                  existing0: set<string>, trace0: seq<Entry>, trace: seq<Entry>)
    requires LedgerValid(policy, dest, initial, existing0, trace0)
    requires SkipsExplained(choice, initial, processed, trace0)
    requires forall i :: 0 <= i < |trace0| ==> trace0[i].item < |processed|
    requires |trace0| <= |trace| && trace[..|trace0|] == trace0
    requires forall i :: |trace0| <= i < |trace| ==> trace[i].item == |processed|
    requires SkipsJustified(Chosen(choice, movie), existing0, trace, |trace0|, |Chosen(choice, movie)|)
    ensures SkipsExplained(choice, initial, processed + [movie], trace)
  {
    var ps := processed + [movie];
    var m0 := |processed|;
    forall m, k | 0 <= m < |ps| && 0 <= k < |Chosen(choice, ps[m])| && !Submitted(trace, m, k)
      ensures Lower(Chosen(choice, ps[m])[k].hash) == "" || KnownAt(initial, trace, Lower(Chosen(choice, ps[m])[k].hash), m, k)
    {
      var h := Lower(Chosen(choice, ps[m])[k].hash);
      if m < m0 {
        assert ps[m] == processed[m];
        assert !Submitted(trace0, m, k) by {
          forall i | 0 <= i < |trace0| && trace0[i].item == m ensures trace0[i].variant != k {
            assert trace[i] == trace0[i];
          }
        }
        if h != "" && h !in initial {
          var i :| 0 <= i < |trace0| && trace0[i].added && trace0[i].hash == h && Before(trace0[i], m, k);
          assert trace[i] == trace0[i];
        }
      } else {
        assert ps[m] == movie;
        assert !Picked(trace, |trace0|, k) by {
          forall i | |trace0| <= i < |trace| ensures trace[i].variant != k {
            assert trace[i].item == m;
          }
        }
        if h != "" && h !in initial {
          if h in existing0 {
            assert h in AddedHashes(trace0);
            var i :| 0 <= i < |trace0| && trace0[i].added && trace0[i].hash == h;
            assert trace[i] == trace0[i];
          } else {
            var i :| |trace0| <= i < |trace| && trace[i].variant < k && trace[i].added && trace[i].hash == h;
            assert Before(trace[i], m, k);
          }
        }
      }
    }
  }

  /** The new entries belong to movie m. */
  lemma FreshEntriesOfMovie(policy: Policy, dest: Destination, choice: Choice, initial: set<string>, m: nat, movie: Movie,
                            existing0: set<string>, trace0: seq<Entry>, existing: set<string>, trace: seq<Entry>,
                            added: nat, failed: nat)
    requires VariantsSubmitted(policy, dest, m, movie, Chosen(choice, movie), initial, existing0, trace0, existing, trace, added, failed)
    ensures forall i :: |trace0| <= i < |trace| ==> trace[i].item == m
  {
    forall i | |trace0| <= i < |trace| ensures trace[i].item == m {
      assert VariantEntry(trace[i], m, movie, Chosen(choice, movie));
    }
  }

  /** The entries of the movie keep the per-entry facts: what each submitted, their order, and why the rest were skipped. */
  lemma MovieStepEntries(policy: Policy, dest: Destination, choice: Choice, initial: set<string>,
                         existing0: set<string>, trace0: seq<Entry>, processed: seq<Movie>, flags0: seq<bool>,
                         movie: Movie, existing: set<string>, trace: seq<Entry>, added: nat, failed: nat)
    requires MovieLedger(policy, dest, choice, initial, existing0, trace0, processed, flags0)
    requires VariantsSubmitted(policy, dest, |processed|, movie, Chosen(choice, movie), initial, existing0, trace0, existing, trace, added, failed)
    ensures RunEntries(choice, initial, processed + [movie], trace)
  {
    FreshEntriesOfMovie(policy, dest, choice, initial, |processed|, movie, existing0, trace0, existing, trace, added, failed);
    EntriesStep(choice, processed, movie, trace0, trace);
    OrderStep(choice, processed, trace0, trace);
    SkipsStep(policy, dest, choice, initial, processed, movie, existing0, trace0, trace);
  }

  /** The movie's flag follows its submissions. */
  lemma MovieStepFlags(policy: Policy, dest: Destination, choice: Choice, initial: set<string>,
                       existing0: set<string>, trace0: seq<Entry>, processed: seq<Movie>, flags0: seq<bool>,
                       movie: Movie, existing: set<string>, trace: seq<Entry>, added: nat, failed: nat)
    requires MovieLedger(policy, dest, choice, initial, existing0, trace0, processed, flags0)
    requires VariantsSubmitted(policy, dest, |processed|, movie, Chosen(choice, movie), initial, existing0, trace0, existing, trace, added, failed)
    ensures FlagsMatch(flags0 + [added > 0], trace)
  {
    FreshEntriesOfMovie(policy, dest, choice, initial, |processed|, movie, existing0, trace0, existing, trace, added, failed);
    FlagsStep(|processed|, flags0, trace0, trace, added);
  }

  /**
    Appending one movie, its flag (`movie_added`: some variant was accepted) and
    the submissions made for it keeps the ledger, and moves the counts of the
    run by the movie's own counts.
   */
  lemma MovieStep(policy: Policy, dest: Destination, choice: Choice, initial: set<string>,
                  existing0: set<string>, trace0: seq<Entry>, processed: seq<Movie>, flags0: seq<bool>,
                  movie: Movie, existing: set<string>, trace: seq<Entry>, added: nat, failed: nat)
    requires MovieLedger(policy, dest, choice, initial, existing0, trace0, processed, flags0)
    requires VariantsSubmitted(policy, dest, |processed|, movie, Chosen(choice, movie), initial, existing0, trace0, existing, trace, added, failed)
    ensures MovieLedger(policy, dest, choice, initial, existing, trace, processed + [movie], flags0 + [added > 0])
    ensures CountAdded(trace) == CountAdded(trace0) + added
    ensures CountFailed(trace) == CountFailed(trace0) + failed
    ensures CountFalse(flags0 + [added > 0]) == CountFalse(flags0) + (if added > 0 then 0 else 1)
    ensures CountTrue(flags0 + [added > 0]) == CountTrue(flags0) + (if added > 0 then 1 else 0)
  {
    MovieStepEntries(policy, dest, choice, initial, existing0, trace0, processed, flags0, movie, existing, trace, added, failed);
    MovieStepFlags(policy, dest, choice, initial, existing0, trace0, processed, flags0, movie, existing, trace, added, failed);
    CountersStep(flags0, trace0, trace, added, failed);
  }

  /** With nothing chosen, the variant loop submits nothing. */
  lemma NothingChosen(policy: Policy, dest: Destination, item: nat, movie: Movie,
                      initial: set<string>, existing0: set<string>, trace0: seq<Entry>)
    requires LedgerValid(policy, dest, initial, existing0, trace0)
    ensures VariantsSubmitted(policy, dest, item, movie, [], initial, existing0, trace0, existing0, trace0, 0, 0)
  {
    assert trace0[..|trace0|] == trace0 && trace0[|trace0|..] == [];
  }

  /**
    The selection and the variant loop of one movie: a movie without torrents,
    or without a torrent to choose, submits nothing; otherwise its chosen
    variants go through the variant loop. `added` and `failed` are the movie's
    accepted and refused submissions.
   */
  method SubmitChosen(policy: Policy, dest: Destination, choice: Choice, item: nat, movie: Movie,
                      initial: set<string>, existing0: set<string>, trace0: seq<Entry>)
    returns (existing: set<string>, trace: seq<Entry>, added: nat, failed: nat)
    requires LedgerValid(policy, dest, initial, existing0, trace0)
    ensures VariantsSubmitted(policy, dest, item, movie, Chosen(choice, movie), initial, existing0, trace0, existing, trace, added, failed)
    ensures Chosen(choice, movie) == [] ==> existing == existing0 && trace == trace0 && added == 0 && failed == 0
  {
    if movie.torrents == [] {
      NoTorrentsNoChoice(choice, movie);
      NothingChosen(policy, dest, item, movie, initial, existing0, trace0);
      return existing0, trace0, 0, 0;
    }
    var chosen := ChooseVariants(choice, movie);
    if chosen == [] {
      NothingChosen(policy, dest, item, movie, initial, existing0, trace0);
      return existing0, trace0, 0, 0;
    }
    existing, trace, added, failed := SubmitVariants(policy, dest, item, movie, chosen, initial, existing0, trace0);
  }

  /**
    The body of `for movie in movies` up to the counters: the movie is processed,
    its `movie_added` flag is whether one of its submissions was accepted, and
    the run's counts of accepted and refused submissions and of added and
    skipped movies move by the movie's own.
   */
  method VisitMovie(policy: Policy, dest: Destination, choice: Choice, initial: set<string>,
                    existing0: set<string>, trace0: seq<Entry>, processed: seq<Movie>, flags0: seq<bool>, movie: Movie)
    returns (existing: set<string>, trace: seq<Entry>, added: nat, failed: nat)
    requires MovieLedger(policy, dest, choice, initial, existing0, trace0, processed, flags0)
    ensures MovieLedger(policy, dest, choice, initial, existing, trace, processed + [movie], flags0 + [added > 0])
    ensures CountAdded(trace) == CountAdded(trace0) + added
    ensures CountFailed(trace) == CountFailed(trace0) + failed
    ensures CountFalse(flags0 + [added > 0]) == CountFalse(flags0) + (if added > 0 then 0 else 1)
    ensures CountTrue(flags0 + [added > 0]) == CountTrue(flags0) + (if added > 0 then 1 else 0)
    ensures Chosen(choice, movie) == [] ==> existing == existing0 && trace == trace0 && added == 0
    ensures |trace0| <= |trace| && trace[..|trace0|] == trace0
    ensures forall i :: |trace0| <= i < |trace| ==> trace[i].item == |processed|
  {
    existing, trace, added, failed := SubmitChosen(policy, dest, choice, |processed|, movie, initial, existing0, trace0);
    MovieStep(policy, dest, choice, initial, existing0, trace0, processed, flags0, movie, existing, trace, added, failed);
    FreshEntriesOfMovie(policy, dest, choice, initial, |processed|, movie, existing0, trace0, existing, trace, added, failed);
  }
}
