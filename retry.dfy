/**
  The destination service's `add_magnet` and `select_files` calls and their
  attempt loops. The network is an oracle: `replies[k]` is what the k-th attempt
  of one call receives; an attempt past the end of `replies` times out.
 */
module Retry {
  import opened Wrappers

  /** What one HTTP attempt ends in: a 2xx reply carrying the JSON `id`, an HTTP error status, or a transport error. */
  datatype Response = Ok(id: string) | HttpErr(status: int) | TransportErr

  const RATE_LIMITED: int := 429
  const NOT_FOUND: int := 404
  /** The fixed wait between `select_files` attempts. */
  const SELECT_WAIT: int := 2
  /** The `retry_count` default used by every caller. */
  const DEFAULT_RETRIES: int := 3

  function Answer(replies: seq<Response>, attempt: nat): Response
  {
    if attempt < |replies| then replies[attempt] else TransportErr
  }

  /** What an `add_magnet` call returns, how many requests it made, and the sleeps it requested, in order. */
  datatype AddOutcome = AddOutcome(id: Option<string>, attempts: nat, waits: seq<int>)

  /** What a `select_files` call returns, how many requests it made, and the sleeps it requested. */
  datatype SelectOutcome = SelectOutcome(ok: bool, attempts: nat, waits: seq<int>)

  // ---------------------------------------------------------------------------
  // add_magnet: retries only on 429, sleeping (attempt + 1) * unit

  /** The attempt loop of `add_magnet` from attempt index `attempt` on. */
  function AddMagnetFrom(replies: seq<Response>, retryCount: int, unit: int, attempt: nat): AddOutcome
    decreases retryCount - attempt
  {
    if attempt >= retryCount then AddOutcome(None, attempt, [])
    else match Answer(replies, attempt)
      case Ok(id) => AddOutcome(Some(id), attempt + 1, [])
      case HttpErr(status) =>
        if status == RATE_LIMITED && attempt < retryCount - 1 then
          var rest := AddMagnetFrom(replies, retryCount, unit, attempt + 1);
          AddOutcome(rest.id, rest.attempts, [(attempt + 1) * unit] + rest.waits)
        else AddOutcome(None, attempt + 1, [])
      case TransportErr => AddOutcome(None, attempt + 1, [])
  }

  function AddMagnetSpec(replies: seq<Response>, retryCount: int, unit: int): AddOutcome
  {
    AddMagnetFrom(replies, retryCount, unit, 0)
  }

  /** `RealDebridClient.add_magnet(magnet_link, retry_count)` with backoff unit `unit`. */
  method AddMagnet(replies: seq<Response>, retryCount: int, unit: int) returns (id: Option<string>, attempts: nat, waits: seq<int>)
    ensures AddOutcome(id, attempts, waits) == AddMagnetSpec(replies, retryCount, unit)
  {
    var attempt: nat := 0;
    waits := [];
    while attempt < retryCount
      invariant var rest := AddMagnetFrom(replies, retryCount, unit, attempt);
        AddMagnetSpec(replies, retryCount, unit) == AddOutcome(rest.id, rest.attempts, waits + rest.waits)
      decreases retryCount - attempt
    {
      match Answer(replies, attempt)
      case Ok(x) =>
        return Some(x), attempt + 1, waits;
      case HttpErr(status) =>
        if status == RATE_LIMITED && attempt < retryCount - 1 {
          var rest := AddMagnetFrom(replies, retryCount, unit, attempt + 1);
          assert waits + ([(attempt + 1) * unit] + rest.waits) == (waits + [(attempt + 1) * unit]) + rest.waits;
          waits := waits + [(attempt + 1) * unit];
          attempt := attempt + 1;
          continue;
        }
        return None, attempt + 1, waits;
      case TransportErr =>
        return None, attempt + 1, waits;
    }
    assert waits + [] == waits;
    return None, attempt, waits;
  }

  /**
    What `add_magnet` does, stated without its loop: at most `retryCount` requests;
    every request but the last got a 429; it stops early only on a reply that is
    not a 429; it returns an id exactly when the last request succeeded; and it
    slept (k + 1) * unit before request k + 1.
   */
  lemma {:induction false} AddMagnetFromMeaning(replies: seq<Response>, retryCount: int, unit: int, attempt: nat)
    requires attempt < retryCount
    ensures var o := AddMagnetFrom(replies, retryCount, unit, attempt);
      && attempt < o.attempts <= retryCount
      && |o.waits| == o.attempts - 1 - attempt
      && (forall k :: 0 <= k < |o.waits| ==> o.waits[k] == (attempt + k + 1) * unit)
      && (forall k :: attempt <= k < o.attempts - 1 ==> Answer(replies, k) == HttpErr(RATE_LIMITED))
      && (o.attempts < retryCount ==> Answer(replies, o.attempts - 1) != HttpErr(RATE_LIMITED))
      && (o.id.Some? <==> Answer(replies, o.attempts - 1).Ok?)
      && (o.id.Some? ==> o.id.value == Answer(replies, o.attempts - 1).id)
    decreases retryCount - attempt
  {
    match Answer(replies, attempt)
    case Ok(_) =>
    case TransportErr =>
    case HttpErr(status) =>
      if status == RATE_LIMITED && attempt < retryCount - 1 {
        AddMagnetFromMeaning(replies, retryCount, unit, attempt + 1);
      }
  }

  lemma AddMagnetMeaning(replies: seq<Response>, retryCount: int, unit: int)
    ensures var o := AddMagnetSpec(replies, retryCount, unit);
      && (retryCount <= 0 ==> o == AddOutcome(None, 0, []))
      && (retryCount > 0 ==>
        && 1 <= o.attempts <= retryCount
        && |o.waits| == o.attempts - 1
        && (forall k :: 0 <= k < |o.waits| ==> o.waits[k] == (k + 1) * unit)
        && (forall k :: 0 <= k < o.attempts - 1 ==> Answer(replies, k) == HttpErr(RATE_LIMITED))
        && (o.attempts < retryCount ==> Answer(replies, o.attempts - 1) != HttpErr(RATE_LIMITED))
        && (o.id.Some? <==> Answer(replies, o.attempts - 1).Ok?)
        && (o.id.Some? ==> o.id.value == Answer(replies, o.attempts - 1).id))
  {
    if retryCount > 0 {
      AddMagnetFromMeaning(replies, retryCount, unit, 0);
    }
  }

  /** A reply that is neither a success nor a 429 ends the call at once, with no id and no sleep. */
  lemma AddMagnetGivesUpOnOtherErrors(replies: seq<Response>, retryCount: int, unit: int)
    requires retryCount > 0
    requires !Answer(replies, 0).Ok? && Answer(replies, 0) != HttpErr(RATE_LIMITED)
    ensures AddMagnetSpec(replies, retryCount, unit) == AddOutcome(None, 1, [])
  {
  }

  /** Three 429 replies: three requests, sleeps of 10 and 20 seconds (unit 10) or 5 and 10 (unit 5), no id. */
  lemma AddMagnetRateLimitedThrice(unit: int)
    ensures var r := [HttpErr(429), HttpErr(429), HttpErr(429)];
      AddMagnetSpec(r, DEFAULT_RETRIES, unit) == AddOutcome(None, 3, [unit, 2 * unit])
  {
  }

  // ---------------------------------------------------------------------------
  // select_files: retries 404 and transport errors, sleeping SELECT_WAIT

  predicate SelectRetryable(r: Response)
  {
    r == HttpErr(NOT_FOUND) || r == TransportErr
  }

  /** The attempt loop of `select_files` from attempt index `attempt` on. */
  function SelectFilesFrom(replies: seq<Response>, retryCount: int, attempt: nat): SelectOutcome
    decreases retryCount - attempt
  {
    if attempt >= retryCount then SelectOutcome(false, attempt, [])
    else match Answer(replies, attempt)
      case Ok(_) => SelectOutcome(true, attempt + 1, [])
      case _ =>
        if SelectRetryable(Answer(replies, attempt)) && attempt < retryCount - 1 then
          var rest := SelectFilesFrom(replies, retryCount, attempt + 1);
          SelectOutcome(rest.ok, rest.attempts, [SELECT_WAIT] + rest.waits)
        else SelectOutcome(false, attempt + 1, [])
  }

  function SelectFilesSpec(replies: seq<Response>, retryCount: int): SelectOutcome
  {
    SelectFilesFrom(replies, retryCount, 0)
  }

  /** `RealDebridClient.select_files(torrent_id, retry_count)`. */
  method SelectFiles(replies: seq<Response>, retryCount: int) returns (ok: bool, attempts: nat, waits: seq<int>)
    ensures SelectOutcome(ok, attempts, waits) == SelectFilesSpec(replies, retryCount)
  {
    var attempt: nat := 0;
    waits := [];
    while attempt < retryCount
      invariant var rest := SelectFilesFrom(replies, retryCount, attempt);
        SelectFilesSpec(replies, retryCount) == SelectOutcome(rest.ok, rest.attempts, waits + rest.waits)
      decreases retryCount - attempt
    {
      match Answer(replies, attempt)
      case Ok(_) =>
        return true, attempt + 1, waits;
      case HttpErr(status) =>
        if status == NOT_FOUND && attempt < retryCount - 1 {
          var rest := SelectFilesFrom(replies, retryCount, attempt + 1);
          assert waits + ([SELECT_WAIT] + rest.waits) == (waits + [SELECT_WAIT]) + rest.waits;
          waits := waits + [SELECT_WAIT];
          attempt := attempt + 1;
          continue;
        }
        return false, attempt + 1, waits;
      case TransportErr =>
        if attempt < retryCount - 1 {
          var rest := SelectFilesFrom(replies, retryCount, attempt + 1);
          assert waits + ([SELECT_WAIT] + rest.waits) == (waits + [SELECT_WAIT]) + rest.waits;
          waits := waits + [SELECT_WAIT];
          attempt := attempt + 1;
          continue;
        }
        return false, attempt + 1, waits;
    }
    assert waits + [] == waits;
    return false, attempt, waits;
  }

  /**
    What `select_files` does, stated without its loop: at most `retryCount`
    requests; every request but the last got a 404 or a transport error, each
    followed by a 2-second sleep; it stops early only on a reply that is not
    retried; and it returns true exactly when some request succeeded.
   */
  lemma {:induction false} SelectFilesFromMeaning(replies: seq<Response>, retryCount: int, attempt: nat)
    requires attempt < retryCount
    ensures var o := SelectFilesFrom(replies, retryCount, attempt);
      && attempt < o.attempts <= retryCount
      && o.waits == seq(o.attempts - 1 - attempt, _ => SELECT_WAIT)
      && (forall k :: attempt <= k < o.attempts - 1 ==> SelectRetryable(Answer(replies, k)))
      && (o.attempts < retryCount ==> !SelectRetryable(Answer(replies, o.attempts - 1)))
      && (o.ok <==> Answer(replies, o.attempts - 1).Ok?)
      && (o.ok <==> exists k :: attempt <= k < o.attempts && Answer(replies, k).Ok?)
    decreases retryCount - attempt
  {
    var o := SelectFilesFrom(replies, retryCount, attempt);
    var r := Answer(replies, attempt);
    if !r.Ok? && SelectRetryable(r) && attempt < retryCount - 1 {
      SelectFilesFromMeaning(replies, retryCount, attempt + 1);
      var rest := SelectFilesFrom(replies, retryCount, attempt + 1);
      assert o.waits == [SELECT_WAIT] + rest.waits;
    }
  }

  lemma SelectFilesMeaning(replies: seq<Response>, retryCount: int)
    ensures var o := SelectFilesSpec(replies, retryCount);
      && (retryCount <= 0 ==> o == SelectOutcome(false, 0, []))
      && (retryCount > 0 ==>
        && 1 <= o.attempts <= retryCount
        && o.waits == seq(o.attempts - 1, _ => SELECT_WAIT)
        && (forall k :: 0 <= k < o.attempts - 1 ==> SelectRetryable(Answer(replies, k)))
        && (o.attempts < retryCount ==> !SelectRetryable(Answer(replies, o.attempts - 1)))
        && (o.ok <==> exists k :: 0 <= k < o.attempts && Answer(replies, k).Ok?))
  {
    if retryCount > 0 {
      SelectFilesFromMeaning(replies, retryCount, 0);
    }
  }

  /** A status other than 404 ends `select_files` at once with false. */
  lemma SelectFilesGivesUpOnOtherStatus(replies: seq<Response>, retryCount: int, status: int)
    requires retryCount > 0 && status != NOT_FOUND
    requires Answer(replies, 0) == HttpErr(status)
    ensures SelectFilesSpec(replies, retryCount) == SelectOutcome(false, 1, [])
  {
  }

  /** A 404, a timed-out request, then success: three requests, two 2-second sleeps, true. */
  lemma SelectFilesSucceedsOnThirdTry(id: string)
    ensures SelectFilesSpec([HttpErr(404), TransportErr, Ok(id)], DEFAULT_RETRIES) == SelectOutcome(true, 3, [2, 2])
  {
  }

  // ---------------------------------------------------------------------------
  // The single-attempt calls of the latest-movies script

  /** `add_magnet` without retries: the id of a successful reply, otherwise None. */
  function AddMagnetOnce(reply: Response): (id: Option<string>)
    ensures id.Some? <==> reply.Ok?
  {
    match reply
    case Ok(x) => Some(x)
    case _ => None
  }

  /** `select_files` without retries: true exactly for a successful reply. */
  function SelectFilesOnce(reply: Response): (ok: bool)
    ensures ok <==> reply.Ok?
  {
    reply.Ok?
  }

  /** The single-attempt calls behave as the retrying ones with a retry count of 1. */
  lemma SingleAttemptIsOneTry(reply: Response, unit: int)
    ensures AddMagnetOnce(reply) == AddMagnetSpec([reply], 1, unit).id
    ensures SelectFilesOnce(reply) == SelectFilesSpec([reply], 1).ok
    ensures AddMagnetSpec([reply], 1, unit).waits == [] && SelectFilesSpec([reply], 1).waits == []
  {
  }
}
