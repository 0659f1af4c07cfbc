/**
  Magnet URIs: how the movie scripts build them from an info hash and a display
  name, and how the episode script reads the info hash back out of one.
 */
module Magnet {
  import opened Wrappers
  import opened Text

  /** The search marker of `extract_magnet_hash`. */
  const MARKER: string := "urn:btih:"

  /** Everything `create_magnet_link` writes before the hash. */
  const PREFIX: string := "magnet:?xt=urn:btih:"

  /** The announce endpoints, in the order they are appended. */
  const TRACKERS: seq<string> := [
    "udp://open.demonii.com:1337/announce",
    "udp://tracker.openbittorrent.com:80",
    "udp://tracker.coppersurfer.tk:6969",
    "udp://glotorrents.pw:6969/announce",
    "udp://tracker.opentrackr.org:1337/announce",
    "udp://torrent.gresille.org:80/announce",
    "udp://p4p.arenabg.com:1337",
    "udp://tracker.leechers-paradise.org:6969"
  ]

  /** `movie_name.replace(" ", "+")`. */
  function CleanName(name: string): (r: string)
    ensures |r| == |name|
    ensures forall i :: 0 <= i < |name| ==> r[i] == (if name[i] == ' ' then '+' else name[i])
    ensures ' ' !in r
  {
    seq(|name|, i requires 0 <= i < |name| => if name[i] == ' ' then '+' else name[i])
  }

  /** The `&tr=` parameters for the first n trackers of ts, in order. */
  function TrackerParams(ts: seq<string>, n: nat): string
    requires n <= |ts|
  {
    if n == 0 then "" else TrackerParams(ts, n - 1) + "&tr=" + ts[n - 1]
  }

  /** The URI `create_magnet_link(hash, name)` returns. */
  function MagnetLink(hash: string, name: string): string
  {
    PREFIX + hash + "&dn=" + CleanName(name) + TrackerParams(TRACKERS, |TRACKERS|)
  }

  /** The f-string head followed by one `&tr=` parameter per tracker, appended in a loop. */
  method CreateMagnetLink(hash: string, name: string) returns (magnet: string)
    ensures magnet == MagnetLink(hash, name)
  {
    var cleanName := CleanName(name);
    var head := PREFIX + hash + "&dn=" + cleanName;
    magnet := head;
    for i := 0 to |TRACKERS|
      invariant magnet == head + TrackerParams(TRACKERS, i)
    {
      magnet := magnet + "&tr=" + TRACKERS[i];
    }
  }

  /** Number of occurrences of c in s. */
  function CountChar(s: string, c: char): nat
  {
    if s == [] then 0 else CountChar(s[..|s| - 1], c) + (if s[|s| - 1] == c then 1 else 0)
  }

  lemma {:induction false} CountCharAppend(a: string, b: string, c: char)
    ensures CountChar(a + b, c) == CountChar(a, c) + CountChar(b, c)
    decreases |b|
  {
    if b == [] {
      assert a + b == a;
    } else {
      assert (a + b)[..|a + b| - 1] == a + b[..|b| - 1];
      CountCharAppend(a, b[..|b| - 1], c);
    }
  }

  /** With no `&` inside a tracker, the tracker part holds one `&` per tracker. */
  lemma {:induction false} TrackerParamsAmpersands(ts: seq<string>, n: nat)
    requires n <= |ts|
    requires forall k :: 0 <= k < n ==> '&' !in ts[k]
    ensures CountChar(TrackerParams(ts, n), '&') == n
  {
    if n > 0 {
      var t := ts[n - 1];
      TrackerParamsAmpersands(ts, n - 1);
      CountCharAppend(TrackerParams(ts, n - 1), "&tr=", '&');
      CountCharAppend(TrackerParams(ts, n - 1) + "&tr=", t, '&');
      NoOccurrence(t, '&');
      CountCharAppend("&", "tr=", '&');
      NoOccurrence("tr=", '&');
      assert "&" + "tr=" == "&tr=";
    }
  }

  lemma {:induction false} NoOccurrence(s: string, c: char)
    requires c !in s
    ensures CountChar(s, c) == 0
  {
    if s != [] {
      assert c !in s[..|s| - 1];
      NoOccurrence(s[..|s| - 1], c);
    }
  }

  /** The first four tracker URLs contain no `&` (a step of EightTrackerParams, split to keep it cheap). */
  lemma FirstTrackersLackAmpersand()
    ensures forall k :: 0 <= k < 4 ==> '&' !in TRACKERS[k]
  {
  }

  /** The last four tracker URLs contain no `&` (a step of EightTrackerParams, split to keep it cheap). */
  lemma LastTrackersLackAmpersand()
    ensures forall k :: 4 <= k < 8 ==> '&' !in TRACKERS[k]
  {
  }

  /**
    A tracker URL never contains `&`, so the fixed list gives exactly eight
    `&tr=` parameters, one per tracker.
   */
  lemma EightTrackerParams()
    ensures |TRACKERS| == 8
    ensures CountChar(TrackerParams(TRACKERS, |TRACKERS|), '&') == 8
  {
    FirstTrackersLackAmpersand();
    LastTrackersLackAmpersand();
    TrackerParamsAmpersands(TRACKERS, |TRACKERS|);
  }

  /** The hash `create_magnet_link` writes starts at index |PREFIX| and is ended by `&dn=`. */
  lemma MagnetLinkLayout(hash: string, name: string)
    ensures var m := MagnetLink(hash, name);
      && |m| > |PREFIX| + |hash| + 4
      && m[..|PREFIX|] == PREFIX
      && m[|PREFIX|..|PREFIX| + |hash|] == hash
      && m[|PREFIX| + |hash|..|PREFIX| + |hash| + 4] == "&dn="
      && m[|PREFIX| + |hash| + 4..|PREFIX| + |hash| + 4 + |name|] == CleanName(name)
  {
    var m := MagnetLink(hash, name);
    assert m == PREFIX + hash + "&dn=" + CleanName(name) + TrackerParams(TRACKERS, |TRACKERS|);
  }

  // ---------------------------------------------------------------------------
  // extract_magnet_hash: re.search(r'urn:btih:([a-fA-F0-9]+)', link), lower-cased

  /** A regex match starts at i: the marker, then at least one hex digit. */
  predicate MarkerAt(s: string, i: nat)
  {
    i + |MARKER| < |s| && s[i..i + |MARKER|] == MARKER && IsHexDigit(s[i + |MARKER|])
  }

  /** The leftmost match position at or after `from`. */
  function FindMarker(s: string, from: nat): (r: Option<nat>)
    requires from <= |s|
    ensures r.Some? ==> from <= r.value && MarkerAt(s, r.value)
    ensures r.Some? ==> forall j :: from <= j < r.value ==> !MarkerAt(s, j)
    ensures r.None? ==> forall j :: from <= j ==> !MarkerAt(s, j)
    decreases |s| - from
  {
    if from == |s| then None
    else if MarkerAt(s, from) then Some(from)
    else FindMarker(s, from + 1)
  }

  /** The end of the greedy `[a-fA-F0-9]+` run that starts at j. */
  function HexRunEnd(s: string, j: nat): (e: nat)
    requires j <= |s|
    ensures j <= e <= |s|
    ensures IsHex(s[j..e])
    ensures e == |s| || !IsHexDigit(s[e])
    decreases |s| - j
  {
    if j < |s| && IsHexDigit(s[j]) then HexRunEnd(s, j + 1) else j
  }

  /** `extract_magnet_hash`: the lower-cased hex run after the first marker that has one. */
  function ExtractMagnetHash(link: string): (r: Option<string>)
    ensures r.None? <==> forall i :: !MarkerAt(link, i)
    ensures r.Some? ==> r.value != [] && IsHex(r.value) && IsLowerCase(r.value)
  {
    match FindMarker(link, 0)
    case None => None
    case Some(i) =>
      var start := i + |MARKER|;
      var run := link[start..HexRunEnd(link, start)];
      LowerKeepsHex(run);
      LowerIsLowerCase(run);
      Some(Lower(run))
  }

  /** No match can start inside the fixed `magnet:?xt=` head. */
  lemma NoMarkerInHead(m: string)
    requires |PREFIX| <= |m| && m[..|PREFIX|] == PREFIX
    ensures forall j :: 0 <= j < |PREFIX| - |MARKER| ==> !MarkerAt(m, j)
  {
    forall j | 0 <= j < |PREFIX| - |MARKER| ensures !MarkerAt(m, j) {
      assert m[j] == PREFIX[j];
    }
  }

  /** After PREFIX, a non-empty hex hash closed by `&` is exactly the hash extracted. */
  lemma ExtractAfterPrefix(hash: string, rest: string)
    requires hash != [] && IsHex(hash)
    requires rest != [] && rest[0] == '&'
    ensures ExtractMagnetHash(PREFIX + hash + rest) == Some(Lower(hash))
  {
    var m := PREFIX + hash + rest;
    var at := |PREFIX| - |MARKER|;
    assert m[..|PREFIX|] == PREFIX;
    NoMarkerInHead(m);
    assert m[at..at + |MARKER|] == MARKER by {
      assert m[at..at + |MARKER|] == PREFIX[at..];
    }
    assert m[|PREFIX|] == hash[0];
    assert MarkerAt(m, at);
    assert FindMarker(m, 0) == Some(at);
    var end := |PREFIX| + |hash|;
    assert m[end] == '&';
    var e := HexRunEnd(m, |PREFIX|);
    assert m[|PREFIX|..e] == hash;
  }

  /**
    Round trip: the hash written by `create_magnet_link` is the one
    `extract_magnet_hash` reads back, because the `&` of `&dn=` ends the hex run.
   */
  lemma ExtractOfMagnetLink(hash: string, name: string)
    requires hash != [] && IsHex(hash)
    ensures ExtractMagnetHash(MagnetLink(hash, name)) == Some(Lower(hash))
  {
    var rest := "&dn=" + CleanName(name) + TrackerParams(TRACKERS, |TRACKERS|);
    assert MagnetLink(hash, name) == PREFIX + hash + rest;
    ExtractAfterPrefix(hash, rest);
  }

  /** A link with another URN (`urn:sha1:`), or with nothing hex after the marker, yields no hash. */
  lemma ExtractWithoutMarker()
    ensures ExtractMagnetHash("magnet:?xt=urn:sha1:abc") == None
    ensures ExtractMagnetHash("urn:btih:&dn=x") == None
  {
    var a := "magnet:?xt=urn:sha1:abc";
    forall i: nat ensures !MarkerAt(a, i) {
      if i + |MARKER| < |a| {
        assert a[i..i + |MARKER|][0] == a[i];
        assert a[i..i + |MARKER|][5] == a[i + 5];
      }
    }
    var b := "urn:btih:&dn=x";
    forall i: nat ensures !MarkerAt(b, i) {
      if i + |MARKER| < |b| {
        assert b[i..i + |MARKER|][0] == b[i];
        assert b[i..i + |MARKER|][5] == b[i + 5];
      }
    }
  }
}
