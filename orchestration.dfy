/**
 * The main program of the tool once its arguments are read: choosing the
 * navigator, and the loop that hashes every URL in turn, reports each
 * result, collects the version information of the URLs that succeeded and
 * stops early only on request (or on an error it does not handle).
 *
 * The hashing of one URL is a function from the position and the URL to
 * the outcome of `get_hash_from_url` (see DigestReader), so that the same
 * URL may fare differently at two positions; the navigator's
 * `get_version_info` is a function of the URL.
 */
module Orchestration {
  import opened Base
  import opened Display
  import opened OrderedDicts

  /** The status the program exits with when it gives up. */
  const EXIT_FAILURE := 1

  datatype Selection<N> =
    | NotFound(end: End)                        // a message, then the exit
    | Chosen(navigator: N, warning: Option<string>)
    | SelectionFailed(error: Exception)

  /** The warning for an ambiguous name: it ends with the first character of the name (`args.navigator[0]`). */
  function MultipleWarning(name: string): string
    requires name != ""
  {
    "Error multiple navigators selected for " + name + " selecting the first one " + name[..1]
  }

  /**
   * Navigator selection: none found exits with status 1; otherwise the first
   * one is taken, with a warning when there were several. Indexing an empty
   * name for that warning raises `IndexError`.
   */
  function SelectNavigator<N>(navigators: seq<N>, name: string): (s: Selection<N>)
    ensures s.NotFound? <==> navigators == []
    ensures s.NotFound? ==> s.end == Exited(EXIT_FAILURE)
    ensures s.Chosen? ==> s.navigator == navigators[0]
    ensures s.Chosen? ==> (s.warning.Some? <==> |navigators| > 1)
    ensures s.Chosen? && s.warning.Some? ==>
      name != "" && s.warning.value != "" && s.warning.value[|s.warning.value| - 1] == name[0]
    ensures s.SelectionFailed? <==> |navigators| > 1 && name == ""
  {
    if |navigators| == 0 then NotFound(Exited(EXIT_FAILURE))
    else if |navigators| > 1 then
      if name == "" then SelectionFailed(Raised("IndexError"))
      else Chosen(navigators[0], Some(MultipleWarning(name)))
    else Chosen(navigators[0], None)
  }

  /** What the loop shows, in order. */
  datatype Event =
    | HashShown(url: string, hash: string, maxLengthUrl: nat, index: int, numUrls: nat, hashType: string)
    | ErrorReported(line: string)
    | ExitNotice

  /** How the program ends: `out.finish(...)` after the loop, `sys.exit(1)`, or an exception. */
  datatype End = Finished | Exited(status: int) | Crashed(error: Exception)

  type Attempt = (nat, string) -> Result<(string, string)>

  /** An outcome that ends the loop: an exception it does not handle, or a failed download under `--fail-early`. */
  predicate Stops(outcome: Result<(string, string)>, failEarly: bool) {
    outcome.Err? && (!outcome.error.DownloadFailed? || failEarly)
  }

  /** The position, from `from` on, of the first URL whose outcome ends the loop, or the number of URLs. */
  function FirstStop(urls: seq<string>, attempt: Attempt, failEarly: bool, from: nat): (r: nat)
    requires from <= |urls|
    ensures from <= r <= |urls|
    ensures forall k :: from <= k < r ==> !Stops(attempt(k, urls[k]), failEarly)
    ensures r < |urls| ==> Stops(attempt(r, urls[r]), failEarly)
    decreases |urls| - from
  {
    if from == |urls| then from
    else if Stops(attempt(from, urls[from]), failEarly) then from
    else FirstStop(urls, attempt, failEarly, from + 1)
  }

  /** The URLs among the first `n` that were hashed, in order. */
  function Successes(urls: seq<string>, attempt: Attempt, n: nat): seq<string>
    requires n <= |urls|
  {
    if n == 0 then []
    else Successes(urls, attempt, n - 1) + (if attempt(n - 1, urls[n - 1]).Ok? then [urls[n - 1]] else [])
  }

  /** What the loop shows for the URL at position `k`. */
  function EventsAt(urls: seq<string>, attempt: Attempt, failEarly: bool, maxLengthUrl: nat, k: nat): seq<Event>
    requires k < |urls|
  {
    match attempt(k, urls[k])
    case Ok((hash, hashType)) => [HashShown(urls[k], hash, maxLengthUrl, k + 1, |urls|, hashType)]
    case Err(DownloadFailed(message)) =>
      [ErrorReported(ReportErrorLine(urls[k], [message], maxLengthUrl, k + 1))] + (if failEarly then [ExitNotice] else [])
    case Err(_) => []
  }

  /** What the loop shows for the first `n` URLs. */
  function Events(urls: seq<string>, attempt: Attempt, failEarly: bool, maxLengthUrl: nat, n: nat): seq<Event>
    requires n <= |urls|
  {
    if n == 0 then [] else Events(urls, attempt, failEarly, maxLengthUrl, n - 1) + EventsAt(urls, attempt, failEarly, maxLengthUrl, n - 1)
  }

  /**
   * How many URLs the loop attempts and how the program ends: all of them
   * and a normal finish when no outcome stops the loop; otherwise up to and
   * including the first one that does, then exit status 1 for a failed
   * download or that other exception itself.
   */
  function Ending(urls: seq<string>, attempt: Attempt, failEarly: bool): (r: (nat, End))
    ensures r.0 <= |urls|
    ensures r.1.Finished? <==> forall k :: 0 <= k < |urls| ==> !Stops(attempt(k, urls[k]), failEarly)
    ensures r.1.Finished? ==> r.0 == |urls|
    ensures !r.1.Finished? ==>
      && 0 < r.0
      && (forall k :: 0 <= k < r.0 - 1 ==> !Stops(attempt(k, urls[k]), failEarly))
      && var e := attempt(r.0 - 1, urls[r.0 - 1]);
         && Stops(e, failEarly)
         && r.1 == if e.error.DownloadFailed? then Exited(EXIT_FAILURE) else Crashed(e.error)
  {
    var stop := FirstStop(urls, attempt, failEarly, 0);
    if stop == |urls| then (|urls|, Finished)
    else
      var e := attempt(stop, urls[stop]).error;
      (stop + 1, if e.DownloadFailed? then Exited(EXIT_FAILURE) else Crashed(e))
  }

  /**
   * The per-URL loop of the main program. URLs are attempted in order, up to
   * and including the first one whose outcome stops the loop; every hashed
   * URL is shown and gets its version information, every failed download
   * is reported on the aligned result line, and the program finishes only
   * when no outcome stopped it. With `--fail-early` the first failed
   * download exits with status 1.
   */
  method RunUrls<V>(urls: seq<string>, attempt: Attempt, failEarly: bool, versionInfoOf: string -> V)
    returns (events: seq<Event>, versionInfo: Items<string, V>, attempted: nat, end: End)
    ensures (attempted, end) == Ending(urls, attempt, failEarly)
    ensures Shown(urls, attempt, failEarly, MaxStringLength(urls), versionInfoOf, attempted, events, versionInfo)
  {
    var maxLengthUrl := MaxStringLength(urls);
    var numUrls := |urls|;
    ghost var stop := FirstStop(urls, attempt, failEarly, 0);
    events := [];
    versionInfo := [];
    var i := 0;
    while i < |urls|
      invariant 0 <= i <= stop
      invariant Shown(urls, attempt, failEarly, maxLengthUrl, versionInfoOf, i, events, versionInfo)
    {
      var url := urls[i];
      var outcome := attempt(i, url);
      StopAt(urls, attempt, failEarly, i);
      EndingAt(urls, attempt, failEarly, i);
      ShownStep(urls, attempt, failEarly, maxLengthUrl, versionInfoOf, i, events, versionInfo);
      events := events + EventsAt(urls, attempt, failEarly, maxLengthUrl, i);
      if outcome.Ok? {
        versionInfo := Assign(versionInfo, url, versionInfoOf(url));
      } else if !outcome.error.DownloadFailed? {
        return events, versionInfo, i + 1, Crashed(outcome.error);
      } else if failEarly {
        return events, versionInfo, i + 1, Exited(EXIT_FAILURE);
      }
      i := i + 1;
    }
    EndingAt(urls, attempt, failEarly, i);
    return events, versionInfo, i, Finished;
  }

  /** What the loop has shown and collected after the first `n` URLs. */
  ghost predicate Shown<V>(urls: seq<string>, attempt: Attempt, failEarly: bool, maxLengthUrl: nat,
                           versionInfoOf: string -> V, n: nat, events: seq<Event>, versionInfo: Items<string, V>)
    requires n <= |urls|
  {
    && events == Events(urls, attempt, failEarly, maxLengthUrl, n)
    && IsDictOf(versionInfo, Successes(urls, attempt, n), versionInfoOf)
  }

  /** One iteration of the loop: the events of URL `i` are appended, and its version information is recorded when it was hashed. */
  lemma ShownStep<V>(urls: seq<string>, attempt: Attempt, failEarly: bool, maxLengthUrl: nat,
                     versionInfoOf: string -> V, i: nat, events: seq<Event>, versionInfo: Items<string, V>)
    requires i < |urls|
    requires Shown(urls, attempt, failEarly, maxLengthUrl, versionInfoOf, i, events, versionInfo)
    ensures Shown(urls, attempt, failEarly, maxLengthUrl, versionInfoOf, i + 1,
                  events + EventsAt(urls, attempt, failEarly, maxLengthUrl, i),
                  if attempt(i, urls[i]).Ok? then Assign(versionInfo, urls[i], versionInfoOf(urls[i])) else versionInfo)
  {
    SuccessesStep(urls, attempt, i);
    if attempt(i, urls[i]).Ok? {
      AssignNext(versionInfo, Successes(urls, attempt, i), urls[i], versionInfoOf);
    }
  }

  lemma SuccessesStep(urls: seq<string>, attempt: Attempt, i: nat)
    requires i < |urls|
    ensures attempt(i, urls[i]).Ok? ==> Successes(urls, attempt, i + 1) == Successes(urls, attempt, i) + [urls[i]]
    ensures attempt(i, urls[i]).Err? ==> Successes(urls, attempt, i + 1) == Successes(urls, attempt, i)
  {
    assert Successes(urls, attempt, i) + [] == Successes(urls, attempt, i);
  }

  /** The ending of the loop, for each place it may leave from. */
  lemma EndingAt(urls: seq<string>, attempt: Attempt, failEarly: bool, i: nat)
    requires i <= |urls| && i <= FirstStop(urls, attempt, failEarly, 0)
    ensures i == |urls| ==> Ending(urls, attempt, failEarly) == (|urls|, Finished)
    ensures i < |urls| && Stops(attempt(i, urls[i]), failEarly) ==>
      Ending(urls, attempt, failEarly)
        == (i + 1, if attempt(i, urls[i]).error.DownloadFailed? then Exited(EXIT_FAILURE) else Crashed(attempt(i, urls[i]).error))
  {
    if i < |urls| {
      StopAt(urls, attempt, failEarly, i);
    }
  }

  /** The loop, having reached position `i`, either stops there or goes on past it. */
  lemma StopAt(urls: seq<string>, attempt: Attempt, failEarly: bool, i: nat)
    requires i < |urls| && i <= FirstStop(urls, attempt, failEarly, 0)
    ensures Stops(attempt(i, urls[i]), failEarly) ==> FirstStop(urls, attempt, failEarly, 0) == i
    ensures !Stops(attempt(i, urls[i]), failEarly) ==> i < FirstStop(urls, attempt, failEarly, 0)
  {
  }

  /** Without `--fail-early`, and when every error is a failed download, every URL is attempted and the program finishes. */
  lemma {:induction false} NoFailEarlyVisitsAll(urls: seq<string>, attempt: Attempt, from: nat)
    requires from <= |urls|
    requires forall k :: 0 <= k < |urls| && attempt(k, urls[k]).Err? ==> attempt(k, urls[k]).error.DownloadFailed?
    ensures FirstStop(urls, attempt, false, from) == |urls|
    decreases |urls| - from
  {
    if from < |urls| {
      NoFailEarlyVisitsAll(urls, attempt, from + 1);
    }
  }

  /** With `--fail-early` the loop stops at the first URL that failed in any way, and no later URL is attempted. */
  lemma FailEarlyStopsAtFirstError(urls: seq<string>, attempt: Attempt, k: nat)
    requires k < |urls| && attempt(k, urls[k]).Err?
    ensures FirstStop(urls, attempt, true, 0) <= k
    ensures var stop := FirstStop(urls, attempt, true, 0);
      attempt(stop, urls[stop]).Err? && forall j :: 0 <= j < stop ==> attempt(j, urls[j]).Ok?
  {
  }

  /** The URLs with version information are those among the attempted ones whose outcome was a hash, in order. */
  lemma {:induction false} SuccessesAreTheHashedUrls(urls: seq<string>, attempt: Attempt, n: nat)
    requires n <= |urls|
    ensures forall u :: u in Successes(urls, attempt, n) <==>
      exists k :: 0 <= k < n && urls[k] == u && attempt(k, urls[k]).Ok?
    ensures |Successes(urls, attempt, n)| <= n
  {
    if n > 0 {
      SuccessesAreTheHashedUrls(urls, attempt, n - 1);
      var last := if attempt(n - 1, urls[n - 1]).Ok? then [urls[n - 1]] else [];
      forall u | u in Successes(urls, attempt, n)
        ensures exists k :: 0 <= k < n && urls[k] == u && attempt(k, urls[k]).Ok?
      {
        if u !in Successes(urls, attempt, n - 1) {
          assert u in last;
        }
      }
    }
  }

  /** Each result line shows the URL it belongs to, at its position (counted from 1) among all the URLs. */
  lemma {:induction false} EventsFollowUrls(urls: seq<string>, attempt: Attempt, failEarly: bool, maxLengthUrl: nat, n: nat)
    requires n <= |urls|
    ensures forall e :: e in Events(urls, attempt, failEarly, maxLengthUrl, n) && e.HashShown? ==>
      exists k :: 0 <= k < n && e.url == urls[k] && e.index == k + 1 && e.numUrls == |urls|
        && attempt(k, urls[k]) == Ok((e.hash, e.hashType))
  {
    if n > 0 {
      EventsFollowUrls(urls, attempt, failEarly, maxLengthUrl, n - 1);
    }
  }
}
