/** The program's main routine (fetch_servers.js:19-66): the `while (true)`
    loop over `fetchPage` results with its local `cursor`, `tries` and
    `servers`, followed by building the payload or exiting with status 1. */
module FetchServers {
  import opened Listing
  import opened Crawl

  /** The place whose servers are listed. */
  const PlaceId: int := 109983668079237

  /** The payload written to server_list.json. */
  datatype Snapshot = Snapshot(fetchedAt: int, placeId: int, servers: seq<Server>)

  /** What the program does once the loop is left: write the snapshot, exit
      with status 1 without writing, or, when the script of outcomes ran out
      first, nothing yet. */
  datatype Effect = WriteFile(snapshot: Snapshot) | ExitFailure | Pending

  /** The end of the program for a given end of the loop. `nowMs` is the
      value of `Date.now()`; `fetched_at` is it in whole seconds, rounded down. */
  function Publish(r: RunResult, nowMs: int): (e: Effect)
    ensures e.WriteFile? <==> r.Done?
    ensures e.ExitFailure? <==> r.Aborted?
    ensures e.WriteFile? ==>
      e.snapshot.servers == r.servers && e.snapshot.placeId == PlaceId &&
      e.snapshot.fetchedAt * 1000 <= nowMs < e.snapshot.fetchedAt * 1000 + 1000
  {
    match r
    case Done(servers) => WriteFile(Snapshot(nowMs / 1000, PlaceId, servers))
    case Aborted => ExitFailure
    case OutOfScript(_) => Pending
  }

  /** The inner `for` loop over one page: pushes the record of every entry
      with a free slot onto `servers`. */
  method AppendKept(servers: seq<Server>, entries: seq<Entry>) returns (out: seq<Server>)
    ensures out == servers + Kept(entries)
  {
    out := servers;
    for j := 0 to |entries|
      invariant out == servers + Kept(entries[..j])
    {
      assert entries[..j + 1][..j] == entries[..j];
      var s := entries[j];
      if HasFreeSlot(s) {
        out := out + [ToServer(s)];
      }
    }
    assert entries[..|entries|] == entries;
  }

  /** What the requests and pauses made so far show: every request carries
      the cursor of the last page received before it, and every pause follows
      an outcome after which the loop went on, within the retry budget, and
      lasts the backoff after a failure or the politeness delay after a page. */
  ghost predicate Traced(script: seq<Outcome>, requests: seq<Cursor>, sleepsMs: seq<int>) {
    |sleepsMs| <= |requests| <= |script| &&
    (forall k {:trigger requests[k]} :: 0 <= k < |requests| ==> requests[k] == CursorAfter(script, k)) &&
    (forall k {:trigger sleepsMs[k]} :: 0 <= k < |sleepsMs| ==>
      !Ends(script[k]) && TriesAfter(script, k + 1) <= MaxRetries && sleepsMs[k] == PauseAfter(script, k))
  }

  lemma TracedRequest(script: seq<Outcome>, requests: seq<Cursor>, sleepsMs: seq<int>)
    requires Traced(script, requests, sleepsMs) && |sleepsMs| == |requests| < |script|
    ensures Traced(script, requests + [CursorAfter(script, |requests|)], sleepsMs)
  {
    var more := requests + [CursorAfter(script, |requests|)];
    forall k | 0 <= k < |more|
      ensures more[k] == CursorAfter(script, k)
    {
      if k < |requests| {
        assert more[k] == requests[k];
      }
    }
    forall k | 0 <= k < |sleepsMs|
      ensures !Ends(script[k]) && TriesAfter(script, k + 1) <= MaxRetries && sleepsMs[k] == PauseAfter(script, k)
    {
      var _ := sleepsMs[k];
    }
  }

  lemma TracedPause(script: seq<Outcome>, requests: seq<Cursor>, sleepsMs: seq<int>)
    requires Traced(script, requests, sleepsMs) && |sleepsMs| + 1 == |requests|
    requires var i := |sleepsMs|; !Ends(script[i]) && TriesAfter(script, i + 1) <= MaxRetries
    ensures Traced(script, requests, sleepsMs + [PauseAfter(script, |sleepsMs|)])
  {
    var more := sleepsMs + [PauseAfter(script, |sleepsMs|)];
    forall k | 0 <= k < |more|
      ensures !Ends(script[k]) && TriesAfter(script, k + 1) <= MaxRetries && more[k] == PauseAfter(script, k)
    {
      if k < |sleepsMs| {
        assert more[k] == sleepsMs[k];
      }
    }
  }

  /** The pauses of a traced run: the politeness delay after a page, and a
      backoff of 30 s to 150 s after a failure. */
  lemma TracedPausesBounded(script: seq<Outcome>, requests: seq<Cursor>, sleepsMs: seq<int>)
    requires Traced(script, requests, sleepsMs)
    ensures forall k {:trigger sleepsMs[k]} :: 0 <= k < |sleepsMs| ==>
      (script[k].Success? ==> sleepsMs[k] == PageDelayMs) &&
      (script[k].Failure? ==> 1000 * BackoffStepSeconds <= sleepsMs[k] <= 1000 * BackoffStepSeconds * MaxRetries)
  {
    forall k | 0 <= k < |sleepsMs|
      ensures script[k].Success? ==> sleepsMs[k] == PageDelayMs
      ensures script[k].Failure? ==> 1000 * BackoffStepSeconds <= sleepsMs[k] <= 1000 * BackoffStepSeconds * MaxRetries
    {
      var _ := PauseAfter(script, k);
    }
  }

  /** One trip round the loop (fetch_servers.js:26-51) without its pauses:
      count a failure and give up past the budget, or take in a page and stop
      on a falsy cursor. */
  method Round(cursor: Cursor, tries: nat, servers: seq<Server>, outcome: Outcome) returns (next: Next)
    ensures next == Step(State(cursor, tries, servers), outcome)
  {
    if outcome.Failure? {
      var t := tries + 1;
      if t > MaxRetries {
        return GiveUp;
      }
      return Continue(State(cursor, t, servers));
    }
    var out := AppendKept(servers, Entries(outcome.page));
    var c := outcome.page.nextPageCursor;
    if Falsy(c) {
      return Finished(out);
    }
    return Continue(State(c, 0, out));
  }

  /** The main routine run against a script of `fetchPage` outcomes. Besides
      its effect it reports the cursor passed to every `fetchPage` call and
      every pause, in milliseconds, that it sleeps. */
  method FetchAll(script: seq<Outcome>, nowMs: int)
    returns (effect: Effect, requests: seq<Cursor>, sleepsMs: seq<int>)
    // the abort comes with the sixth failure in a row
    ensures effect.ExitFailure? ==> SixFailuresEnd(script, |requests|)
    // the listing ends with the last page fetched
    ensures effect.WriteFile? ==> 0 < |requests| <= |script| && Ends(script[|requests| - 1])
    ensures effect == Publish(Run(script, 0, Start), nowMs)
    ensures Traced(script, requests, sleepsMs)
    ensures effect.Pending? <==> |sleepsMs| == |script|
    ensures !effect.Pending? ==> |sleepsMs| + 1 == |requests|
  {
    var st := Start;
    requests, sleepsMs := [], [];
    var i := 0;
    ghost var result := Run(script, 0, Start);
    while i < |script|
      invariant 0 <= i <= |script|
      invariant |requests| == i && |sleepsMs| == i
      invariant result == Run(script, i, st)
      invariant st.tries == TriesAfter(script, i) && st.tries <= MaxRetries
      invariant st.cursor == CursorAfter(script, i)
      invariant Traced(script, requests, sleepsMs)
    {
      TracedRequest(script, requests, sleepsMs);
      requests := requests + [st.cursor];
      var next := Round(st.cursor, st.tries, st.servers, script[i]);
      match next
      case GiveUp =>
        assert TriesAfter(script, i + 1) == MaxRetries + 1 && |requests| == i + 1;
        BudgetPassedAfter(script, |requests|);
        effect := ExitFailure;
        return;
      case Finished(servers) =>
        effect := Publish(Done(servers), nowMs);
        return;
      case Continue(after) =>
        TracedPause(script, requests, sleepsMs);
        var pause := if script[i].Failure? then 1000 * BackoffSeconds(after.tries) else PageDelayMs;
        sleepsMs := sleepsMs + [pause];
        st := after;
        i := i + 1;
    }
    effect := Pending;
  }
}
