/** The crawl of fetch_servers.js:19-53 as a deterministic state machine. The
    network is replaced by a script: the i-th element is what the i-th call of
    `fetchPage` (fetch_servers.js:11-17) produced, a failure (an HTTP status
    that is not ok, a network error, a body that is not JSON) or a parsed page. */
module Crawl {
  import opened Listing

  /** `nextPageCursor` of a page: absent, or a string. */
  type Cursor = Option<string>

  /** `!cursor`: a cursor that is absent, `null` or the empty string ends the listing. */
  predicate Falsy(c: Cursor) {
    c == None || c == Some("")
  }

  /** A parsed page; `data` is `None` when the body has no `data` field. */
  datatype Page = Page(data: Option<seq<Entry>>, nextPageCursor: Cursor)

  datatype Outcome = Failure | Success(page: Page)

  /** `data.data || []` */
  function Entries(p: Page): seq<Entry> {
    if p.data.Some? then p.data.value else []
  }

  /** A page that stops the loop: a success whose cursor is falsy. */
  predicate Ends(o: Outcome) {
    o.Success? && Falsy(o.page.nextPageCursor)
  }

  /** `tries > 5` aborts the run. */
  const MaxRetries: nat := 5
  /** The backoff is `30 * tries` seconds. */
  const BackoffStepSeconds: nat := 30
  /** The politeness pause between two pages, in milliseconds. */
  const PageDelayMs: nat := 200

  /** The wait before retry number `tries`, linear in the attempt number:
      30 s, 60 s, 90 s, 120 s, 150 s within the budget, never more. */
  function BackoffSeconds(tries: nat): (d: nat)
    ensures 1 <= tries <= MaxRetries ==> BackoffStepSeconds <= d <= BackoffStepSeconds * MaxRetries
    ensures d == 0 <==> tries == 0
  {
    BackoffStepSeconds * tries
  }

  /** The local variables of the loop: `cursor`, `tries` and `servers`. */
  datatype State = State(cursor: Cursor, tries: nat, servers: seq<Server>)

  const Start := State(None, 0, [])

  /** What one trip round the loop leads to. */
  datatype Next = Continue(state: State) | Finished(servers: seq<Server>) | GiveUp

  /** One trip round the loop, for the outcome of one `fetchPage` call. */
  function Step(st: State, o: Outcome): (n: Next)
    ensures o.Failure? ==> (n.GiveUp? <==> st.tries >= MaxRetries) && !n.Finished?
    ensures o.Failure? && n.Continue? ==>
      n.state.cursor == st.cursor && n.state.servers == st.servers && n.state.tries == st.tries + 1
    ensures o.Success? ==> !n.GiveUp? && (n.Finished? <==> Falsy(o.page.nextPageCursor))
    ensures o.Success? && n.Continue? ==>
      n.state.tries == 0 && n.state.cursor == o.page.nextPageCursor &&
      n.state.servers == st.servers + Kept(Entries(o.page))
    ensures n.Finished? ==> n.servers == st.servers + Kept(Entries(o.page))
  {
    match o
    case Failure =>
      if st.tries + 1 > MaxRetries then GiveUp
      else Continue(st.(tries := st.tries + 1))
    case Success(page) =>
      var servers := st.servers + Kept(Entries(page));
      if Falsy(page.nextPageCursor) then Finished(servers)
      else Continue(State(page.nextPageCursor, 0, servers))
  }

  /** A page without a `data` field contributes no records, resets the
      failure counter and, unless its cursor is falsy, the loop goes on from
      that cursor. */
  lemma PageWithoutData(st: State, c: Cursor)
    ensures Step(st, Success(Page(None, c))) ==
      if Falsy(c) then Finished(st.servers) else Continue(State(c, 0, st.servers))
  {
    assert st.servers + [] == st.servers;
  }

  /** How a run over a finite script ends: the listing was exhausted, the
      retry budget was exceeded, or the script ran out first. */
  datatype RunResult = Done(servers: seq<Server>) | Aborted | OutOfScript(last: State)

  /** The loop run from position `i` of the script in state `st`. While the
      loop goes on, `tries` stays within the budget. */
  function Run(script: seq<Outcome>, i: int, st: State): (r: RunResult)
    requires 0 <= i <= |script|
    ensures r.OutOfScript? && st.tries <= MaxRetries ==> r.last.tries <= MaxRetries
    decreases |script| - i
  {
    if i == |script| then OutOfScript(st)
    else
      match Step(st, script[i])
      case Continue(next) => Run(script, i + 1, next)
      case Finished(servers) => Done(servers)
      case GiveUp => Aborted
  }

  /** `servers` is only ever appended to: the records held at any point are
      a prefix of the final ones, or of the ones held when the script ran out. */
  lemma {:induction false} RunOnlyAppends(script: seq<Outcome>, i: int, st: State)
    requires 0 <= i <= |script|
    ensures var r := Run(script, i, st);
      (r.Done? ==> st.servers <= r.servers) &&
      (r.OutOfScript? ==> st.servers <= r.last.servers)
    decreases |script| - i
  {
    if i < |script| {
      var step := Step(st, script[i]);
      if step.Continue? {
        RunOnlyAppends(script, i + 1, step.state);
      }
    }
  }

  /** The outcomes at positions `i` to `i + n - 1` all exist and are failures. */
  ghost predicate FailuresAt(script: seq<Outcome>, i: int, n: nat) {
    0 <= i && i + n <= |script| && forall j :: i <= j < i + n ==> script[j].Failure?
  }

  /** No page at positions `i` to `j - 1` ended the listing. */
  ghost predicate NoEndBetween(script: seq<Outcome>, i: int, j: int) {
    0 <= i <= j <= |script| && forall m :: i <= m < j ==> !Ends(script[m])
  }

  /** Failures within the budget re-request the same page: only `tries` moves. */
  lemma {:induction false} RetriesKeepPage(script: seq<Outcome>, i: int, k: nat, st: State)
    requires FailuresAt(script, i, k) && st.tries + k <= MaxRetries
    ensures Run(script, i, st) == Run(script, i + k, st.(tries := st.tries + k))
    decreases k
  {
    if k > 0 {
      RetriesKeepPage(script, i + 1, k - 1, st.(tries := st.tries + 1));
    }
  }

  /** Once the failures for one page pass the budget, the run is aborted,
      whatever the script holds afterwards. */
  lemma {:induction false} RetryBudgetExhausted(script: seq<Outcome>, i: int, k: nat, st: State)
    requires FailuresAt(script, i, k) && st.tries <= MaxRetries < st.tries + k
    ensures Run(script, i, st) == Aborted
    decreases k
  {
    if st.tries < MaxRetries {
      RetryBudgetExhausted(script, i + 1, k - 1, st.(tries := st.tries + 1));
    }
  }

  /** The failures in a row, starting at position `j`, that abort a run begun
      at position `i` in `st`: fewer at `i` itself when `st` already counts
      failures for that page. */
  function AbortWindow(st: State, i: int, j: int): nat
    requires st.tries <= MaxRetries
  {
    if j == i then MaxRetries + 1 - st.tries else MaxRetries + 1
  }

  /** An aborted run met a budget's worth of failures in a row before any
      page ended the listing. */
  lemma {:induction false} AbortedHasWindow(script: seq<Outcome>, i: int, st: State)
    requires 0 <= i <= |script| && st.tries <= MaxRetries && Run(script, i, st) == Aborted
    ensures exists j :: NoEndBetween(script, i, j) && FailuresAt(script, j, AbortWindow(st, i, j))
    decreases |script| - i
  {
    match script[i]
    case Failure =>
      if st.tries == MaxRetries {
        assert NoEndBetween(script, i, i) && FailuresAt(script, i, AbortWindow(st, i, i));
      } else {
        var next := st.(tries := st.tries + 1);
        AbortedHasWindow(script, i + 1, next);
        var j :| NoEndBetween(script, i + 1, j) && FailuresAt(script, j, AbortWindow(next, i + 1, j));
        if j == i + 1 {
          assert NoEndBetween(script, i, i) && FailuresAt(script, i, AbortWindow(st, i, i));
        } else {
          assert NoEndBetween(script, i, j) && FailuresAt(script, j, AbortWindow(st, i, j));
        }
      }
    case Success(page) =>
      var next := State(page.nextPageCursor, 0, st.servers + Kept(Entries(page)));
      AbortedHasWindow(script, i + 1, next);
      var j :| NoEndBetween(script, i + 1, j) && FailuresAt(script, j, AbortWindow(next, i + 1, j));
      assert NoEndBetween(script, i, j) && FailuresAt(script, j, AbortWindow(st, i, j));
  }

  /** A budget's worth of failures in a row before any page ended the listing
      aborts the run. */
  lemma {:induction false} WindowAborts(script: seq<Outcome>, i: int, st: State, j: int)
    requires st.tries <= MaxRetries
    requires NoEndBetween(script, i, j) && FailuresAt(script, j, AbortWindow(st, i, j))
    ensures Run(script, i, st) == Aborted
    decreases j - i
  {
    if j == i {
      RetryBudgetExhausted(script, i, MaxRetries + 1 - st.tries, st);
    } else {
      match script[i]
      case Failure =>
        if st.tries < MaxRetries {
          var next := st.(tries := st.tries + 1);
          assert FailuresAt(script, j, AbortWindow(next, i + 1, j));
          WindowAborts(script, i + 1, next, j);
        }
      case Success(page) =>
        var next := State(page.nextPageCursor, 0, st.servers + Kept(Entries(page)));
        WindowAborts(script, i + 1, next, j);
    }
  }

  /** The run is aborted exactly when the budget's worth of failures in a row
      arrives before any page ended the listing. */
  lemma AbortedIff(script: seq<Outcome>, i: int, st: State)
    requires 0 <= i <= |script| && st.tries <= MaxRetries
    ensures Run(script, i, st) == Aborted <==>
      exists j :: NoEndBetween(script, i, j) && FailuresAt(script, j, AbortWindow(st, i, j))
  {
    if Run(script, i, st) == Aborted {
      AbortedHasWindow(script, i, st);
    }
    if exists j :: NoEndBetween(script, i, j) && FailuresAt(script, j, AbortWindow(st, i, j)) {
      var j :| NoEndBetween(script, i, j) && FailuresAt(script, j, AbortWindow(st, i, j));
      WindowAborts(script, i, st, j);
    }
  }

  /** From the start of the program, the run is aborted exactly on the sixth
      consecutive failure for one page, if no page ended the listing before. */
  lemma AbortsOnSixthConsecutiveFailure(script: seq<Outcome>)
    ensures Run(script, 0, Start) == Aborted <==>
      exists j :: NoEndBetween(script, 0, j) && FailuresAt(script, j, MaxRetries + 1)
  {
    AbortedIff(script, 0, Start);
    assert forall j :: AbortWindow(Start, 0, j) == MaxRetries + 1;
  }

  /** The records collected from the pages at positions `i` to `j - 1`, in order. */
  function Collected(script: seq<Outcome>, i: int, j: int): (servers: seq<Server>)
    requires 0 <= i <= j <= |script|
    ensures forall s :: s in servers ==> IsOpen(s)
    decreases j - i
  {
    if i == j then []
    else (if script[i].Success? then Kept(Entries(script[i].page)) else []) + Collected(script, i + 1, j)
  }

  /** Collecting two stretches of the script one after the other is collecting
      them together: records keep their order of arrival across pages. */
  lemma {:induction false} CollectedAppend(script: seq<Outcome>, i: int, j: int, k: int)
    requires 0 <= i <= j <= k <= |script|
    ensures Collected(script, i, k) == Collected(script, i, j) + Collected(script, j, k)
    decreases j - i
  {
    if i < j {
      CollectedAppend(script, i + 1, j, k);
    }
  }

  /** The run from position `i` in `st` stops at position `n` with the
      collected records. */
  ghost predicate StopsAt(script: seq<Outcome>, i: int, st: State, n: int)
    requires 0 <= i <= |script| && Run(script, i, st).Done?
  {
    i <= n < |script| && Ends(script[n]) && NoEndBetween(script, i, n) &&
    Run(script, i, st).servers == st.servers + Collected(script, i, n + 1)
  }

  /** A run that is done stopped at the first page that ended the listing, and
      its records are the ones it started with followed by the kept entries of
      every page up to that one, in arrival order. */
  lemma {:induction false} DoneCollects(script: seq<Outcome>, i: int, st: State)
    requires 0 <= i <= |script| && Run(script, i, st).Done?
    ensures exists n :: StopsAt(script, i, st, n)
    decreases |script| - i
  {
    var step := Step(st, script[i]);
    var kept := if script[i].Success? then Kept(Entries(script[i].page)) else [];
    if step.Finished? {
      assert Collected(script, i, i + 1) == kept;
      assert StopsAt(script, i, st, i);
    } else {
      var next := step.state;
      DoneCollects(script, i + 1, next);
      var n :| StopsAt(script, i + 1, next, n);
      var rest := Collected(script, i + 1, n + 1);
      calc {
        Run(script, i, st).servers;
        Run(script, i + 1, next).servers;
        next.servers + rest;
        (st.servers + kept) + rest;
        { AppendAssoc(st.servers, kept, rest); }
        st.servers + (kept + rest);
        st.servers + Collected(script, i, n + 1);
      }
      assert !Ends(script[i]);
      assert StopsAt(script, i, st, n);
    }
  }

  /** A finished run from the start of the program holds only servers with a
      free slot. */
  lemma DoneHoldsOnlyOpenServers(script: seq<Outcome>)
    requires Run(script, 0, Start).Done?
    ensures forall s :: s in Run(script, 0, Start).servers ==> IsOpen(s)
  {
    DoneCollects(script, 0, Start);
  }

  /** The value of `tries` once the loop has consumed the first `k` outcomes
      of the script: the number of failures since the last page. */
  function TriesAfter(script: seq<Outcome>, k: int): (t: nat)
    requires 0 <= k <= |script|
    ensures t <= k
  {
    if k == 0 || script[k - 1].Success? then 0 else 1 + TriesAfter(script, k - 1)
  }

  /** The value of `cursor` once the loop has consumed the first `k` outcomes
      of the script: the cursor of the last page received, or none while no
      page has been received, since a failure never moves it. */
  function CursorAfter(script: seq<Outcome>, k: int): (c: Cursor)
    requires 0 <= k <= |script|
    ensures var t := TriesAfter(script, k);
      (t == k ==> c == None) &&
      (t < k ==> script[k - 1 - t].Success? && c == script[k - 1 - t].page.nextPageCursor)
  {
    if k == 0 then None
    else if script[k - 1].Failure? then CursorAfter(script, k - 1)
    else script[k - 1].page.nextPageCursor
  }

  /** The pause, in milliseconds, after the `k`-th outcome when the loop goes
      on: the backoff for the failures so far after a failure, the politeness
      delay after a page. Within the retry budget it is never more than 150 s. */
  function PauseAfter(script: seq<Outcome>, k: int): (ms: nat)
    requires 0 <= k < |script|
    ensures script[k].Success? ==> ms == PageDelayMs
    ensures script[k].Failure? && TriesAfter(script, k + 1) <= MaxRetries ==>
      1000 * BackoffStepSeconds <= ms <= 1000 * BackoffStepSeconds * MaxRetries
  {
    if script[k].Failure? then 1000 * BackoffSeconds(TriesAfter(script, k + 1)) else PageDelayMs
  }

  /** Each further attempt waits one step longer than the one before. */
  lemma BackoffGrowsByStep(tries: nat)
    ensures BackoffSeconds(tries + 1) == BackoffSeconds(tries) + BackoffStepSeconds
  {
  }

  /** The first failure after a page, or at the start, waits one step: 30 s. */
  lemma FirstRetryWaitsOneStep(script: seq<Outcome>, k: int)
    requires 0 <= k < |script| && script[k].Failure?
    requires k == 0 || script[k - 1].Success?
    ensures PauseAfter(script, k) == 1000 * BackoffStepSeconds
  {
    assert TriesAfter(script, k) == 0;
  }

  /** A failure that follows a failure waits one step longer than it did. */
  lemma RetryWaitsLonger(script: seq<Outcome>, k: int)
    requires 0 < k < |script| && script[k - 1].Failure? && script[k].Failure?
    ensures PauseAfter(script, k) == PauseAfter(script, k - 1) + 1000 * BackoffStepSeconds
  {
    BackoffGrowsByStep(TriesAfter(script, k));
  }

  /** `tries` counts exactly the failures since the last page: they are all
      failures, and the outcome before them, if any, is a page. */
  lemma {:induction false} TriesAfterExact(script: seq<Outcome>, k: int)
    requires 0 <= k <= |script|
    ensures var t := TriesAfter(script, k);
      (forall j :: k - t <= j < k ==> script[j].Failure?) &&
      (t < k ==> script[k - 1 - t].Success?)
  {
    if k > 0 && script[k - 1].Failure? {
      TriesAfterExact(script, k - 1);
    }
  }

  /** The first `k` outcomes end with six failures in a row, and the one
      before them, if any, is a page. */
  ghost predicate SixFailuresEnd(script: seq<Outcome>, k: int) {
    MaxRetries < k <= |script| &&
    (forall j :: k - (MaxRetries + 1) <= j < k ==> script[j].Failure?) &&
    (MaxRetries + 1 < k ==> script[k - (MaxRetries + 2)].Success?)
  }

  /** `tries` passes the budget after `k` outcomes exactly when they end
      with six failures in a row after a page. */
  lemma BudgetPassedAfter(script: seq<Outcome>, k: int)
    requires 0 <= k <= |script|
    ensures TriesAfter(script, k) == MaxRetries + 1 <==> SixFailuresEnd(script, k)
  {
    TriesAfterExact(script, k);
    if SixFailuresEnd(script, k) {
      SixFailuresCount(script, k, MaxRetries + 1);
    }
  }

  lemma {:induction false} SixFailuresCount(script: seq<Outcome>, k: int, n: nat)
    requires n <= k <= |script|
    requires forall j :: k - n <= j < k ==> script[j].Failure?
    requires n < k ==> script[k - n - 1].Success?
    ensures TriesAfter(script, k) == n
    decreases n
  {
    if n > 0 {
      SixFailuresCount(script, k - 1, n - 1);
    }
  }
}
