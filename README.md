# fetch_servers: the crawl of the public server listing

`fetch_servers.js` walks the cursor-paginated list of public servers of one
place, page by page. A failed page is retried after a linear backoff
(30 s times the attempt number), and the run gives up on the sixth failure
in a row. From every page it keeps the servers that still have a free slot.
When a page comes back without a next cursor, it writes the records kept,
with a timestamp, to `server_list.json`. If the run gives up, it exits with
status 1 and writes nothing.

This project models that crawl in Dafny and proves its properties.

- `listing.dfy` (module `Listing`): the entries of a page and the
  filter-and-map that turns them into snapshot records. `HasFreeSlot` is the
  test `s.playing < s.maxPlayers` (fetch_servers.js:40). `Truthy` is
  JavaScript truthiness, used for `s.created || null` (fetch_servers.js:45).
- `crawl.dfy` (module `Crawl`): the loop as a deterministic state machine.
  `Step` is one trip round the loop. `Run` drives `Step` over a finite
  script of `fetchPage` outcomes, each `Failure` or `Success(page)`, and ends
  in `Done(servers)`, `Aborted` or `OutOfScript`. This module holds the
  lemmas about retries, aborting, the order of the records and the
  per-request trace. `Entries` is `data.data || []` (fetch_servers.js:39), and
  `Falsy` is the test `!cursor` (fetch_servers.js:51).
- `fetch_servers.dfy` (module `FetchServers`): the imperative main routine.
  - `FetchAll` keeps the loop's local `cursor`, `tries` and `servers` as
    variables that it updates. The `servers` array is local and never
    aliased, so a push onto it is modelled as appending to a sequence.
    `FetchAll` is proved against `Run`.
  - `Round` is the body of one trip, proved against `Step`.
  - `AppendKept` is the inner `for` loop over a page, proved against `Kept`.
  - `Publish` builds the payload or the exit.
- `scenarios.dfy` (module `Scenarios`): concrete runs written out.

The network is a parameter: the i-th element of the script is what the
i-th call of `fetchPage` produced. `Date.now()` is the parameter `nowMs`.
The pauses are not slept: they are returned as a list of milliseconds.

What the code does not do:

- It has no page-count ceiling. The loop ends only on a falsy cursor or on
  the retry budget (or on a `TypeError`, see "## Left out").
- Every failure waits `30 * tries` seconds. There is no separate base delay
  for rate-limit failures.
- It always writes the snapshot on success, without first comparing it with
  the previous file.
- It does not deduplicate records.
- It does not default a missing `playing` or `maxPlayers` to 0. Such an
  entry fails the `<` test and is dropped.
- It does not drop a falsy `created`: the field becomes `null`.

## Model

| member | source | states |
|---|---|---|
| Listing.ToServer | fetch_servers.js:41-46 | the record is open and copies `id`, `playing` and `maxPlayers` unchanged. Its `created` is the entry's value when that is truthy, and `null` otherwise |
| Listing.Kept | fetch_servers.js:39-47 | a page yields at most one record per entry, and every record it yields has `playing < maxPlayers` |
| Listing.KeptIndices | fetch_servers.js:40 | the positions it lists are exactly the positions of entries with a free slot, strictly increasing |
| Listing.KeptByIndices | fetch_servers.js:39-47 | the filter equals the comprehension that maps `ToServer` over the positions of the open entries, so every open entry is kept, in page order, and nothing else is |
| Listing.KeptExactly | fetch_servers.js:40-46 | a record is in the output if and only if it is the record of some entry with `playing < maxPlayers`; full servers never appear |
| Listing.KeptAppend | fetch_servers.js:39-47 | filtering two pages one after the other is filtering their concatenation, so arrival order is kept across pages |
| Crawl.BackoffSeconds | fetch_servers.js:32-34 | the wait is zero only before any failure, and for attempts 1 to 5 it is between 30 s and 150 s |
| Crawl.BackoffGrowsByStep | fetch_servers.js:32 | each further attempt waits exactly 30 s longer than the one before |
| Crawl.Step | fetch_servers.js:26-51 | a failure gives up exactly when the counter is already at the budget and otherwise leaves `cursor` and `servers` alone and adds one to `tries`; a page never gives up, resets `tries` to 0, appends exactly the page's kept records, and finishes exactly when its cursor is falsy |
| Crawl.PageWithoutData | fetch_servers.js:39-51 | a page without `data` appends nothing and resets `tries`; the loop goes on from its cursor unless that cursor is falsy |
| Crawl.Run | fetch_servers.js:25-53 | while the loop goes on, `tries` never exceeds the budget of five |
| Crawl.RunOnlyAppends | fetch_servers.js:21-53 | `servers` is only appended to: the records held at any point are a prefix of the final ones, or of the ones held when the script ran out |
| Crawl.RetriesKeepPage | fetch_servers.js:29-35 | up to the budget, failures change only `tries`, so the same page is requested again with the same cursor |
| Crawl.RetryBudgetExhausted | fetch_servers.js:30-31 | once the failures for one page pass the budget the run is aborted, whatever follows in the script |
| Crawl.AbortedHasWindow | fetch_servers.js:25-53 | an aborted run met a budget's worth of consecutive failures before any page ended the listing |
| Crawl.WindowAborts | fetch_servers.js:25-53 | a budget's worth of consecutive failures, arriving before any page ended the listing, aborts the run |
| Crawl.AbortedIff | fetch_servers.js:25-53 | the run is aborted if and only if a budget's worth of consecutive failures arrives before any page ended the listing |
| Crawl.AbortsOnSixthConsecutiveFailure | fetch_servers.js:29-31 | from the start, the run is aborted if and only if six failures in a row arrive before any page ended the listing |
| Crawl.Collected | fetch_servers.js:39-47 | every record collected from a stretch of the script has a free slot |
| Crawl.CollectedAppend | fetch_servers.js:39-48 | collecting two stretches one after the other is collecting them together, so records keep their order of arrival across pages |
| Crawl.DoneCollects | fetch_servers.js:25-53 | a run that is done stopped at the first page with a falsy cursor, and its records are the initial ones followed by the kept entries of every page up to that one, in arrival order |
| Crawl.DoneHoldsOnlyOpenServers | fetch_servers.js:40-51 | the records of a finished run all have `playing < maxPlayers` |
| Crawl.TriesAfter | fetch_servers.js:29-38 | the failure counter after `k` outcomes is at most `k` |
| Crawl.TriesAfterExact | fetch_servers.js:29-38 | the failure counter counts exactly the failures since the last page: they are all failures, and the outcome before them is a page |
| Crawl.CursorAfter | fetch_servers.js:22-50 | the cursor after `k` outcomes is the last page's `nextPageCursor`, or none before the first page; failures never move it |
| Crawl.SixFailuresCount | fetch_servers.js:29-38 | `n` failures in a row after a page, or from the start, leave `tries` at exactly `n` |
| Crawl.BudgetPassedAfter | fetch_servers.js:29-31 | `tries` reaches six after `k` outcomes if and only if they end with exactly six failures in a row after a page, or from the start |
| Crawl.PauseAfter | fetch_servers.js:32-52 | after a page the pause is the 200 ms politeness delay; after a failure within the retry budget it is a backoff of 30 s to 150 s |
| Crawl.FirstRetryWaitsOneStep | fetch_servers.js:29-34 | the first failure after a page, or at the start, is followed by a 30 s wait |
| Crawl.RetryWaitsLonger | fetch_servers.js:29-34 | a failure that follows a failure waits exactly 30 s longer than the one before it |
| FetchServers.Publish | fetch_servers.js:55-65 | the file is written if and only if the run is done and the program exits with status 1 if and only if it aborted; the payload holds the run's records, the place id, and `Date.now()` in whole seconds rounded down |
| FetchServers.AppendKept | fetch_servers.js:39-48 | the loop over one page pushes exactly the page's kept records onto `servers` |
| FetchServers.Round | fetch_servers.js:26-51 | one trip round the loop computes exactly `Step` |
| FetchServers.TracedPausesBounded | fetch_servers.js:32-52 | every pause the routine takes is 200 ms after a page, and between 30 s and 150 s after a failure |
| FetchServers.FetchAll | fetch_servers.js:19-66 | the routine's effect is `Publish` of `Run` from the start. Every request carries the cursor of the last page received. Only the last request may end the listing. Every pause follows an outcome after which the loop went on and is the backoff or the politeness delay. A written file follows a page with a falsy cursor. An exit with status 1 follows six failures in a row, preceded by a page or by the start |
| Scenarios.OnlyOpenServerKept | fetch_servers.js:39-51 | a last page with an open and a full server yields only the open one, with `created` set to `null` |
| Scenarios.FailuresThenPage | fetch_servers.js:29-51 | two failures before the last page do not change what the run collects |
| Scenarios.SixFailuresAbort | fetch_servers.js:29-31 | six failures for the first page abort the run whatever follows |

## Left out

- The HTTP request, the status check and the JSON parsing of `fetchPage`
  (fetch_servers.js:11-17). These are network I/O. Each call is one element
  of the outcome script.
- URL construction with `encodeURIComponent`. It only feeds the network.
- The real waits with `setTimeout` and the `console` messages. Pauses are
  returned as milliseconds instead of slept.
- `JSON.stringify`, `fs.writeFileSync` and `process.exit`. The model stops
  at the `Effect` value: the snapshot to write, or exit with status 1.
- A listing that never ends. Runs are over a finite script, and
  `OutOfScript`/`Pending` marks a script that ran out first.
- A JSON body of `null`. It raises a `TypeError` outside the retry `try`,
  which ends the program with status 1.
- A `data` field that is not an array. A falsy one (`0`, `false`, `""`) falls
  back to `[]`, which the model's absent `data` covers. A non-empty string
  is iterated character by character, and no character passes the `<` test,
  so it adds nothing, like an absent `data`. Any other truthy value that is
  not iterable raises a `TypeError`, which ends the program with status 1.
  The model's `data` is an optional list of entries and has no such value.
- A `null` element inside `data`. It raises a `TypeError` at `s.playing`
  (fetch_servers.js:40), which ends the program with status 1. Entries are
  modelled as objects, so no entry is `null`.
- A fractional number in `created`. `JsValue` holds integers only, and the
  source would copy a truthy fractional value unchanged.
- JavaScript's loose `<` on `null`, strings or fractional numbers (for
  example `null` coerced to 0). Counts are integers, or absent, and an absent
  count drops the entry.
- `created` holding a JSON object or array. `JsValue` has no such case. Such
  a value is truthy and would be copied unchanged, like the truthy values the
  model has.
- A `nextPageCursor` that is truthy but not a string, such as a number. The
  model's cursor is an optional string. Such a value is truthy, so the loop
  would go on and pass it to the next request, as it does with a non-empty
  string.
- `id` is modelled as a string. Whatever JSON value the listing gives is copied
  unchanged.
- Listing.Kept: states the bound and the openness of its result. That every
  open entry is kept, in order, is stated by `KeptByIndices`, `KeptExactly`
  and `KeptAppend`.
