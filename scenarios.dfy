/** Two runs written out, one per behaviour the program is expected to show:
    a full server is dropped, and failures before a page only delay it. */
module Scenarios {
  import opened Listing
  import opened Crawl

  const OpenEntry := Entry("a", Some(5), Some(10), Undefined)
  const FullEntry := Entry("b", Some(10), Some(10), Undefined)

  /** One last page with an open and a full server: only the open one is kept,
      with `created` set to null. */
  lemma OnlyOpenServerKept()
    ensures Run([Success(Page(Some([OpenEntry, FullEntry]), None))], 0, Start)
      == Done([Server("a", 5, 10, Null)])
  {
    var entries := [OpenEntry, FullEntry];
    assert entries[..1] == [OpenEntry] && [OpenEntry][..0] == [];
    assert Kept(entries) == [Server("a", 5, 10, Null)];
  }

  /** Two failures (rate limiting, say) and then the last page: the run is
      done with that page's open server, as if the failures never happened. */
  lemma FailuresThenPage()
    ensures Run([Failure, Failure, Success(Page(Some([OpenEntry]), None))], 0, Start)
      == Done([Server("a", 5, 10, Null)])
  {
    var script := [Failure, Failure, Success(Page(Some([OpenEntry]), None))];
    assert [OpenEntry][..0] == [];
    RetriesKeepPage(script, 0, 2, Start);
  }

  /** Six failures in a row for the first page abort the run, whatever follows. */
  lemma SixFailuresAbort(script: seq<Outcome>)
    requires |script| >= 6 && forall j :: 0 <= j < 6 ==> script[j] == Failure
    ensures Run(script, 0, Start) == Aborted
  {
    RetryBudgetExhausted(script, 0, 6, Start);
  }
}
