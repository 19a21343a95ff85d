/**
 * The data path of `crawl_data` once login and navigation are done
 * (commits_automation.py:127-182): scroll until the list is stable, read the
 * rows once more, and publish them to the result sink.
 */
module Crawler {
  import opened Page
  import opened ScrollLoader
  import opened CommitRows

  /**
   * `polls` are the observations the scroll loop makes; `finalRows` is the
   * list read after the loop ends (commits_automation.py:152). When the
   * loop does not end within `polls`, nothing is published.
   */
  method CrawlData(sink: ResultSink, polls: seq<Poll>, finalRows: seq<Row>) returns (outcome: LoadOutcome)
    requires sink.Valid()
    modifies sink
    ensures sink.Valid()
    ensures outcome.Settled? ==> outcome.poll < |polls| && StopsAt(polls, outcome.poll)
    ensures outcome.Settled? ==> forall j :: 0 <= j < outcome.poll ==> !StopsAt(polls, j)
    ensures outcome.StillLoading? ==> forall j :: 0 <= j < |polls| ==> !StopsAt(polls, j)
    ensures outcome.Settled? ==> sink.View() == ParsedRows(finalRows)
    ensures outcome.StillLoading? ==> sink.rows == old(sink.rows) && sink.links == old(sink.links)
  {
    outcome := LoadUntilStable(polls);
    if outcome.Settled? {
      sink.Populate(finalRows);
    }
  }
}
