/** The two search tools. `search_austlii` calls the scraper and
    normalises what it returns; `search_with_progress` does the same while
    reporting a fixed sequence of status events to the caller's context. The
    scraper (network access and HTML parsing) is a parameter, as is the
    text form of its URL type; the context's asynchronous calls become an
    event list returned alongside the result. */
module Search {
  import opened Wrappers
  import opened Results

  /** What `search_with_progress` reports: a log line (`ctx.info`) or a
      progress update (`ctx.report_progress`). */
  datatype Event =
    | Info(message: string)
    | Progress(progress: real, total: real, message: string)

  const StartMessage: string := "Starting AustLII search..."

  /** The scraper: a query and database codes to raw records, or the error
      it raised. */
  type Scraper<!U, !E> = (string, seq<string>) -> Result<seq<RawRecord<U>>, E>

  /** `search_austlii(query, databases)`. A scraper error propagates as is. */
  function SearchAustlii<U, E>(query: string, databases: seq<string>, scrape: Scraper<U, E>, urlText: U -> string)
    : (r: Result<seq<SearchResultItem>, E>)
    ensures r.Failure? <==> scrape(query, databases).Failure?
    ensures r.Failure? ==> r.error == scrape(query, databases).error
    ensures r.Success? ==>
      var raw := scrape(query, databases).value;
      && |r.value| == |raw|
      && forall i :: 0 <= i < |raw| ==>
        r.value[i] == SearchResultItem(raw[i].title, urlText(raw[i].url), raw[i].metadata)
  {
    var raw :- scrape(query, databases);
    Success(Normalize(raw, urlText))
  }

  /** The events of a progress-reporting search and what it returned. */
  datatype Run<E> = Run(events: seq<Event>, result: Result<seq<SearchResultItem>, E>)

  /** `search_with_progress(query, databases, ctx)`: the start message and
      the "Scraping" update go out before the scraper is called; if it
      raises, nothing more is emitted; otherwise "Packaging" is reported,
      the records are normalised, and "Done" is reported last. */
  function SearchWithProgress<U, E>(query: string, databases: seq<string>, scrape: Scraper<U, E>, urlText: U -> string)
    : (run: Run<E>)
    ensures run.result.Success? ==> run.events == [
      Info(StartMessage),
      Progress(0.3, 1.0, "Scraping"),
      Progress(0.9, 1.0, "Packaging"),
      Progress(1.0, 1.0, "Done")]
    ensures run.result.Failure? ==> run.events == [Info(StartMessage), Progress(0.3, 1.0, "Scraping")]
  {
    var started := [Info(StartMessage), Progress(0.3, 1.0, "Scraping")];
    match scrape(query, databases)
    case Failure(e) => Run(started, Failure(e))
    case Success(raw) =>
      var packaging := started + [Progress(0.9, 1.0, "Packaging")];
      var out := Normalize(raw, urlText);
      Run(packaging + [Progress(1.0, 1.0, "Done")], Success(out))
  }

  /** Both tools return the same thing for the same scraper outcome; they
      differ only in the events. */
  lemma VariantsAgree<U, E>(query: string, databases: seq<string>, scrape: Scraper<U, E>, urlText: U -> string)
    ensures SearchWithProgress(query, databases, scrape, urlText).result
         == SearchAustlii(query, databases, scrape, urlText)
  {
  }

  /** Progress never goes back and never passes its total. */
  predicate MonotoneProgress(events: seq<Event>) {
    && (forall i :: 0 <= i < |events| && events[i].Progress? ==>
         0.0 <= events[i].progress <= events[i].total)
    && (forall i, j :: 0 <= i < j < |events| && events[i].Progress? && events[j].Progress? ==>
         events[i].progress <= events[j].progress)
  }

  predicate ReportsDone(events: seq<Event>) {
    exists i :: 0 <= i < |events| && events[i].Progress? && events[i].message == "Done"
  }

  /** Every run reports monotone progress within its total, and reports
      "Done" exactly when it succeeded: a failed scrape never ends in a
      false "Done". */
  lemma ProgressTrace<U, E>(query: string, databases: seq<string>, scrape: Scraper<U, E>, urlText: U -> string)
    ensures MonotoneProgress(SearchWithProgress(query, databases, scrape, urlText).events)
    ensures ReportsDone(SearchWithProgress(query, databases, scrape, urlText).events)
        <==> SearchWithProgress(query, databases, scrape, urlText).result.Success?
  {
    var run := SearchWithProgress(query, databases, scrape, urlText);
    if run.result.Success? {
      assert run.events[3].Progress? && run.events[3].message == "Done";
    }
  }

  /** What is emitted before the scraper is called does not depend on it,
      and a failing run's events are a proper prefix of a succeeding
      run's: the trace stops at the last checkpoint reached. */
  lemma FailureStopsEarly<U, E>(
    query: string, databases: seq<string>, failing: Scraper<U, E>, succeeding: Scraper<U, E>, urlText: U -> string)
    requires failing(query, databases).Failure?
    requires succeeding(query, databases).Success?
    ensures var bad := SearchWithProgress(query, databases, failing, urlText).events;
            var good := SearchWithProgress(query, databases, succeeding, urlText).events;
            |bad| < |good| && bad == good[..|bad|]
  {
  }
}
