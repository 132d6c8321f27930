/**
 The deduplicating fake fetcher of the crawler: a fixed table from URL to a
 canned page, and a cache of visited URLs. The whole of `Fetch` runs under
 the cache's mutex, so it is modelled as one atomic check-then-insert step
 from a visited set to an outcome and the next visited set.
 */
module Fetcher {

  type Url = string

  /** A canned page: its body and its outbound links, in page order. */
  datatype Page = Page(body: string, links: seq<Url>)

  /** The fixed table of pages the fake fetcher serves. */
  type Table = map<Url, Page>

  /** The two errors `Fetch` reports; `Crawl` only ever prints them. */
  datatype FetchError = AlreadyVisited | NotFound

  datatype Outcome = Ok(page: Page) | Err(error: FetchError)

  /** One fetch's outcome together with the cache's visited set after it. */
  datatype Fetched = Fetched(outcome: Outcome, visited: set<Url>)

  /**
   The visited check comes first, so a URL already claimed is refused even
   if it is in the table; only a successful lookup claims the URL, and a URL
   missing from the table is never claimed.
   */
  function Fetch(table: Table, visited: set<Url>, url: Url): (r: Fetched)
    ensures r.outcome == Err(AlreadyVisited) <==> url in visited
    ensures r.outcome == Err(NotFound) <==> url !in visited && url !in table
    ensures r.outcome.Ok? <==> url !in visited && url in table
    ensures r.outcome.Ok? ==> r.outcome.page == table[url] && r.visited == visited + {url}
    ensures r.outcome.Err? ==> r.visited == visited
  {
    if url in visited then Fetched(Err(AlreadyVisited), visited)
    else if url in table then Fetched(Ok(table[url]), visited + {url})
    else Fetched(Err(NotFound), visited)
  }

  /** A second fetch of a URL that has just been served is refused. */
  lemma RefetchIsRefused(table: Table, visited: set<Url>, url: Url)
    requires Fetch(table, visited, url).outcome.Ok?
    ensures Fetch(table, Fetch(table, visited, url).visited, url) == Fetched(Err(AlreadyVisited), visited + {url})
  {
  }

  /** A URL that was not found is not claimed, so fetching it again fails the same way. */
  lemma NotFoundIsStable(table: Table, visited: set<Url>, url: Url)
    requires Fetch(table, visited, url).outcome == Err(NotFound)
    ensures Fetch(table, Fetch(table, visited, url).visited, url) == Fetch(table, visited, url)
  {
  }

  /** The outcomes and final visited set of a sequence of fetches made one after another. */
  datatype Trace = Trace(outcomes: seq<Outcome>, visited: set<Url>)

  function FetchAll(table: Table, visited: set<Url>, urls: seq<Url>): (r: Trace)
    ensures |r.outcomes| == |urls|
    decreases |urls|
  {
    if urls == [] then Trace([], visited)
    else
      var f := Fetch(table, visited, urls[0]);
      var rest := FetchAll(table, f.visited, urls[1..]);
      Trace([f.outcome] + rest.outcomes, rest.visited)
  }

  /** The URLs of a fetch sequence whose fetch succeeded. */
  function Served(urls: seq<Url>, outcomes: seq<Outcome>): (served: set<Url>)
    requires |outcomes| == |urls|
  {
    set i | 0 <= i < |urls| && outcomes[i].Ok? :: urls[i]
  }

  lemma ServedCons(urls: seq<Url>, outcomes: seq<Outcome>)
    requires |outcomes| == |urls| > 0
    ensures Served(urls, outcomes)
         == (if outcomes[0].Ok? then {urls[0]} else {}) + Served(urls[1..], outcomes[1..])
  {
  }

  /**
   Over any sequence of fetches the visited set only grows, it grows exactly
   by the URLs that were served, and every served URL was unvisited before,
   lies in the table and got its table entry.
   */
  lemma {:induction false} FetchAllClaims(table: Table, visited: set<Url>, urls: seq<Url>)
    ensures var r := FetchAll(table, visited, urls);
      && r.visited == visited + Served(urls, r.outcomes)
      && visited !! Served(urls, r.outcomes)
      && Served(urls, r.outcomes) <= table.Keys
      && forall i :: 0 <= i < |urls| && r.outcomes[i].Ok? ==> r.outcomes[i].page == table[urls[i]]
    decreases |urls|
  {
    if urls != [] {
      var f := Fetch(table, visited, urls[0]);
      var rest := FetchAll(table, f.visited, urls[1..]);
      var r := FetchAll(table, visited, urls);
      FetchAllClaims(table, f.visited, urls[1..]);
      ServedCons(urls, r.outcomes);
      assert r.outcomes[1..] == rest.outcomes;
      forall i | 0 <= i < |urls| && r.outcomes[i].Ok?
        ensures r.outcomes[i].page == table[urls[i]]
      {
        if i > 0 {
          assert r.outcomes[i] == rest.outcomes[i - 1] && urls[i] == urls[1..][i - 1];
        }
      }
    }
  }

  /**
   Once a URL has been served, every later fetch of it in the same sequence
   is refused as already visited; so each URL is served at most once.
   */
  lemma {:induction false} FetchAllServesOnce(table: Table, visited: set<Url>, urls: seq<Url>)
    ensures var r := FetchAll(table, visited, urls);
      forall i, j :: 0 <= i < j < |urls| && urls[i] == urls[j] && r.outcomes[i].Ok? ==>
        r.outcomes[j] == Err(AlreadyVisited)
    ensures var r := FetchAll(table, visited, urls);
      forall j :: 0 <= j < |urls| && urls[j] in visited ==> r.outcomes[j] == Err(AlreadyVisited)
    decreases |urls|
  {
    if urls != [] {
      var f := Fetch(table, visited, urls[0]);
      var rest := FetchAll(table, f.visited, urls[1..]);
      var r := FetchAll(table, visited, urls);
      FetchAllServesOnce(table, f.visited, urls[1..]);
      assert r.outcomes[1..] == rest.outcomes;
      forall j | 0 <= j < |urls| && urls[j] in visited
        ensures r.outcomes[j] == Err(AlreadyVisited)
      {
        if j > 0 {
          assert r.outcomes[j] == rest.outcomes[j - 1] && urls[j] == urls[1..][j - 1];
        }
      }
      forall i, j | 0 <= i < j < |urls| && urls[i] == urls[j] && r.outcomes[i].Ok?
        ensures r.outcomes[j] == Err(AlreadyVisited)
      {
        assert r.outcomes[j] == rest.outcomes[j - 1] && urls[j] == urls[1..][j - 1];
        if i > 0 {
          assert r.outcomes[i] == rest.outcomes[i - 1] && urls[i] == urls[1..][i - 1];
        }
      }
    }
  }

  /**
   The fetcher starts with an empty cache; from there, the visited set is
   exactly the set of URLs served, all of them table keys, each served once.
   */
  lemma FromEmptyCache(table: Table, urls: seq<Url>)
    ensures var r := FetchAll(table, {}, urls);
      && r.visited == Served(urls, r.outcomes)
      && r.visited <= table.Keys
      && forall i, j :: 0 <= i < j < |urls| && urls[i] == urls[j] && r.outcomes[i].Ok? ==>
           !r.outcomes[j].Ok?
  {
    FetchAllClaims(table, {}, urls);
    FetchAllServesOnce(table, {}, urls);
  }
}
