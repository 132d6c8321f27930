/**
 The crawler's populated fake fetcher and main's root call, as one concrete
 instance of the general model.
 */
module Fixture {
  import opened Fetcher
  import opened CrawlTask
  import opened CrawlRun

  const Root: Url := "http://golang.org/"
  const Pkg: Url := "http://golang.org/pkg/"
  const Cmd: Url := "http://golang.org/cmd/"
  const Fmt: Url := "http://golang.org/pkg/fmt/"
  const Os: Url := "http://golang.org/pkg/os/"

  /** The four canned pages; the `cmd` page and the odd `ç/` link are missing from it. */
  function GoTable(): Table
  {
    map[
      Root := Page("The Go Programming Language", [Pkg, Cmd]),
      Pkg := Page("Packages", [Root, "ç/", Fmt, Os]),
      Fmt := Page("Package fmt", [Root, Pkg]),
      Os := Page("Package os", [Root, Pkg])
    ]
  }

  /** From the empty cache: the root is served, then refused; a link outside the table is not found, twice. */
  lemma GoFetches()
    ensures FetchAll(GoTable(), {}, [Root, Root, Cmd, Cmd]).outcomes
         == [Ok(GoTable()[Root]), Err(AlreadyVisited), Err(NotFound), Err(NotFound)]
    ensures FetchAll(GoTable(), {}, [Root, Root, Cmd, Cmd]).visited == {Root}
  {
    var urls := [Root, Root, Cmd, Cmd];
    assert Cmd !in GoTable();
    assert urls[1..] == [Root, Cmd, Cmd] && urls[1..][1..] == [Cmd, Cmd] && urls[1..][1..][1..] == [Cmd];
    assert FetchAll(GoTable(), {Root}, [Cmd]) == Trace([Err(NotFound)], {Root});
    assert FetchAll(GoTable(), {Root}, [Cmd, Cmd]) == Trace([Err(NotFound), Err(NotFound)], {Root});
    assert FetchAll(GoTable(), {Root}, [Root, Cmd, Cmd]) == Trace([Err(AlreadyVisited), Err(NotFound), Err(NotFound)], {Root});
    assert Root in GoTable();
    assert Fetch(GoTable(), {}, Root) == Fetched(Ok(GoTable()[Root]), {Root});
  }

  /**
   The root goroutine of `main`, run as one atomic step: it is served and
   starts one depth-3 child per link, so main's tally goes from 1 to 2.
   */
  lemma GoFirstStep()
    ensures AtomicNext(GoTable(), Init(Root, 4), 0)
         == State([Task(Pkg, 3), Task(Cmd, 3)], [[]], {Root}, [Found(Root, "The Go Programming Language")], 2)
  {
    var r := Crawl(GoTable(), {}, Task(Root, 4));
    assert r.effects == [Up, Spawn(Task(Pkg, 3)), Up, Spawn(Task(Cmd, 3)), Down];
    CrawlChildren(GoTable(), {}, Task(Root, 4));
    assert Children(r.effects) == [Task(Pkg, 3), Task(Cmd, 3)];
  }
}
