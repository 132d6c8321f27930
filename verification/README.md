# Go-tour web crawler, modelled in Dafny

This project models the concurrent web crawler of `crawler.go`. It covers two parts.

- **The deduplicating fake fetcher** (`fakeFetcher.Fetch` with its `Cache`). It serves canned pages
  from a fixed table. It also records every URL it has served in a visited set, so each URL is served
  at most once. `Fetch` runs entirely under the cache's mutex, so the model treats it as one atomic
  function from (table, visited set, URL) to (outcome, next visited set). The outcome is one of
  `Ok(page)`, `Err(AlreadyVisited)` or `Err(NotFound)`.
- **The crawl and its completion count** (`Crawl` and the loop in `main`). A `Crawl` goroutine does
  nothing when its depth is at most zero. It stops when its fetch fails. Otherwise, for every link of
  the page, in link order, it sends `+1` on the count channel and then starts a child goroutine at one
  less depth. On every exit path its deferred `-1` is sent exactly once, and it is sent last. `main`
  starts the root goroutine, sets its tally to 1, and adds every received value until the tally reaches 0.

The run is a state machine (module `CrawlRun`). Its state is: the pending goroutines, the remaining
effects of every goroutine that has started, the visited set, the printed lines, and main's
tally. There are two kinds of step:

- `Start` runs a pending goroutine's depth check and fetch atomically.
- `Deliver` performs one effect of a goroutine that has started. The effect is a `+1` or `-1`
  received by `main`, or a `go Crawl(...)`.

Steps of different goroutines interleave freely. The model does not remove duplicate tasks: `Crawl`
never consults the visited set itself, and a duplicate task is refused by the fetcher (claim on fetch).
Once main's tally is 0, no step is enabled, because at that point `main` returns and the Go program
exits.

The central invariant (`CrawlRun.Inv`) has three parts:

- Main's tally is the number of pending goroutines plus what the running ones still owe. A running
  goroutine owes 1 for itself, plus 1 for a child whose `+1` has been received but which has not been
  started yet.
- The visited set is exactly the set of URLs reported found, and each of them is reported once.
- Every URL in the visited set is a key of the table.

Sending `+1` before `go` is what keeps every running goroutine's debt at least 1. So the tally is 0
exactly when nothing is pending and every goroutine has sent its `-1`.

Termination uses a measure built from depths. With at most `b` links per page, a pending task at depth
`d` can take at most `Cost(d, b)` steps in total, counting its descendants. Every step lowers the sum
of these costs. The atomic view, in which one task runs to completion in a single step, is
`AtomicNext`. It is proved to be one particular interleaving of the fine-grained steps.

Modules: `Fetcher` (fetcher.dfy), `CrawlTask` (task.dfy), `CrawlRun` (run.dfy), `Fixture` (fixture.dfy).

## Model

| member | source | states |
|---|---|---|
| Fetcher.Fetch | crawler.go:61-75 | A URL already visited is refused as already visited, whether or not it is in the table. An unvisited URL in the table returns that entry's body and links and adds exactly that URL to the visited set. An unvisited URL missing from the table is not found, and the visited set is left unchanged. |
| Fetcher.RefetchIsRefused | crawler.go:65-71 | Once a URL has been served, fetching it again is refused as already visited, and the visited set does not change. |
| Fetcher.NotFoundIsStable | crawler.go:69-74 | A URL that was not found is not claimed, so fetching it again gives the same not-found result with the same visited set. |
| Fetcher.FetchAllClaims | crawler.go:65-71 | Over any sequence of fetches, the visited set only grows. It grows by exactly the URLs that were served. Each served URL was unvisited before, is a table key, and received its table entry. |
| Fetcher.FetchAllServesOnce | crawler.go:65-67 | In any sequence of fetches, every later fetch of a URL that has been served is refused. So is every fetch of a URL that was visited at the start. |
| Fetcher.FromEmptyCache | crawler.go:114 | Starting from the fixture's empty cache, the visited set is exactly the set of URLs served. It stays within the table's keys, and no URL is served twice. |
| CrawlTask.Launches | crawler.go:32-35 | The loop over a page's links yields two effects per link. Their contents and order, a `+1` and then that link's child at each position, are pinned down by LaunchesAt and LaunchesChildren. |
| CrawlTask.LaunchesAt | crawler.go:32-35 | In the loop over the links, the `k`-th link sends its `+1` at position `2k` and starts its child right after it, at position `2k+1`. The child carries that link and the given depth. |
| CrawlTask.Crawl | crawler.go:16-36 | A task at depth at most zero does not fetch: it only sends `-1`, prints nothing, and leaves the visited set unchanged. Otherwise it fetches once. On an error it prints the error and only sends `-1`. On success it prints the body. |
| CrawlTask.LaunchesChildren | crawler.go:32-35 | The link loop starts exactly the link tasks, in order, and sends one `+1` per link. |
| CrawlTask.CrawlChildren | crawler.go:22-35 | A served task starts one child per link of its page, in link order, at depth one less. A task that is out of depth or whose fetch failed starts no child. Its sends always add up to one less than its number of children. |
| CrawlTask.CrawlEffectOrder | crawler.go:18-35 | A task's effects alternate `+1` and child start, so every child's `+1` comes before that child starts. They end with the deferred `-1`, which is sent exactly once and last. |
| CrawlTask.CrawlChildrenShallower | crawler.go:34 | Every child is exactly one level shallower than its parent, and its depth is at least zero. |
| CrawlRun.Init | crawler.go:39-40 | `main`'s start, with the fetcher's empty cache of crawler.go:114: the root goroutine is pending, the tally is positive, and the run invariant holds for every table. |
| CrawlRun.Enabled | crawler.go:40 | No step is enabled once main's tally is 0, because `main` has left its loop and the program has ended. The converse, that some step is enabled while the tally is positive, is Progress. |
| CrawlRun.Next | crawler.go:19-41 | One step of one goroutine. A start runs the depth check and fetch (lines 22-31) and leaves the tally alone. An effect is a send paired with main's receive at line 41 (lines 19, 33) or a `go Crawl` (line 34); it fetches and prints nothing and moves the tally by at most one. The cache and the printed lines only grow. StepPreservesInv and StepDecreases pin the step down against the invariant and the measure. |
| CrawlRun.CrawlComplete | crawler.go:18-35 | The effects a task has after its fetch always have the shape `+1`, child, …, `+1`, child, `-1`. |
| CrawlRun.TallyCountsOutstanding | crawler.go:39-42 | Under the run invariant, main's tally is never negative. It is zero if and only if no goroutine is pending and every goroutine that ran has sent its `-1`. |
| CrawlRun.StepPreservesInv | crawler.go:16-42 | Every interleaved step keeps the invariant. The tally stays equal to the outstanding work. The visited set stays within the table's keys and equals the URLs reported found. No URL is reported found twice. |
| CrawlRun.Progress | crawler.go:40-41 | While main's tally is positive, some goroutine can take a step, so main never waits forever. |
| CrawlRun.StepDecreases | crawler.go:22-34 | Every step lowers the depth-based measure, because every started child is one level shallower than its parent. |
| CrawlRun.ExecutionSafeAndBounded | crawler.go:16-42 | Along any interleaving the invariant holds, and the number of steps is at most the measure of the starting state. |
| CrawlRun.EveryRunEnds | crawler.go:38-42 | Every interleaving from `main`'s start is finite. A run that cannot be extended has tally zero, nothing pending, and every goroutine finished. |
| CrawlRun.AtomicNext | crawler.go:16-36 | One task run to completion in a single step. Main's tally moves by exactly the change in the number of pending tasks: one per child, less the task itself. Every new pending task is one level shallower than the task that ran, and the cache only grows. AtomicIsExecution and AtomicTally tie it to the fine-grained steps. |
| CrawlRun.AtomicIsExecution | crawler.go:16-42 | Running one task to completion in a single step is the same as one particular fine-grained interleaving: start the task, then deliver all of its effects. |
| CrawlRun.AtomicTally | crawler.go:39-42 | In the atomic view, main's tally after a step equals the number of outstanding tasks. |
| CrawlRun.Run | crawler.go:38-43 | `main` under any scheduler that picks from the current state: the loop ends with tally zero and every goroutine finished. Only table URLs are visited, each is reported found at most once, and a root depth of at most zero fetches nothing. |
| Fixture.GoFetches | crawler.go:81-115 | On the concrete table, fetching from the empty cache serves the root once and then refuses it. The missing `cmd` page is not found, both times. |
| Fixture.GoFirstStep | crawler.go:39 | On the concrete table, the root goroutine at depth 4 is served, starts the `pkg` and `cmd` children at depth 3, and moves the tally from 1 to 2. |

## Left out

- Goroutines and the unbuffered `count` channel are abstracted into interleaved atomic steps. Each `+1` or `-1` send is one step, paired with main's receive, and each `go` statement is one step. Go's memory model and scheduler fairness are not modelled.
- The cache's `sync.Mutex` is not modelled separately. `Fetch` is one atomic step.
- Printing is recorded as an abstract log of `Found(url, body)` and `Failed(url, error)` entries, appended in the same step as the fetch. In Go the line is printed after the mutex is released, so lines printed by different goroutines may be ordered differently from the log.
- Error message text is reduced to the tags `AlreadyVisited` and `NotFound`.
- The `Fetcher` interface is modelled only through its one implementation, the fake fetcher. A real network fetcher is not part of this model.
- Go's `int` is 32 or 64 bits wide, depending on the platform. The model uses unbounded integers. The only arithmetic is `depth-1` with `depth > 0` and the tally, which is bounded by the number of goroutines, so no wrap-around can happen.
- The concrete fixture is only used for example lemmas about its first fetches and its first step. The complete depth-4 run over it is not computed.
- CrawlRun.Run: the scheduler is a function of the current state only. That the loop ends under every interleaving, history-dependent ones included, is stated separately by `EveryRunEnds`.
- A task does nothing when its depth is `<= 0` (crawler.go:22), so a negative depth behaves like zero. A root of depth zero still sends one `-1`, although it prints nothing and fetches nothing.
- `fakeFetcher.urls` maps URLs to `*fakeResult` pointers (crawler.go:57). A key mapped to `nil` would make `Fetch` panic when it reads `res.body` (crawler.go:71). `Table` maps URLs to pages, so it cannot express such an entry, and the panic path is not modelled. The concrete table has no `nil` entry.
