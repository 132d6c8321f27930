/**
 One call of `Crawl`: the depth check, at most one fetch, and the ordered
 list of what the goroutine then does to the rest of the program — a `+1`
 on the count channel before each child goroutine it starts, and the
 deferred `-1` on every exit path.
 */
module CrawlTask {
  import opened Fetcher

  /** A pending call `Crawl(url, depth, fetcher)`. */
  datatype Task = Task(url: Url, depth: int)

  /**
   What a running goroutine still has to do after its fetch: send `+1` on
   the count channel, start a child goroutine, or send its deferred `-1`.
   */
  datatype Effect = Up | Spawn(child: Task) | Down

  /** The line a task prints: the page it found, or its fetch error. */
  datatype Report = Found(url: Url, body: string) | Failed(url: Url, error: FetchError)

  /** A task's effects in order, the visited set after its fetch, and what it printed. */
  datatype TaskRun = TaskRun(effects: seq<Effect>, visited: set<Url>, log: seq<Report>)

  /** The value an effect sends on the count channel. */
  function Delta(e: Effect): (sent: int)
  {
    match e
    case Up => 1
    case Down => -1
    case Spawn(_) => 0
  }

  /** The sum of the values a list of effects sends on the count channel. */
  function Net(effects: seq<Effect>): (sum: int)
  {
    if effects == [] then 0 else Delta(effects[0]) + Net(effects[1..])
  }

  /** The child tasks a list of effects starts, in order. */
  function Children(effects: seq<Effect>): (children: seq<Task>)
  {
    if effects == [] then []
    else if effects[0].Spawn? then [effects[0].child] + Children(effects[1..])
    else Children(effects[1..])
  }

  /** The loop over a page's links: one `+1` and then one child per link, in link order. */
  function Launches(links: seq<Url>, depth: int): (r: seq<Effect>)
    ensures |r| == 2 * |links|
  {
    if links == [] then [] else [Up, Spawn(Task(links[0], depth))] + Launches(links[1..], depth)
  }

  /** The `k`-th link's `+1` sits at position `2k`, directly followed by the start of its child. */
  lemma {:induction false} LaunchesAt(links: seq<Url>, depth: int, k: nat)
    requires k < |links|
    ensures Launches(links, depth)[2 * k] == Up
    ensures Launches(links, depth)[2 * k + 1] == Spawn(Task(links[k], depth))
    decreases k
  {
    if k > 0 {
      var rest := Launches(links[1..], depth);
      LaunchesAt(links[1..], depth, k - 1);
      assert links[1..][k - 1] == links[k];
      assert Launches(links, depth)[2 * k] == rest[2 * (k - 1)];
      assert Launches(links, depth)[2 * k + 1] == rest[2 * (k - 1) + 1];
    }
  }

  /**
   `Crawl(t.url, t.depth, fetcher)` up to its first channel send: no fetch
   when the depth is exhausted; otherwise exactly one fetch, whose error ends
   the task and whose page yields one child per link at one less depth.
   */
  function Crawl(table: Table, visited: set<Url>, t: Task): (r: TaskRun)
    ensures t.depth <= 0 ==> r == TaskRun([Down], visited, [])
    ensures t.depth > 0 ==>
      var f := Fetch(table, visited, t.url);
      && r.visited == f.visited
      && (f.outcome.Err? ==> r.effects == [Down] && r.log == [Failed(t.url, f.outcome.error)])
      && (f.outcome.Ok? ==> r.log == [Found(t.url, f.outcome.page.body)])
  {
    if t.depth <= 0 then TaskRun([Down], visited, [])
    else
      var f := Fetch(table, visited, t.url);
      match f.outcome
      case Err(e) => TaskRun([Down], f.visited, [Failed(t.url, e)])
      case Ok(page) => TaskRun(Launches(page.links, t.depth - 1) + [Down], f.visited, [Found(t.url, page.body)])
  }

  lemma {:induction false} LaunchesChildren(links: seq<Url>, depth: int)
    ensures Children(Launches(links, depth)) == seq(|links|, k requires 0 <= k < |links| => Task(links[k], depth))
    ensures Net(Launches(links, depth)) == |links|
    decreases |links|
  {
    if links != [] {
      var rest := Launches(links[1..], depth);
      LaunchesChildren(links[1..], depth);
      var r := Launches(links, depth);
      assert r[1..][1..] == rest;
    }
  }

  lemma {:induction false} NetAppend(a: seq<Effect>, b: seq<Effect>)
    ensures Net(a + b) == Net(a) + Net(b)
    ensures Children(a + b) == Children(a) + Children(b)
    decreases |a|
  {
    if a == [] {
      assert a + b == b;
    } else {
      assert (a + b)[1..] == a[1..] + b;
      NetAppend(a[1..], b);
    }
  }

  /**
   A served task starts exactly one child per link of its page, in link
   order and at one less depth; a task that is not served starts none. Either
   way its channel sends add up to one less than its children.
   */
  lemma CrawlChildren(table: Table, visited: set<Url>, t: Task)
    ensures var r := Crawl(table, visited, t);
      var f := Fetch(table, visited, t.url);
      && (t.depth > 0 && f.outcome.Ok? ==>
            Children(r.effects) == seq(|f.outcome.page.links|, k requires 0 <= k < |f.outcome.page.links| => Task(f.outcome.page.links[k], t.depth - 1)))
      && (t.depth <= 0 || f.outcome.Err? ==> Children(r.effects) == [])
      && Net(r.effects) == |Children(r.effects)| - 1
  {
    var r := Crawl(table, visited, t);
    var f := Fetch(table, visited, t.url);
    if t.depth > 0 && f.outcome.Ok? {
      LaunchesChildren(f.outcome.page.links, t.depth - 1);
      NetAppend(Launches(f.outcome.page.links, t.depth - 1), [Down]);
    } else {
      assert r.effects == [Down];
      assert r.effects[1..] == [];
    }
  }

  /**
   Every task ends with its deferred `-1`, which it sends exactly once and
   last; before it, the effects alternate `+1` and child start, so each
   child's `+1` is sent before the child is started.
   */
  lemma CrawlEffectOrder(table: Table, visited: set<Url>, t: Task)
    ensures var e := Crawl(table, visited, t).effects;
      && |e| % 2 == 1
      && e[|e| - 1] == Down
      && forall k :: 0 <= k < |e| - 1 ==> (k % 2 == 0 <==> e[k] == Up) && (k % 2 == 1 <==> e[k].Spawn?)
  {
    var r := Crawl(table, visited, t);
    var f := Fetch(table, visited, t.url);
    if t.depth > 0 && f.outcome.Ok? {
      var links := f.outcome.page.links;
      var l := Launches(links, t.depth - 1);
      assert r.effects == l + [Down];
      forall k | 0 <= k < |r.effects| - 1
        ensures (k % 2 == 0 <==> r.effects[k] == Up) && (k % 2 == 1 <==> r.effects[k].Spawn?)
      {
        assert r.effects[k] == l[k];
        LaunchesAt(links, t.depth - 1, k / 2);
      }
    }
  }

  /** Every child a task starts is one level shallower and has a depth of at least zero. */
  lemma CrawlChildrenShallower(table: Table, visited: set<Url>, t: Task)
    ensures forall c :: c in Children(Crawl(table, visited, t).effects) ==> c.depth == t.depth - 1 >= 0
  {
    CrawlChildren(table, visited, t);
  }
}
