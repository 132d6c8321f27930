/**
 A whole run of the crawler as a state machine. Goroutines are abstracted
 into atomic steps: a started goroutine runs its depth check and its fetch
 in one step (the fetch holds the cache's mutex), and afterwards performs
 its remaining effects one step at a time — each `+1` and its deferred `-1`
 is one receive by `main`, each `go Crawl(...)` adds a pending goroutine.
 Steps of different goroutines interleave arbitrarily.
 */
module CrawlRun {
  import opened Fetcher
  import opened CrawlTask

  /**
   `pending`: goroutines started by `go` that have not run yet.
   `running`: for every goroutine that has started, in start order, the
   effects it has still to perform (`[]` once it has sent its `-1`).
   `tally`: main's `crawlCount`.
   */
  datatype State = State(
    pending: seq<Task>,
    running: seq<seq<Effect>>,
    visited: set<Url>,
    log: seq<Report>,
    tally: int)

  /**
   `go Crawl(root, depth, fetcher)` and then `crawlCount := 1`, with an empty
   cache: the single pending root accounts for the whole tally, whatever the table.
   */
  function Init(root: Url, depth: int): (s: State)
    ensures s.tally > 0
    ensures forall table: Table :: Inv(table, s)
  {
    State([Task(root, depth)], [], {}, [], 1)
  }

  /** Run the `i`-th pending goroutine up to its first send, or perform the next effect of the `j`-th. */
  datatype Step = Start(i: nat) | Deliver(j: nat)

  /**
   Once main's loop sees a zero tally, main returns and the program ends,
   so no step happens after that.
   */
  predicate Enabled(s: State, step: Step): (enabled: bool)
    ensures s.tally <= 0 ==> !enabled
  {
    && s.tally > 0
    && match step
       case Start(i) => i < |s.pending|
       case Deliver(j) => j < |s.running| && s.running[j] != []
  }

  /**
   One step of one goroutine. Starting a goroutine receives nothing on the
   channel; performing an effect fetches nothing and prints nothing, and
   moves main's tally by at most one. The cache and the printed lines only grow.
   */
  function Next(table: Table, s: State, step: Step): (s': State)
    requires Enabled(s, step)
    ensures s.visited <= s'.visited
    ensures |s.log| <= |s'.log| && s'.log[..|s.log|] == s.log
    ensures step.Start? ==> s'.tally == s.tally && |s'.pending| == |s.pending| - 1 && |s'.running| == |s.running| + 1
    ensures step.Deliver? ==> s'.visited == s.visited && s'.log == s.log && |s'.running| == |s.running|
    ensures step.Deliver? ==> -1 <= s'.tally - s.tally <= 1
  {
    match step
    case Start(i) =>
      var r := Crawl(table, s.visited, s.pending[i]);
      State(s.pending[..i] + s.pending[i + 1..], s.running + [r.effects], r.visited, s.log + r.log, s.tally)
    case Deliver(j) =>
      var e := s.running[j][0];
      s.(pending := s.pending + Children([e]),
         running := s.running[j := s.running[j][1..]],
         tally := s.tally + Delta(e))
  }

  // ---------------------------------------------------------------------
  // Sums over sequences

  function Sum<T>(xs: seq<T>, f: T -> int): (total: int)
  {
    if xs == [] then 0 else f(xs[0]) + Sum(xs[1..], f)
  }

  lemma {:induction false} SumAppend<T>(xs: seq<T>, ys: seq<T>, f: T -> int)
    ensures Sum(xs + ys, f) == Sum(xs, f) + Sum(ys, f)
    decreases |xs|
  {
    if xs == [] {
      assert xs + ys == ys;
    } else {
      assert (xs + ys)[1..] == xs[1..] + ys;
      SumAppend(xs[1..], ys, f);
    }
  }

  lemma {:induction false} SumUpdate<T>(xs: seq<T>, j: nat, x: T, f: T -> int)
    requires j < |xs|
    ensures Sum(xs[j := x], f) == Sum(xs, f) - f(xs[j]) + f(x)
    decreases j
  {
    if j > 0 {
      assert xs[j := x][1..] == xs[1..][j - 1 := x];
      SumUpdate(xs[1..], j - 1, x, f);
    }
  }

  lemma SumRemove<T>(xs: seq<T>, i: nat, f: T -> int)
    requires i < |xs|
    ensures Sum(xs[..i] + xs[i + 1..], f) == Sum(xs, f) - f(xs[i])
  {
    var front, back := xs[..i], xs[i + 1..];
    assert xs == front + ([xs[i]] + back);
    SumAppend(front, [xs[i]] + back, f);
    assert Sum([xs[i]] + back, f) == f(xs[i]) + Sum(back, f) by {
      assert ([xs[i]] + back)[1..] == back;
    }
    SumAppend(front, back, f);
  }

  // ---------------------------------------------------------------------
  // What each goroutine still owes main's tally

  /**
   The units of main's tally a goroutine still accounts for: its children
   still to start minus what it still sends. For a goroutine between fetch
   and `-1` this is one for itself, plus one for a child whose `+1` has been
   received but which has not been started yet.
   */
  function Owed(l: seq<Effect>): (owed: int)
  {
    |Children(l)| - Net(l)
  }

  /** The effects of a goroutine that has sent nothing yet: `+1`, child, ..., `+1`, child, `-1`. */
  predicate Complete(l: seq<Effect>)
    decreases |l|
  {
    l == [Down] || (|l| >= 3 && l[0] == Up && l[1].Spawn? && Complete(l[2..]))
  }

  /** What a goroutine can still have to do after its fetch, at any point. */
  predicate Remaining(l: seq<Effect>)
  {
    l == [] || Complete(l) || (l[0].Spawn? && Complete(l[1..]))
  }

  lemma OwedHead(l: seq<Effect>)
    requires l != []
    ensures Owed(l) == Owed(l[1..]) + |Children([l[0]])| - Delta(l[0])
  {
  }

  lemma {:induction false} CompleteOwesOne(l: seq<Effect>)
    requires Complete(l)
    ensures Owed(l) == 1
    decreases |l|
  {
    if l != [Down] {
      assert l[1..][1..] == l[2..];
      OwedHead(l);
      OwedHead(l[1..]);
      CompleteOwesOne(l[2..]);
    } else {
      OwedHead(l);
    }
  }

  /** A goroutine that is not finished owes main's tally one or two units. */
  lemma RemainingOwes(l: seq<Effect>)
    requires Remaining(l)
    ensures l == [] ==> Owed(l) == 0
    ensures l != [] ==> 1 <= Owed(l) <= 2
  {
    if Complete(l) {
      CompleteOwesOne(l);
    } else if l != [] {
      OwedHead(l);
      CompleteOwesOne(l[1..]);
    }
  }

  /** Performing one effect leaves what can remain. */
  lemma RemainingTail(l: seq<Effect>)
    requires Remaining(l) && l != []
    ensures Remaining(l[1..])
  {
  }

  lemma {:induction false} LaunchesComplete(links: seq<Url>, depth: int)
    ensures Complete(Launches(links, depth) + [Down])
    decreases |links|
  {
    if links != [] {
      var l := Launches(links, depth) + [Down];
      LaunchesComplete(links[1..], depth);
      assert l[2..] == Launches(links[1..], depth) + [Down];
    }
  }

  lemma CrawlComplete(table: Table, visited: set<Url>, t: Task)
    ensures Complete(Crawl(table, visited, t).effects)
  {
    var f := Fetch(table, visited, t.url);
    if t.depth > 0 && f.outcome.Ok? {
      LaunchesComplete(f.outcome.page.links, t.depth - 1);
    }
  }

  // ---------------------------------------------------------------------
  // The run invariant

  /** The URLs a log reports as found, in order. */
  function Claims(log: seq<Report>): (urls: seq<Url>)
  {
    if log == [] then []
    else if log[0].Found? then [log[0].url] + Claims(log[1..])
    else Claims(log[1..])
  }

  lemma {:induction false} ClaimsAppend(a: seq<Report>, b: seq<Report>)
    ensures Claims(a + b) == Claims(a) + Claims(b)
    decreases |a|
  {
    if a == [] {
      assert a + b == b;
    } else {
      assert (a + b)[1..] == a[1..] + b;
      ClaimsAppend(a[1..], b);
    }
  }

  predicate Distinct(xs: seq<Url>)
  {
    forall i, j :: 0 <= i < j < |xs| ==> xs[i] != xs[j]
  }

  /**
   Every goroutine's remaining effects have a possible shape; main's tally
   is the number of pending goroutines plus what the running ones owe; the
   cache holds table keys only, exactly the URLs reported found, each
   reported once.
   */
  ghost predicate Inv(table: Table, s: State)
  {
    && (forall j :: 0 <= j < |s.running| ==> Remaining(s.running[j]))
    && s.tally == |s.pending| + Sum(s.running, Owed)
    && s.visited <= table.Keys
    && s.visited == (set u | u in Claims(s.log))
    && Distinct(Claims(s.log))
  }

  lemma InitInv(table: Table, root: Url, depth: int)
    ensures Inv(table, Init(root, depth))
  {
  }

  lemma {:induction false} OwedSum(running: seq<seq<Effect>>)
    requires forall j :: 0 <= j < |running| ==> Remaining(running[j])
    ensures Sum(running, Owed) >= 0
    ensures Sum(running, Owed) == 0 <==> forall j :: 0 <= j < |running| ==> running[j] == []
    ensures forall j :: 0 <= j < |running| ==> Owed(running[j]) <= Sum(running, Owed)
    decreases |running|
  {
    if running != [] {
      RemainingOwes(running[0]);
      assert forall j :: 1 <= j < |running| ==> running[1..][j - 1] == running[j];
      OwedSum(running[1..]);
    }
  }

  /**
   Main's tally never goes negative, and it is zero exactly when no
   goroutine is pending and every goroutine that ran has sent its `-1`.
   */
  lemma TallyCountsOutstanding(table: Table, s: State)
    requires Inv(table, s)
    ensures s.tally >= 0
    ensures s.tally == 0 <==> s.pending == [] && forall j :: 0 <= j < |s.running| ==> s.running[j] == []
  {
    OwedSum(s.running);
  }

  /** Starting a goroutine keeps the tally equal to the outstanding work. */
  lemma StartKeepsTally(table: Table, s: State, i: nat)
    requires Inv(table, s) && Enabled(s, Start(i))
    ensures var s' := Next(table, s, Start(i));
      && (forall j :: 0 <= j < |s'.running| ==> Remaining(s'.running[j]))
      && s'.tally == |s'.pending| + Sum(s'.running, Owed)
  {
    var r := Crawl(table, s.visited, s.pending[i]);
    var s' := Next(table, s, Start(i));
    CrawlComplete(table, s.visited, s.pending[i]);
    CompleteOwesOne(r.effects);
    SumAppend(s.running, [r.effects], Owed);
    assert Sum([r.effects], Owed) == Owed(r.effects);
    assert forall j :: 0 <= j < |s.running| ==> s'.running[j] == s.running[j];
    assert |s'.pending| == |s.pending| - 1;
  }

  /** Starting a goroutine keeps the cache equal to the URLs reported found, each reported once. */
  lemma StartKeepsClaims(table: Table, s: State, i: nat)
    requires Inv(table, s) && Enabled(s, Start(i))
    ensures var s' := Next(table, s, Start(i));
      && s'.visited <= table.Keys
      && s'.visited == (set u | u in Claims(s'.log))
      && Distinct(Claims(s'.log))
  {
    var t := s.pending[i];
    var r := Crawl(table, s.visited, t);
    var s' := Next(table, s, Start(i));
    assert s'.log == s.log + r.log && s'.visited == r.visited;
    ClaimsAppend(s.log, r.log);
    if t.depth > 0 && Fetch(table, s.visited, t.url).outcome.Ok? {
      assert Claims(r.log) == [t.url];
      assert t.url !in s.visited;
      assert r.visited == s.visited + {t.url};
    } else {
      assert Claims(r.log) == [];
      assert Claims(s'.log) == Claims(s.log);
      assert r.visited == s.visited;
    }
  }

  lemma StartPreservesInv(table: Table, s: State, i: nat)
    requires Inv(table, s) && Enabled(s, Start(i))
    ensures Inv(table, Next(table, s, Start(i)))
  {
    StartKeepsTally(table, s, i);
    StartKeepsClaims(table, s, i);
  }

  lemma DeliverPreservesInv(table: Table, s: State, j: nat)
    requires Inv(table, s) && Enabled(s, Deliver(j))
    ensures Inv(table, Next(table, s, Deliver(j)))
  {
    var l := s.running[j];
    RemainingTail(l);
    OwedHead(l);
    SumUpdate(s.running, j, l[1..], Owed);
  }

  lemma StepPreservesInv(table: Table, s: State, step: Step)
    requires Inv(table, s) && Enabled(s, step)
    ensures Inv(table, Next(table, s, step))
  {
    match step
    case Start(i) => StartPreservesInv(table, s, i);
    case Deliver(j) => DeliverPreservesInv(table, s, j);
  }

  // ---------------------------------------------------------------------
  // Progress: while the tally is positive some step can be taken

  /** The indices of the goroutines in `running[from..]` that still have effects to perform. */
  function Busy(running: seq<seq<Effect>>, from: nat): (r: seq<nat>)
    requires from <= |running|
    ensures forall k :: 0 <= k < |r| ==> from <= r[k] < |running| && running[r[k]] != []
    ensures forall j :: from <= j < |running| && running[j] != [] ==> j in r
    decreases |running| - from
  {
    if from == |running| then []
    else if running[from] != [] then [from] + Busy(running, from + 1)
    else Busy(running, from + 1)
  }

  /** Every step the scheduler may take from `s`. */
  function EnabledSteps(s: State): (r: seq<Step>)
    ensures forall k :: 0 <= k < |r| ==> Enabled(s, r[k])
  {
    if s.tally <= 0 then []
    else
      var busy := Busy(s.running, 0);
      seq(|s.pending|, i requires 0 <= i < |s.pending| => Start(i))
        + seq(|busy|, k requires 0 <= k < |busy| => Deliver(busy[k]))
  }

  /** The scheduler may pick any step that is enabled. */
  lemma EnabledStepsComplete(s: State, step: Step)
    requires Enabled(s, step)
    ensures step in EnabledSteps(s)
  {
    var r := EnabledSteps(s);
    match step
    case Start(i) =>
      assert r[i] == Start(i);
    case Deliver(j) =>
      var busy := Busy(s.running, 0);
      var k :| 0 <= k < |busy| && busy[k] == j;
      assert r[|s.pending| + k] == Deliver(j);
  }

  /** A positive tally means some goroutine can still make a step. */
  lemma Progress(table: Table, s: State)
    requires Inv(table, s) && s.tally > 0
    ensures |EnabledSteps(s)| > 0
  {
    TallyCountsOutstanding(table, s);
    if s.pending != [] {
      assert Enabled(s, Start(0));
    } else {
      var j :| 0 <= j < |s.running| && s.running[j] != [];
      assert Enabled(s, Deliver(j));
    }
  }

  // ---------------------------------------------------------------------
  // Termination: every step lowers a depth-based measure

  /** An upper bound on the number of links of any page in the table. */
  ghost function Fanout(table: Table): (b: nat)
    ensures forall u :: u in table ==> |table[u].links| <= b
    decreases |table|
  {
    if table == map[] then 0
    else
      var u :| u in table;
      var rest := table - {u};
      assert rest.Keys == table.Keys - {u};
      assert |rest| < |table|;
      var b := Fanout(rest);
      assert forall v :: v in table && v != u ==> v in rest && rest[v] == table[v];
      if |table[u].links| > b then |table[u].links| else b
  }

  /**
   Steps a pending task of depth `d` and all its descendants can take at
   most, when no page has more than `b` links.
   */
  function Cost(d: int, b: nat): (steps: nat)
    decreases if d <= 0 then 0 else d
  {
    if d <= 0 then 2 else 2 + b * (2 + Cost(d - 1, b))
  }

  function EffectCost(e: Effect, b: nat): (steps: nat)
  {
    match e
    case Spawn(c) => 1 + Cost(c.depth, b)
    case _ => 1
  }

  function ListCost(l: seq<Effect>, b: nat): (steps: nat)
  {
    if l == [] then 0 else EffectCost(l[0], b) + ListCost(l[1..], b)
  }

  function TaskCostOf(b: nat): (cost: Task -> int)
  {
    (t: Task) => Cost(t.depth, b)
  }

  function ListCostOf(b: nat): (cost: seq<Effect> -> int)
  {
    (l: seq<Effect>) => ListCost(l, b)
  }

  ghost function Measure(table: Table, s: State): (m: int)
  {
    var b := Fanout(table);
    Sum(s.pending, TaskCostOf(b)) + Sum(s.running, ListCostOf(b))
  }

  lemma {:induction false} SumCostNonNegative<T>(xs: seq<T>, f: T -> int)
    requires forall x :: x in xs ==> f(x) >= 0
    ensures Sum(xs, f) >= 0
    decreases |xs|
  {
    if xs != [] {
      SumCostNonNegative(xs[1..], f);
    }
  }

  lemma MeasureNonNegative(table: Table, s: State)
    ensures Measure(table, s) >= 0
  {
    var b := Fanout(table);
    SumCostNonNegative(s.pending, TaskCostOf(b));
    SumCostNonNegative(s.running, ListCostOf(b));
  }

  lemma {:induction false} LaunchesCost(links: seq<Url>, depth: int, b: nat)
    ensures ListCost(Launches(links, depth) + [Down], b) == |links| * (2 + Cost(depth, b)) + 1
    decreases |links|
  {
    if links != [] {
      var l := Launches(links, depth) + [Down];
      var c := 2 + Cost(depth, b);
      LaunchesCost(links[1..], depth, b);
      assert l[1..][1..] == Launches(links[1..], depth) + [Down];
      assert ListCost(l, b) == c + ListCost(l[1..][1..], b);
      assert |links| * c == c + (|links| - 1) * c;
    }
  }

  lemma MulMonotone(a: nat, b: nat, c: nat)
    requires a <= b
    ensures a * c <= b * c
  {
  }

  /** What a task still has to do after its fetch costs less than the task did before it. */
  lemma CrawlCost(table: Table, visited: set<Url>, t: Task, b: nat)
    requires forall u :: u in table ==> |table[u].links| <= b
    ensures ListCost(Crawl(table, visited, t).effects, b) < Cost(t.depth, b)
  {
    var f := Fetch(table, visited, t.url);
    if t.depth > 0 && f.outcome.Ok? {
      var links := f.outcome.page.links;
      LaunchesCost(links, t.depth - 1, b);
      MulMonotone(|links|, b, 2 + Cost(t.depth - 1, b));
    }
  }

  /** Every step lowers the measure by at least one. */
  lemma StepDecreases(table: Table, s: State, step: Step)
    requires Enabled(s, step)
    ensures Measure(table, Next(table, s, step)) < Measure(table, s)
  {
    var b := Fanout(table);
    match step
    case Start(i) =>
      var r := Crawl(table, s.visited, s.pending[i]);
      CrawlCost(table, s.visited, s.pending[i], b);
      SumRemove(s.pending, i, TaskCostOf(b));
      SumAppend(s.running, [r.effects], ListCostOf(b));
    case Deliver(j) =>
      var l := s.running[j];
      SumUpdate(s.running, j, l[1..], ListCostOf(b));
      SumAppend(s.pending, Children([l[0]]), TaskCostOf(b));
      assert ListCostOf(b)(l) == EffectCost(l[0], b) + ListCostOf(b)(l[1..]);
      assert [l[0]][1..] == [];
      if l[0].Spawn? {
        assert Sum(Children([l[0]]), TaskCostOf(b)) == Cost(l[0].child.depth, b);
      } else {
        assert Children([l[0]]) == [];
      }
  }

  // ---------------------------------------------------------------------
  // Executions: any interleaving of enabled steps

  predicate Execution(table: Table, s: State, steps: seq<Step>)
    decreases |steps|
  {
    steps == [] || (Enabled(s, steps[0]) && Execution(table, Next(table, s, steps[0]), steps[1..]))
  }

  function Final(table: Table, s: State, steps: seq<Step>): (s': State)
    requires Execution(table, s, steps)
    decreases |steps|
  {
    if steps == [] then s else Final(table, Next(table, s, steps[0]), steps[1..])
  }

  /**
   Along any interleaving the invariant holds, and the number of steps is
   bounded by the measure of the starting state: no schedule runs forever.
   */
  lemma {:induction false} ExecutionSafeAndBounded(table: Table, s: State, steps: seq<Step>)
    requires Inv(table, s) && Execution(table, s, steps)
    ensures Inv(table, Final(table, s, steps))
    ensures |steps| <= Measure(table, s) - Measure(table, Final(table, s, steps))
    decreases |steps|
  {
    if steps != [] {
      StepPreservesInv(table, s, steps[0]);
      StepDecreases(table, s, steps[0]);
      ExecutionSafeAndBounded(table, Next(table, s, steps[0]), steps[1..]);
    }
  }

  /**
   Every interleaving from the initial state is at most `Measure(Init)`
   steps long, and a run that cannot be extended has ended with main's tally
   at zero and every goroutine finished.
   */
  lemma EveryRunEnds(table: Table, root: Url, depth: int, steps: seq<Step>)
    requires Execution(table, Init(root, depth), steps)
    ensures |steps| <= Measure(table, Init(root, depth))
    ensures var s := Final(table, Init(root, depth), steps);
      EnabledSteps(s) == [] ==>
        s.tally == 0 && s.pending == [] && forall j :: 0 <= j < |s.running| ==> s.running[j] == []
  {
    var s := Final(table, Init(root, depth), steps);
    InitInv(table, root, depth);
    ExecutionSafeAndBounded(table, Init(root, depth), steps);
    MeasureNonNegative(table, s);
    TallyCountsOutstanding(table, s);
    if s.tally > 0 {
      Progress(table, s);
    }
  }

  // ---------------------------------------------------------------------
  // The atomic view: a task runs and all its sends are received at once

  /**
   One pending task run to completion in a single step: its children join
   the pending tasks and main's tally moves by one less than their number.
   */
  function AtomicNext(table: Table, s: State, i: nat): (s': State)
    requires i < |s.pending|
    ensures s'.tally - s.tally == |s'.pending| - |s.pending|
    ensures s.visited <= s'.visited
    ensures forall k :: |s.pending| - 1 <= k < |s'.pending| ==> s'.pending[k].depth == s.pending[i].depth - 1 >= 0
  {
    var r := Crawl(table, s.visited, s.pending[i]);
    CrawlChildren(table, s.visited, s.pending[i]);
    CrawlChildrenShallower(table, s.visited, s.pending[i]);
    State(s.pending[..i] + s.pending[i + 1..] + Children(r.effects), s.running + [[]],
          r.visited, s.log + r.log, s.tally + Net(r.effects))
  }

  function Repeat(step: Step, n: nat): (r: seq<Step>)
    ensures |r| == n && forall k :: 0 <= k < n ==> r[k] == step
  {
    seq(n, _ => step)
  }

  /** The next effect of an unfinished goroutine can always be performed. */
  lemma DeliverOne(table: Table, s: State, j: nat)
    requires Inv(table, s) && j < |s.running| && s.running[j] != []
    ensures Enabled(s, Deliver(j))
    ensures Inv(table, Next(table, s, Deliver(j)))
    ensures var l := s.running[j];
      Next(table, s, Deliver(j))
        == s.(pending := s.pending + Children([l[0]]), running := s.running[j := l[1..]], tally := s.tally + Net([l[0]]))
  {
    var l := s.running[j];
    OwedSum(s.running);
    RemainingOwes(l);
    DeliverPreservesInv(table, s, j);
    assert [l[0]][1..] == [];
  }

  /** The state after goroutine `j` has performed all of its remaining effects. */
  function Drained(s: State, j: nat): (s': State)
    requires j < |s.running|
  {
    var l := s.running[j];
    s.(pending := s.pending + Children(l), running := s.running[j := []], tally := s.tally + Net(l))
  }

  lemma DrainedAfterHead(s: State, j: nat)
    requires j < |s.running| && s.running[j] != []
    ensures var l := s.running[j];
      var s1 := s.(pending := s.pending + Children([l[0]]), running := s.running[j := l[1..]], tally := s.tally + Net([l[0]]));
      Drained(s1, j) == Drained(s, j)
  {
  }

  /** Delivering all of a goroutine's remaining effects in a row is an execution. */
  lemma {:induction false} Drain(table: Table, s: State, j: nat)
    requires Inv(table, s) && j < |s.running|
    ensures Execution(table, s, Repeat(Deliver(j), |s.running[j]|))
    ensures Final(table, s, Repeat(Deliver(j), |s.running[j]|)) == Drained(s, j)
    decreases |s.running[j]|
  {
    var l := s.running[j];
    if l == [] {
      assert s.running[j := []] == s.running;
      assert s.pending + Children(l) == s.pending;
    } else {
      DeliverOne(table, s, j);
      var s1 := Next(table, s, Deliver(j));
      Drain(table, s1, j);
      var rest := Repeat(Deliver(j), |l| - 1);
      var steps := Repeat(Deliver(j), |l|);
      assert steps[1..] == rest;
      assert Final(table, s, steps) == Final(table, s1, rest);
      DrainedAfterHead(s, j);
    }
  }

  /**
   The atomic step is one particular interleaving of the fine-grained
   steps: starting task `i` and at once delivering all of its effects.
   */
  lemma AtomicIsExecution(table: Table, s: State, i: nat)
    requires Inv(table, s) && Enabled(s, Start(i))
    ensures var n := |Crawl(table, s.visited, s.pending[i]).effects|;
      var steps := [Start(i)] + Repeat(Deliver(|s.running|), n);
      && Execution(table, s, steps)
      && Final(table, s, steps) == AtomicNext(table, s, i)
  {
    var n := |Crawl(table, s.visited, s.pending[i]).effects|;
    var steps := [Start(i)] + Repeat(Deliver(|s.running|), n);
    var s1 := Next(table, s, Start(i));
    StartPreservesInv(table, s, i);
    Drain(table, s1, |s.running|);
    assert steps[1..] == Repeat(Deliver(|s.running|), n);
    assert s1.running[|s.running| := []] == s.running + [[]];
  }

  /** In the atomic view, where no goroutine is half-way, main's tally is the number of outstanding tasks. */
  lemma AtomicTally(table: Table, s: State, i: nat)
    requires Inv(table, s) && Enabled(s, Start(i))
    requires forall j :: 0 <= j < |s.running| ==> s.running[j] == []
    ensures var s' := AtomicNext(table, s, i);
      && Inv(table, s')
      && s'.tally == |s'.pending|
  {
    var s' := AtomicNext(table, s, i);
    AtomicIsExecution(table, s, i);
    var n := |Crawl(table, s.visited, s.pending[i]).effects|;
    ExecutionSafeAndBounded(table, s, [Start(i)] + Repeat(Deliver(|s.running|), n));
    OwedSum(s'.running);
  }

  // ---------------------------------------------------------------------
  // main: run the goroutines until the tally reaches zero

  /** No task is ever fetched: every pending task has an exhausted depth and nobody starts a child. */
  ghost predicate Idle(s: State)
  {
    && s.log == []
    && (forall t :: t in s.pending ==> t.depth <= 0)
    && forall j :: 0 <= j < |s.running| ==> Children(s.running[j]) == []
  }

  lemma IdleStep(table: Table, s: State, step: Step)
    requires Idle(s) && Enabled(s, step)
    ensures Idle(Next(table, s, step))
  {
    match step
    case Start(i) =>
      assert s.pending[i] in s.pending;
      var s' := Next(table, s, step);
      forall t | t in s'.pending ensures t.depth <= 0 {
        assert t in s.pending;
      }
    case Deliver(j) =>
      var l := s.running[j];
      assert l == [l[0]] + l[1..];
      NetAppend([l[0]], l[1..]);
  }

  lemma RunStep(table: Table, s: State, step: Step, depth: int)
    requires Inv(table, s) && Enabled(s, step)
    requires depth <= 0 ==> Idle(s)
    ensures Inv(table, Next(table, s, step))
    ensures depth <= 0 ==> Idle(Next(table, s, step))
    ensures 0 <= Measure(table, Next(table, s, step)) < Measure(table, s)
  {
    MeasureNonNegative(table, Next(table, s, step));
    StepPreservesInv(table, s, step);
    StepDecreases(table, s, step);
    if depth <= 0 {
      IdleStep(table, s, step);
    }
  }

  /**
   `main`: start the root goroutine, then let the goroutines run in the
   order `scheduler` picks while the tally is positive. Whatever the
   scheduler, the loop ends, and when it does every goroutine has finished,
   each URL was served at most once and only table URLs were served; a root
   depth of zero or less fetches nothing.
   */
  method Run(table: Table, root: Url, depth: int, scheduler: State -> nat) returns (s: State)
    ensures s.tally == 0
    ensures s.pending == [] && forall j :: 0 <= j < |s.running| ==> s.running[j] == []
    ensures s.visited <= table.Keys
    ensures s.visited == (set u | u in Claims(s.log)) && Distinct(Claims(s.log))
    ensures depth <= 0 ==> s.log == [] && s.visited == {}
  {
    s := Init(root, depth);
    InitInv(table, root, depth);
    assert depth <= 0 ==> Idle(s);
    while s.tally > 0
      invariant Inv(table, s)
      invariant depth <= 0 ==> Idle(s)
      decreases Measure(table, s)
    {
      Progress(table, s);
      var steps := EnabledSteps(s);
      var step := steps[scheduler(s) % |steps|];
      RunStep(table, s, step, depth);
      s := Next(table, s, step);
    }
    TallyCountsOutstanding(table, s);
  }
}
