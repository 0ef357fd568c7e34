// ThreadPool (f8a_worker/utils.py) as interleaved steps: a shared first-in
// first-out queue with its counter of unfinished tasks, workers that leave on
// an empty timeout or die when the target raises, and join().
module ThreadPool {
  datatype Worker<T> = Idle | Busy(task: T) | Left | Dead

  // `finished` lists the tasks whose target returned or raised, in order.
  datatype Pool<T> = Pool(queue: seq<T>, unfinished: int, workers: seq<Worker<T>>, finished: seq<T>)

  datatype Step<T> =
    | Put(task: T)         // add_task
    | Get(worker: nat)     // queue.get hands the head of the queue to an idle worker
    | Timeout(worker: nat) // queue.get raises Empty: the worker leaves its loop
    | Finish(worker: nat)  // the target ends, task_done() follows; a raising target kills the thread

  function Start<T>(tasks: seq<T>, n: nat): Pool<T> {
    Pool(tasks, |tasks|, seq(n, _ => Idle), [])
  }

  predicate Enabled<T(==)>(p: Pool<T>, s: Step<T>) {
    match s
    case Put(_) => true
    case Get(w) => w < |p.workers| && p.workers[w] == Idle && p.queue != []
    case Timeout(w) => w < |p.workers| && p.workers[w] == Idle && p.queue == []
    case Finish(w) => w < |p.workers| && p.workers[w].Busy?
  }

  function Do<T(==)>(p: Pool<T>, s: Step<T>, raises: T -> bool): Pool<T>
    requires Enabled(p, s)
  {
    match s
    case Put(task) => p.(queue := p.queue + [task], unfinished := p.unfinished + 1)
    case Get(w) => p.(queue := p.queue[1..], workers := p.workers[w := Busy(p.queue[0])])
    case Timeout(w) => p.(workers := p.workers[w := Left])
    case Finish(w) =>
      var task := p.workers[w].task;
      p.(unfinished := p.unfinished - 1, finished := p.finished + [task],
         workers := p.workers[w := if raises(task) then Dead else Idle])
  }

  predicate IsRun<T(==)>(p: Pool<T>, steps: seq<Step<T>>, raises: T -> bool)
    decreases |steps|
  {
    steps == [] || (Enabled(p, steps[0]) && IsRun(Do(p, steps[0], raises), steps[1..], raises))
  }

  function After<T(==)>(p: Pool<T>, steps: seq<Step<T>>, raises: T -> bool): Pool<T>
    requires IsRun(p, steps, raises)
    decreases |steps|
  {
    if steps == [] then p else After(Do(p, steps[0], raises), steps[1..], raises)
  }

  /** No task is added any more. */
  predicate Closed<T(==)>(steps: seq<Step<T>>) {
    forall s | s in steps :: !s.Put?
  }

  /** Every thread has ended and no worker can move. */
  ghost predicate Halted<T(!new)>(p: Pool<T>) {
    forall s: Step<T> | !s.Put? :: !Enabled(p, s)
  }

  /** Both halves of join() return: all threads ended, and the counter is back at zero. */
  predicate JoinReturns<T(==)>(p: Pool<T>) {
    p.unfinished == 0 && forall w | 0 <= w < |p.workers| :: p.workers[w] == Left || p.workers[w] == Dead
  }

  // ----- counting -----

  function Bit(b: bool): nat {
    if b then 1 else 0
  }

  /** How many workers run the task `x`. */
  function Running<T(==)>(workers: seq<Worker<T>>, x: T): nat {
    if workers == [] then 0 else Bit(workers[0] == Busy(x)) + Running(workers[1..], x)
  }

  function CountBusy<T>(workers: seq<Worker<T>>): nat {
    if workers == [] then 0 else Bit(workers[0].Busy?) + CountBusy(workers[1..])
  }

  function CountIdle<T>(workers: seq<Worker<T>>): nat {
    if workers == [] then 0 else Bit(workers[0].Idle?) + CountIdle(workers[1..])
  }

  function CountDead<T>(workers: seq<Worker<T>>): nat {
    if workers == [] then 0 else Bit(workers[0].Dead?) + CountDead(workers[1..])
  }

  /** Running tasks whose target is going to raise. */
  function CountDoomed<T>(workers: seq<Worker<T>>, raises: T -> bool): nat {
    if workers == [] then 0 else Doomed(workers[0], raises) + CountDoomed(workers[1..], raises)
  }

  function Doomed<T>(w: Worker<T>, raises: T -> bool): nat {
    Bit(w.Busy? && raises(w.task))
  }

  function CountRaising<T>(tasks: seq<T>, raises: T -> bool): nat {
    if tasks == [] then 0 else Bit(raises(tasks[0])) + CountRaising(tasks[1..], raises)
  }

  function Added<T(==)>(steps: seq<Step<T>>): multiset<T> {
    if steps == [] then multiset{}
    else AddedBy(steps[0]) + Added(steps[1..])
  }

  function AddedBy<T(==)>(s: Step<T>): multiset<T> {
    if s.Put? then multiset{s.task} else multiset{}
  }

  lemma {:induction false} UpdateRunning<T>(ws: seq<Worker<T>>, w: nat, y: Worker<T>, x: T)
    requires w < |ws|
    ensures Running(ws[w := y], x) + Bit(ws[w] == Busy(x)) == Running(ws, x) + Bit(y == Busy(x))
  {
    if w > 0 {
      assert ws[w := y][1..] == ws[1..][w - 1 := y];
      UpdateRunning(ws[1..], w - 1, y, x);
    } else {
      assert ws[w := y][1..] == ws[1..];
    }
  }

  lemma {:induction false} UpdateCounts<T>(ws: seq<Worker<T>>, w: nat, x: Worker<T>)
    requires w < |ws|
    ensures CountBusy(ws[w := x]) + Bit(ws[w].Busy?) == CountBusy(ws) + Bit(x.Busy?)
    ensures CountIdle(ws[w := x]) + Bit(ws[w].Idle?) == CountIdle(ws) + Bit(x.Idle?)
    ensures CountDead(ws[w := x]) + Bit(ws[w].Dead?) == CountDead(ws) + Bit(x.Dead?)
  {
    if w > 0 {
      assert ws[w := x][1..] == ws[1..][w - 1 := x];
      UpdateCounts(ws[1..], w - 1, x);
    } else {
      assert ws[w := x][1..] == ws[1..];
    }
  }

  lemma {:induction false} UpdateDoomed<T>(ws: seq<Worker<T>>, w: nat, x: Worker<T>, raises: T -> bool)
    requires w < |ws|
    ensures CountDoomed(ws[w := x], raises) + Doomed(ws[w], raises) == CountDoomed(ws, raises) + Doomed(x, raises)
  {
    if w > 0 {
      assert ws[w := x][1..] == ws[1..][w - 1 := x];
      UpdateDoomed(ws[1..], w - 1, x, raises);
    } else {
      assert ws[w := x][1..] == ws[1..];
    }
  }

  lemma {:induction false} AllIdle<T>(n: nat, raises: T -> bool)
    ensures var ws := Start<T>([], n).workers;
            CountBusy(ws) == 0 && CountIdle(ws) == n && CountDead(ws) == 0 && CountDoomed(ws, raises) == 0
  {
    if n > 0 {
      assert Start<T>([], n).workers[1..] == Start<T>([], n - 1).workers;
      AllIdle(n - 1, raises);
    }
  }

  lemma {:induction false} NoneBusy<T>(ws: seq<Worker<T>>, x: T)
    requires forall w | 0 <= w < |ws| :: !ws[w].Busy?
    ensures Running(ws, x) == 0
  {
    if ws != [] {
      NoneBusy(ws[1..], x);
    }
  }

  lemma {:induction false} CountRaisingConcat<T>(a: seq<T>, b: seq<T>, raises: T -> bool)
    ensures CountRaising(a + b, raises) == CountRaising(a, raises) + CountRaising(b, raises)
  {
    if a == [] {
      assert a + b == b;
    } else {
      assert (a + b)[1..] == a[1..] + b;
      CountRaisingConcat(a[1..], b, raises);
    }
  }

  // ----- safety in every interleaving, tasks added at any time -----

  /** Each task is queued, running or finished as often as it was added. */
  ghost predicate Conserves<T(!new)>(p: Pool<T>, added: multiset<T>) {
    && (forall x :: multiset(p.queue)[x] + Running(p.workers, x) + multiset(p.finished)[x] == added[x])
    && p.unfinished == |p.queue| + CountBusy(p.workers)
  }

  lemma GetConserves<T(!new)>(p: Pool<T>, w: nat, raises: T -> bool, added: multiset<T>)
    requires Conserves(p, added) && Enabled(p, Get(w))
    ensures Conserves(Do(p, Get(w), raises), added)
  {
    var head := p.queue[0];
    assert p.queue == [head] + p.queue[1..];
    UpdateCounts(p.workers, w, Busy(head));
    forall x ensures multiset(p.queue[1..])[x] + Running(p.workers[w := Busy(head)], x) + multiset(p.finished)[x] == added[x] {
      UpdateRunning(p.workers, w, Busy(head), x);
      assert multiset(p.queue)[x] == Bit(x == head) + multiset(p.queue[1..])[x];
    }
  }

  lemma LeaveConserves<T(!new)>(p: Pool<T>, w: nat, raises: T -> bool, added: multiset<T>)
    requires Conserves(p, added) && Enabled(p, Timeout(w))
    ensures Conserves(Do(p, Timeout(w), raises), added)
  {
    UpdateCounts(p.workers, w, Left);
    forall x ensures Running(p.workers[w := Left], x) == Running(p.workers, x) {
      UpdateRunning(p.workers, w, Left, x);
    }
  }

  lemma FinishConserves<T(!new)>(p: Pool<T>, w: nat, raises: T -> bool, added: multiset<T>)
    requires Conserves(p, added) && Enabled(p, Finish(w))
    ensures Conserves(Do(p, Finish(w), raises), added)
  {
    var task := p.workers[w].task;
    var y: Worker<T> := if raises(task) then Dead else Idle;
    UpdateCounts(p.workers, w, y);
    forall x ensures multiset(p.queue)[x] + Running(p.workers[w := y], x) + multiset(p.finished + [task])[x] == added[x] {
      UpdateRunning(p.workers, w, y, x);
      assert multiset(p.finished + [task])[x] == multiset(p.finished)[x] + Bit(x == task);
    }
  }

  lemma StepConserves<T(!new)>(p: Pool<T>, s: Step<T>, raises: T -> bool, added: multiset<T>)
    requires Conserves(p, added) && Enabled(p, s)
    ensures Conserves(Do(p, s, raises), added + AddedBy(s))
  {
    match s
    case Put(_) =>
    case Get(w) => GetConserves(p, w, raises, added);
    case Timeout(w) => LeaveConserves(p, w, raises, added);
    case Finish(w) => FinishConserves(p, w, raises, added);
  }

  /** In every run the queued, running and finished tasks are together the added ones, and the counter
      equals queued plus running; it never goes below zero. */
  lemma {:induction false} Conservation<T(!new)>(p: Pool<T>, steps: seq<Step<T>>, raises: T -> bool, added: multiset<T>)
    requires Conserves(p, added) && IsRun(p, steps, raises)
    ensures Conserves(After(p, steps, raises), added + Added(steps))
    ensures After(p, steps, raises).unfinished >= 0
    decreases |steps|
  {
    if steps != [] {
      StepConserves(p, steps[0], raises, added);
      Conservation(Do(p, steps[0], raises), steps[1..], raises, added + AddedBy(steps[0]));
      assert added + Added(steps) == (added + AddedBy(steps[0])) + Added(steps[1..]);
    }
  }

  lemma StartConserves<T(!new)>(tasks: seq<T>, n: nat, raises: T -> bool)
    ensures Conserves(Start(tasks, n), multiset(tasks))
  {
    AllIdle(n, raises);
    assert Start(tasks, n).workers == Start([], n).workers;
    forall x ensures Running(Start(tasks, n).workers, x) == 0 {
      NoneBusy(Start(tasks, n).workers, x);
    }
  }

  // ----- every run without further tasks is finite -----

  function Measure<T>(p: Pool<T>): nat {
    3 * |p.queue| + 2 * CountBusy(p.workers) + CountIdle(p.workers)
  }

  lemma StepDecreases<T>(p: Pool<T>, s: Step<T>, raises: T -> bool)
    requires Enabled(p, s) && !s.Put?
    ensures Measure(Do(p, s, raises)) < Measure(p)
  {
    match s
    case Get(w) => UpdateCounts(p.workers, w, Busy(p.queue[0]));
    case Timeout(w) => UpdateCounts(p.workers, w, Left);
    case Finish(w) => UpdateCounts(p.workers, w, if raises(p.workers[w].task) then Dead else Idle);
  }

  lemma {:induction false} RunsAreFinite<T>(p: Pool<T>, steps: seq<Step<T>>, raises: T -> bool)
    requires IsRun(p, steps, raises) && Closed(steps)
    ensures |steps| + Measure(After(p, steps, raises)) <= Measure(p)
    decreases |steps|
  {
    if steps != [] {
      assert steps[0] in steps;
      StepDecreases(p, steps[0], raises);
      RunsAreFinite(Do(p, steps[0], raises), steps[1..], raises);
    }
  }

  // ----- when join returns -----

  function Taken<T>(p: Pool<T>, tasks: seq<T>): seq<T>
    requires |p.queue| <= |tasks|
  {
    tasks[..|tasks| - |p.queue|]
  }

  /** What holds in every run that starts with all tasks queued: the tasks are the taken ones and the queue,
      each taken task that raises has killed a worker or is about to, and a worker only leaves an empty queue. */
  ghost predicate Orderly<T(!new)>(p: Pool<T>, tasks: seq<T>, n: nat, raises: T -> bool) {
    && Conserves(p, multiset(tasks)) && |p.workers| == n
    && |p.queue| <= |tasks| && tasks == Taken(p, tasks) + p.queue
    && CountDead(p.workers) + CountDoomed(p.workers, raises) == CountRaising(Taken(p, tasks), raises)
    && (Left in p.workers ==> p.queue == [])
  }

  lemma CountRaisingSnoc<T>(tasks: seq<T>, task: T, raises: T -> bool)
    ensures CountRaising(tasks + [task], raises) == CountRaising(tasks, raises) + Bit(raises(task))
  {
    CountRaisingConcat(tasks, [task], raises);
    assert [task][1..] == [];
  }

  /** Taking the head of the queue moves it to the taken tasks. */
  lemma TakeHead<T>(taken: seq<T>, queue: seq<T>, tasks: seq<T>)
    requires queue != [] && tasks == taken + queue
    ensures tasks[..|taken| + 1] == taken + [queue[0]] && tasks == (taken + [queue[0]]) + queue[1..]
  {
  }

  lemma GetOrderly<T(!new)>(p: Pool<T>, w: nat, tasks: seq<T>, n: nat, raises: T -> bool)
    requires Orderly(p, tasks, n, raises) && Enabled(p, Get(w))
    ensures Orderly(Do(p, Get(w), raises), tasks, n, raises)
  {
    var (task, taken) := (p.queue[0], Taken(p, tasks));
    GetConserves(p, w, raises, multiset(tasks));
    UpdateCounts(p.workers, w, Busy(task));
    UpdateDoomed(p.workers, w, Busy(task), raises);
    TakeHead(taken, p.queue, tasks);
    CountRaisingSnoc(taken, task, raises);
    var q := Do(p, Get(w), raises);
    assert Taken(q, tasks) == taken + [task];
    assert Left in q.workers ==> Left in p.workers;
  }

  lemma LeaveOrderly<T(!new)>(p: Pool<T>, w: nat, tasks: seq<T>, n: nat, raises: T -> bool)
    requires Orderly(p, tasks, n, raises) && Enabled(p, Timeout(w))
    ensures Orderly(Do(p, Timeout(w), raises), tasks, n, raises)
  {
    LeaveConserves(p, w, raises, multiset(tasks));
    UpdateCounts(p.workers, w, Left);
    UpdateDoomed(p.workers, w, Left, raises);
    assert Taken(Do(p, Timeout(w), raises), tasks) == Taken(p, tasks);
  }

  lemma FinishOrderly<T(!new)>(p: Pool<T>, w: nat, tasks: seq<T>, n: nat, raises: T -> bool)
    requires Orderly(p, tasks, n, raises) && Enabled(p, Finish(w))
    ensures Orderly(Do(p, Finish(w), raises), tasks, n, raises)
  {
    var q := Do(p, Finish(w), raises);
    var y := q.workers[w];
    FinishConserves(p, w, raises, multiset(tasks));
    UpdateCounts(p.workers, w, y);
    UpdateDoomed(p.workers, w, y, raises);
    assert q.queue == p.queue && Taken(q, tasks) == Taken(p, tasks);
    assert Left in q.workers ==> Left in p.workers;
  }

  lemma StepOrderly<T(!new)>(p: Pool<T>, s: Step<T>, tasks: seq<T>, n: nat, raises: T -> bool)
    requires Orderly(p, tasks, n, raises) && Enabled(p, s) && !s.Put?
    ensures Orderly(Do(p, s, raises), tasks, n, raises)
  {
    match s
    case Get(w) => GetOrderly(p, w, tasks, n, raises);
    case Timeout(w) => LeaveOrderly(p, w, tasks, n, raises);
    case Finish(w) => FinishOrderly(p, w, tasks, n, raises);
  }

  lemma {:induction false} RunOrderly<T(!new)>(p: Pool<T>, steps: seq<Step<T>>, tasks: seq<T>, n: nat, raises: T -> bool)
    requires Orderly(p, tasks, n, raises) && IsRun(p, steps, raises) && Closed(steps)
    ensures Orderly(After(p, steps, raises), tasks, n, raises)
    decreases |steps|
  {
    if steps != [] {
      assert steps[0] in steps;
      StepOrderly(p, steps[0], tasks, n, raises);
      RunOrderly(Do(p, steps[0], raises), steps[1..], tasks, n, raises);
    }
  }

  /** A halted pool has only ended threads. */
  lemma HaltedWorkers<T(!new)>(p: Pool<T>)
    requires Halted(p)
    ensures forall w | 0 <= w < |p.workers| :: p.workers[w] == Left || p.workers[w] == Dead
  {
    forall w | 0 <= w < |p.workers| ensures p.workers[w] == Left || p.workers[w] == Dead {
      assert !Enabled(p, Get(w)) && !Enabled(p, Timeout(w)) && !Enabled(p, Finish(w));
    }
  }

  lemma {:induction false} EndedCounts<T>(ws: seq<Worker<T>>, raises: T -> bool)
    requires forall w | 0 <= w < |ws| :: ws[w] == Left || ws[w] == Dead
    ensures CountBusy(ws) == 0 && CountDoomed(ws, raises) == 0
    ensures Left !in ws ==> CountDead(ws) == |ws|
  {
    if ws != [] {
      EndedCounts(ws[1..], raises);
    }
  }

  /** All tasks but the last: the raising ones among these decide whether every worker can die early. */
  function ButLast<T>(tasks: seq<T>): seq<T> {
    if tasks == [] then [] else tasks[..|tasks| - 1]
  }

  predicate EnoughWorkers<T>(tasks: seq<T>, n: nat, raises: T -> bool) {
    tasks == [] || CountRaising(ButLast(tasks), raises) < n
  }

  /** With enough workers, every maximal run ends with each task run exactly once and join returning. */
  lemma HaltedIsDone<T(!new)>(tasks: seq<T>, n: nat, raises: T -> bool, steps: seq<Step<T>>)
    requires EnoughWorkers(tasks, n, raises)
    requires IsRun(Start(tasks, n), steps, raises) && Closed(steps) && Halted(After(Start(tasks, n), steps, raises))
    ensures var p := After(Start(tasks, n), steps, raises);
            p.queue == [] && multiset(p.finished) == multiset(tasks) && JoinReturns(p)
  {
    StartOrderly(tasks, n, raises);
    RunOrderly(Start(tasks, n), steps, tasks, n, raises);
    HaltedOrderly(After(Start(tasks, n), steps, raises), tasks, n, raises);
  }

  lemma HaltedOrderly<T(!new)>(p: Pool<T>, tasks: seq<T>, n: nat, raises: T -> bool)
    requires Orderly(p, tasks, n, raises) && Halted(p) && EnoughWorkers(tasks, n, raises)
    ensures p.queue == [] && multiset(p.finished) == multiset(tasks) && JoinReturns(p)
  {
    HaltedWorkers(p);
    EndedCounts(p.workers, raises);
    if p.queue != [] {
      TakenBeforeLast(Taken(p, tasks), p.queue, raises);
    }
    forall x ensures multiset(p.finished)[x] == multiset(tasks)[x] {
      NoneBusy(p.workers, x);
    }
  }

  lemma TakenBeforeLast<T>(taken: seq<T>, queue: seq<T>, raises: T -> bool)
    requires queue != []
    ensures CountRaising(taken, raises) <= CountRaising(ButLast(taken + queue), raises)
  {
    assert ButLast(taken + queue) == taken + ButLast(queue);
    CountRaisingConcat(taken, ButLast(queue), raises);
  }

  lemma StartOrderly<T(!new)>(tasks: seq<T>, n: nat, raises: T -> bool)
    ensures Orderly(Start(tasks, n), tasks, n, raises)
  {
    StartConserves(tasks, n, raises);
    AllIdle(n, raises);
    assert Start(tasks, n).workers == Start([], n).workers;
    assert Taken(Start(tasks, n), tasks) == [] && tasks == [] + tasks;
  }

  lemma {:induction false} FindIdle<T>(ws: seq<Worker<T>>) returns (w: nat)
    requires CountIdle(ws) > 0
    ensures w < |ws| && ws[w] == Idle
  {
    if ws[0].Idle? {
      w := 0;
    } else {
      w := FindIdle(ws[1..]);
      w := w + 1;
    }
  }

  /** With all remaining workers idle or dead and enough raising tasks ahead of the last one, some run
      kills every worker before the queue is empty. */
  lemma {:induction false} StuckRun<T(!new)>(p: Pool<T>, raises: T -> bool) returns (steps: seq<Step<T>>)
    requires p.queue != [] && p.unfinished == |p.queue|
    requires forall w | 0 <= w < |p.workers| :: p.workers[w] == Idle || p.workers[w] == Dead
    requires CountIdle(p.workers) <= CountRaising(ButLast(p.queue), raises)
    ensures IsRun(p, steps, raises) && Closed(steps)
    ensures Halted(After(p, steps, raises)) && !JoinReturns(After(p, steps, raises))
    decreases |p.queue|
  {
    if CountIdle(p.workers) == 0 {
      NoneIdle(p.workers);
      return [];
    }
    var w := FindIdle(p.workers);
    var task := p.queue[0];
    var p1 := Do(p, Get(w), raises);
    var p2 := Do(p1, Finish(w), raises);
    UpdateCounts(p.workers, w, Busy(task));
    UpdateCounts(p1.workers, w, if raises(task) then Dead else Idle);
    assert |p.queue| >= 2;
    assert ButLast(p.queue) == [task] + ButLast(p.queue[1..]);
    steps := StuckRun(p2, raises);
    RunCons(p1, Finish(w), steps, raises);
    RunCons(p, Get(w), [Finish(w)] + steps, raises);
    steps := [Get(w)] + ([Finish(w)] + steps);
  }

  lemma RunCons<T>(p: Pool<T>, s: Step<T>, steps: seq<Step<T>>, raises: T -> bool)
    requires Enabled(p, s) && IsRun(Do(p, s, raises), steps, raises)
    ensures IsRun(p, [s] + steps, raises) && After(p, [s] + steps, raises) == After(Do(p, s, raises), steps, raises)
    ensures Puts([s] + steps) == (if s.Put? then [s.task] else []) + Puts(steps)
  {
    assert ([s] + steps)[1..] == steps;
  }

  lemma {:induction false} NoneIdle<T>(ws: seq<Worker<T>>)
    requires CountIdle(ws) == 0
    ensures forall w | 0 <= w < |ws| :: ws[w] != Idle
  {
    if ws != [] {
      NoneIdle(ws[1..]);
    }
  }

  /** With every task queued before the start, join returns in every maximal run exactly when fewer tasks
      than workers raise, the last task not counted. */
  lemma JoinExact<T(!new)>(tasks: seq<T>, n: nat, raises: T -> bool)
    ensures (forall steps: seq<Step<T>> |
               IsRun(Start(tasks, n), steps, raises) && Closed(steps) && Halted(After(Start(tasks, n), steps, raises)) ::
               JoinReturns(After(Start(tasks, n), steps, raises)))
            <==> EnoughWorkers(tasks, n, raises)
  {
    if EnoughWorkers(tasks, n, raises) {
      forall steps: seq<Step<T>> |
        IsRun(Start(tasks, n), steps, raises) && Closed(steps) && Halted(After(Start(tasks, n), steps, raises))
        ensures JoinReturns(After(Start(tasks, n), steps, raises))
      {
        HaltedIsDone(tasks, n, raises, steps);
      }
    } else {
      AllIdle(n, raises);
      assert Start(tasks, n).workers == Start([], n).workers;
      var steps := StuckRun(Start(tasks, n), raises);
    }
  }

  /** Whatever the targets do, a run can always be continued until it halts. */
  lemma {:induction false} RunsHalt<T(!new)>(p: Pool<T>, raises: T -> bool) returns (steps: seq<Step<T>>)
    ensures IsRun(p, steps, raises) && Closed(steps) && Halted(After(p, steps, raises))
    decreases Measure(p)
  {
    if Halted(p) {
      return [];
    }
    var s: Step<T> :| !s.Put? && Enabled(p, s);
    StepDecreases(p, s, raises);
    steps := RunsHalt(Do(p, s, raises), raises);
    RunCons(p, s, steps, raises);
    steps := [s] + steps;
  }

  // ----- tasks added after the start -----

  /** The tasks added in a run, in order. */
  function Puts<T(==)>(steps: seq<Step<T>>): seq<T> {
    if steps == [] then [] else (if steps[0].Put? then [steps[0].task] else []) + Puts(steps[1..])
  }

  lemma {:induction false} ClosedPuts<T>(steps: seq<Step<T>>)
    ensures Closed(steps) <==> Puts(steps) == []
  {
    if steps != [] {
      ClosedPuts(steps[1..]);
      assert steps == [steps[0]] + steps[1..];
    }
  }

  /** A halted pool stays halted when tasks are added: nobody takes them, and they stay counted. */
  lemma {:induction false} AddLate<T(!new)>(p: Pool<T>, late: seq<T>, raises: T -> bool) returns (steps: seq<Step<T>>)
    requires Halted(p)
    ensures IsRun(p, steps, raises) && Puts(steps) == late
    ensures Halted(After(p, steps, raises)) && After(p, steps, raises).unfinished == p.unfinished + |late|
    decreases |late|
  {
    steps := [];
    if late != [] {
      var q := Do(p, Put(late[0]), raises);
      HaltedWorkers(p);
      steps := AddLate(q, late[1..], raises);
      RunCons(p, Put(late[0]), steps, raises);
      steps := [Put(late[0])] + steps;
    }
  }

  /** A run that adds the late tasks when no worker moves any more. */
  lemma {:induction false} HaltThenAdd<T(!new)>(p: Pool<T>, late: seq<T>, raises: T -> bool, added: multiset<T>)
    returns (steps: seq<Step<T>>)
    requires Conserves(p, added)
    ensures IsRun(p, steps, raises) && Puts(steps) == late
    ensures Halted(After(p, steps, raises)) && After(p, steps, raises).unfinished >= |late|
    decreases Measure(p)
  {
    if Halted(p) {
      steps := AddLate(p, late, raises);
    } else {
      var s: Step<T> :| !s.Put? && Enabled(p, s);
      StepDecreases(p, s, raises);
      StepConserves(p, s, raises, added);
      steps := HaltThenAdd(Do(p, s, raises), late, raises, added + AddedBy(s));
      RunCons(p, s, steps, raises);
      assert [] + late == late;
      steps := [s] + steps;
    }
  }

  /** Whatever is queued before the start, tasks added afterwards may come when all workers have left or
      died: nobody takes them, and join blocks. */
  lemma LateTaskHangs<T(!new)>(tasks: seq<T>, n: nat, late: seq<T>, raises: T -> bool) returns (steps: seq<Step<T>>)
    requires late != []
    ensures IsRun(Start(tasks, n), steps, raises) && Puts(steps) == late
    ensures Halted(After(Start(tasks, n), steps, raises)) && !JoinReturns(After(Start(tasks, n), steps, raises))
  {
    StartConserves(tasks, n, raises);
    steps := HaltThenAdd(Start(tasks, n), late, raises, multiset(tasks));
  }

  /** With `tasks` queued before the start and `late` added after it, join returns in every maximal run
      exactly when nothing is added late and there are enough workers. */
  lemma LateJoinExact<T(!new)>(tasks: seq<T>, n: nat, late: seq<T>, raises: T -> bool)
    ensures (forall steps: seq<Step<T>> |
               IsRun(Start(tasks, n), steps, raises) && Puts(steps) == late && Halted(After(Start(tasks, n), steps, raises)) ::
               JoinReturns(After(Start(tasks, n), steps, raises)))
            <==> late == [] && EnoughWorkers(tasks, n, raises)
  {
    if late != [] {
      var steps := LateTaskHangs(tasks, n, late, raises);
    } else {
      forall steps: seq<Step<T>> ensures Closed(steps) <==> Puts(steps) == late {
        ClosedPuts(steps);
      }
      JoinExact(tasks, n, raises);
    }
  }
}
