/** `ThreadPool`: a fixed set of workers and the policy that picks the one a
    new task is appended to. Selection reads the workers' task counts; the
    counts are `size_t` values compared against a start value of 2^32 - 1. */
module ThreadPool {
  import opened Bytes
  import opened WorkerQueue

  /** The pool size used when the constructor is asked for zero threads. */
  const DefaultThreads := 4

  /** The start value of `minTasks` in `getFreeWorker`: `UINT32_MAX`. */
  const NoMin := 0xFFFF_FFFF

  datatype Pool<T> = Pool(workers: seq<Worker<T>>)

  ghost predicate Valid<T>(p: Pool<T>)
  {
    forall i | 0 <= i < |p.workers| :: WorkerQueue.Valid(p.workers[i])
  }

  /** The constructor: `threads` fresh workers (four by default), or four
      when `threads` is zero. */
  function NewPool<T>(threads: nat := 4): (p: Pool<T>)
    ensures Valid(p)
    ensures threads == 0 ==> |p.workers| == DefaultThreads
    ensures threads > 0 ==> |p.workers| == threads
    ensures forall i | 0 <= i < |p.workers| :: p.workers[i] == NewWorker()
  {
    var n := if threads == 0 then DefaultThreads else threads;
    Pool(seq(n, _ => NewWorker()))
  }

  /** Each worker's `getTaskCount()`, in pool order. */
  function Counts<T>(p: Pool<T>): (c: seq<nat>)
    ensures |c| == |p.workers|
    ensures forall i | 0 <= i < |c| :: c[i] == TaskCount(p.workers[i])
  {
    seq(|p.workers|, i requires 0 <= i < |p.workers| => TaskCount(p.workers[i]))
  }

  /** Worker `i` is the one the selection policy must pick: the first empty
      worker; or, when none is empty, the first one with the fewest tasks,
      provided that number is below the start value of `minTasks`. */
  ghost predicate Chosen(c: seq<nat>, i: int)
  {
    && 0 <= i < |c|
    && ( || (c[i] == 0 && forall j | 0 <= j < i :: c[j] != 0)
         || ( && (forall j | 0 <= j < |c| :: c[j] != 0)
              && c[i] < NoMin
              && (forall j | 0 <= j < |c| :: c[i] <= c[j])
              && (forall j | 0 <= j < i :: c[i] < c[j]) ) )
  }

  /** The loop of `getFreeWorker` from position `i` on, with the smallest
      count seen so far and the worker that had it. */
  function Scan(c: seq<nat>, i: nat, minTasks: nat, chosen: Option<nat>): Option<nat>
    requires i <= |c|
    decreases |c| - i
  {
    if i == |c| then chosen
    else if c[i] == 0 then Some(i)
    else if minTasks > c[i] then Scan(c, i + 1, c[i], Some(i))
    else Scan(c, i + 1, minTasks, chosen)
  }

  /** What the loop knows after looking at the first `i` counts. */
  ghost predicate ScanInvariant(c: seq<nat>, i: nat, minTasks: nat, chosen: Option<nat>)
  {
    && i <= |c|
    && (forall j | 0 <= j < i :: c[j] != 0)
    && (chosen.None? ==> minTasks == NoMin && forall j | 0 <= j < i :: c[j] >= NoMin)
    && (chosen.Some? ==>
          && chosen.value < i && minTasks == c[chosen.value] && minTasks < NoMin
          && (forall j | 0 <= j < i :: minTasks <= c[j])
          && (forall j | 0 <= j < chosen.value :: minTasks < c[j]))
  }

  lemma {:induction false} ScanChoice(c: seq<nat>, i: nat, minTasks: nat, chosen: Option<nat>)
    requires ScanInvariant(c, i, minTasks, chosen)
    decreases |c| - i
    ensures Scan(c, i, minTasks, chosen).Some? ==> Chosen(c, Scan(c, i, minTasks, chosen).value)
    ensures Scan(c, i, minTasks, chosen).None? <==> forall j | 0 <= j < |c| :: c[j] >= NoMin
  {
    if i == |c| {
    } else if c[i] == 0 {
    } else if minTasks > c[i] {
      ScanChoice(c, i + 1, c[i], Some(i));
    } else {
      ScanChoice(c, i + 1, minTasks, chosen);
    }
  }

  /** `getFreeWorker()`: the index of the chosen worker, or `None` for the
      null pointer it returns when no count is below `UINT32_MAX`. */
  function FreeWorker(c: seq<nat>): (r: Option<nat>)
    ensures r.Some? ==> Chosen(c, r.value)
    ensures r.None? <==> forall j | 0 <= j < |c| :: c[j] >= NoMin
  {
    ScanChoice(c, 0, NoMin, None);
    Scan(c, 0, NoMin, None)
  }

  /** At most one worker satisfies the policy, so it fixes the choice. */
  lemma ChosenUnique(c: seq<nat>, i: int, j: int)
    requires Chosen(c, i) && Chosen(c, j)
    ensures i == j
  {
  }

  /** Some worker of the pool has fewer than `UINT32_MAX` tasks, so the
      selection finds one: `runAsync` never dereferences a null worker. */
  ghost predicate Selectable<T>(p: Pool<T>)
  {
    exists i | 0 <= i < |p.workers| :: TaskCount(p.workers[i]) < NoMin
  }

  /** `runAsync(fn, args…)`: the task goes to the back of the chosen
      worker's queue; every other worker stays as it was. */
  function RunAsync<T>(p: Pool<T>, t: T): (r: Pool<T>)
    requires Valid(p) && Selectable(p)
    ensures Valid(r) && |r.workers| == |p.workers|
    ensures FreeWorker(Counts(p)).Some?
    ensures var k := FreeWorker(Counts(p)).value;
      && k < |p.workers|
      && r.workers[k].queue == p.workers[k].queue + [t]
      && forall i | 0 <= i < |p.workers| && i != k :: r.workers[i] == p.workers[i]
  {
    var c := Counts(p);
    assert FreeWorker(c).Some? by {
      var i :| 0 <= i < |p.workers| && TaskCount(p.workers[i]) < NoMin;
      assert c[i] < NoMin;
    }
    var k := FreeWorker(c).value;
    Pool(p.workers[k := Append(p.workers[k], t)])
  }

  /** `IsEmpty()`: the workers checked in order, stopping at the first busy one. */
  function AllEmpty<T>(ws: seq<Worker<T>>): (r: bool)
    ensures r <==> forall i | 0 <= i < |ws| :: WorkerQueue.IsEmpty(ws[i])
  {
    if |ws| == 0 then true
    else if !WorkerQueue.IsEmpty(ws[0]) then false
    else
      var rest := AllEmpty(ws[1..]);
      assert rest <==> forall i | 1 <= i < |ws| :: WorkerQueue.IsEmpty(ws[i]) by {
        forall i | 1 <= i < |ws| ensures ws[1..][i - 1] == ws[i] { }
      }
      rest
  }

  /** `IsEmpty()`: no worker has a task. */
  function IsEmpty<T>(p: Pool<T>): (b: bool)
    ensures b <==> forall i | 0 <= i < |p.workers| :: TaskCount(p.workers[i]) == 0
  {
    AllEmpty(p.workers)
  }

  /** A new pool is empty, and a pool that was just given a task is not. */
  lemma EmptyAfterNewNotAfterRun<T>(threads: nat, p: Pool<T>, t: T)
    requires Valid(p) && Selectable(p)
    ensures IsEmpty(NewPool<T>(threads))
    ensures !IsEmpty(RunAsync(p, t))
  {
    var k := FreeWorker(Counts(p)).value;
    assert !WorkerQueue.IsEmpty(RunAsync(p, t).workers[k]);
  }

  /** The counts after `runAsync`: the chosen worker has one task more. */
  lemma CountsAfterRun<T>(p: Pool<T>, t: T)
    requires Valid(p) && Selectable(p)
    ensures var k := FreeWorker(Counts(p)).value;
      Counts(RunAsync(p, t)) == Counts(p)[k := Counts(p)[k] + 1]
  {
  }

  /** No two counts differ by more than one. */
  ghost predicate Balanced(c: seq<nat>)
  {
    forall i, j | 0 <= i < |c| && 0 <= j < |c| :: c[i] <= c[j] + 1
  }

  /** The shape the counts keep while tasks arrive and none finish: the
      first `m` workers hold `k + 1` tasks and the rest hold `k`. */
  ghost predicate Staircase(c: seq<nat>, m: nat, k: nat)
  {
    m < |c| && forall i | 0 <= i < |c| :: c[i] == if i < m then k + 1 else k
  }

  /** On a staircase the policy picks the first worker of the lower step. */
  lemma StaircaseChoice(c: seq<nat>, m: nat, k: nat)
    requires Staircase(c, m, k) && k < NoMin
    ensures FreeWorker(c) == Some(m)
  {
    assert c[m] == k;
    assert Chosen(c, m);
    ChosenUnique(c, m, FreeWorker(c).value);
  }

  /** The tasks `ts` handed to `runAsync` one after another, none finishing meanwhile. */
  function Submit<T>(p: Pool<T>, ts: seq<T>): (r: Pool<T>)
    requires Valid(p) && |p.workers| > 0
    requires forall i | 0 <= i < |p.workers| :: TaskCount(p.workers[i]) + |ts| <= NoMin
    ensures Valid(r) && |r.workers| == |p.workers|
    ensures forall i | 0 <= i < |p.workers| ::
              && p.workers[i].queue <= r.workers[i].queue
              && r.workers[i].phase == p.workers[i].phase
    decreases |ts|
  {
    if |ts| == 0 then p
    else
      assert TaskCount(p.workers[0]) < NoMin;
      var q := RunAsync(p, ts[0]);
      assert forall i | 0 <= i < |q.workers| :: TaskCount(q.workers[i]) + |ts[1..]| <= NoMin by {
        CountsAfterRun(p, ts[0]);
      }
      Submit(q, ts[1..])
  }

  /** Handing tasks to a pool whose counts form a staircase keeps a staircase. */
  lemma {:induction false} SubmitStaircase<T>(p: Pool<T>, ts: seq<T>, m: nat, k: nat)
    returns (m': nat, k': nat)
    requires Valid(p) && Staircase(Counts(p), m, k) && k + |ts| < NoMin
    requires forall i | 0 <= i < |p.workers| :: TaskCount(p.workers[i]) + |ts| <= NoMin
    decreases |ts|
    ensures Staircase(Counts(Submit(p, ts)), m', k')
  {
    if |ts| == 0 {
      return m, k;
    }
    var c := Counts(p);
    assert c[m] < NoMin;
    var q := RunAsync(p, ts[0]);
    StaircaseChoice(c, m, k);
    CountsAfterRun(p, ts[0]);
    var c' := Counts(q);
    assert c' == c[m := k + 1];
    var m1: nat, k1: nat := if m + 1 < |c| then m + 1 else 0, if m + 1 < |c| then k else k + 1;
    assert Staircase(c', m1, k1);
    assert Submit(p, ts) == Submit(q, ts[1..]);
    m', k' := SubmitStaircase(q, ts[1..], m1, k1);
  }

  /** From a new pool, tasks handed out with none finishing leave the
      workers' counts within one of each other. */
  lemma SubmitBalanced<T>(threads: nat, ts: seq<T>)
    requires |ts| < NoMin
    ensures Balanced(Counts(Submit(NewPool<T>(threads), ts)))
  {
    var p := NewPool<T>(threads);
    NewPoolStaircase<T>(threads);
    var m, k := SubmitStaircase(p, ts, 0, 0);
    StaircaseBalanced(Counts(Submit(p, ts)), m, k);
  }

  lemma NewPoolStaircase<T>(threads: nat)
    ensures Staircase(Counts(NewPool<T>(threads)), 0, 0)
    ensures forall i | 0 <= i < |NewPool<T>(threads).workers| :: TaskCount(NewPool<T>(threads).workers[i]) == 0
  {
  }

  /** A staircase is balanced. */
  lemma StaircaseBalanced(c: seq<nat>, m: nat, k: nat)
    requires Staircase(c, m, k)
    ensures Balanced(c)
  {
  }
}
