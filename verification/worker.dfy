/** `Worker`: a FIFO of tasks drained by one thread. The thread is a
    sequential state machine here: each `Step` is the next thing it does,
    and a task "runs" as the step that starts it and is popped by the step
    that finishes it. Locks and the condition variable are not modelled. */
module WorkerQueue {
  /** Where the worker's thread is: at the `while (enabled)` test, blocked
      in `cv.wait`, running the task at the front of the queue, or gone. */
  datatype Phase = Top | Waiting | Running | Stopped

  datatype Worker<T> = Worker(queue: seq<T>, enabled: bool, phase: Phase)

  /** While a task runs it is the front of the queue. */
  ghost predicate Valid<T>(w: Worker<T>)
  {
    w.phase == Running ==> |w.queue| > 0
  }

  /** The constructor: empty queue, enabled, its thread about to test `enabled`. */
  function NewWorker<T>(): (w: Worker<T>)
    ensures Valid(w) && IsEmpty(w) && w.enabled
  {
    Worker([], true, Top)
  }

  /** `getTaskCount()`: the queued tasks, the running one included. */
  function TaskCount<T>(w: Worker<T>): (n: nat)
    ensures n == 0 <==> w.queue == []
    ensures Valid(w) && w.phase == Running ==> n >= 1
  {
    |w.queue|
  }

  /** `isEmpty()`. */
  function IsEmpty<T>(w: Worker<T>): (b: bool)
    ensures b <==> TaskCount(w) == 0
    ensures Valid(w) && w.phase == Running ==> !b
  {
    w.queue == []
  }

  /** `appendFn(fn)`: the task goes to the back; nothing else changes. */
  function Append<T>(w: Worker<T>, t: T): (r: Worker<T>)
    requires Valid(w)
    ensures Valid(r)
    ensures TaskCount(r) == TaskCount(w) + 1
    ensures r.queue[..|w.queue|] == w.queue && r.queue[|w.queue|] == t
    ensures r.phase == w.phase && r.enabled == w.enabled
  {
    w.(queue := w.queue + [t])
  }

  /** The destructor's `enabled = false`. */
  function Disable<T>(w: Worker<T>): (r: Worker<T>)
    requires Valid(w)
    ensures Valid(r) && !r.enabled && r.queue == w.queue && r.phase == w.phase
  {
    w.(enabled := false)
  }

  /** What one step did: the task it started, or the task it finished and popped. */
  datatype Event<T> = Quiet | Started(task: T) | Finished(task: T)

  datatype Stepped<T> = Stepped(worker: Worker<T>, event: Event<T>)

  /** The thread's next action in `thread_fn`. */
  function Step<T>(w: Worker<T>): (r: Stepped<T>)
    requires Valid(w)
    ensures Valid(r.worker) && r.worker.enabled == w.enabled
    ensures r.event.Started? ==> |w.queue| > 0 && r.worker.queue == w.queue && r.event.task == w.queue[0]
    ensures r.event.Finished? ==>
              w.phase == Running && r.event.task == w.queue[0] && r.worker.queue == w.queue[1..]
    ensures r.event.Quiet? ==> r.worker.queue == w.queue
    ensures w.phase == Top ==>
              && r.event == Quiet && r.worker.queue == w.queue
              && r.worker.phase == (if w.enabled then Waiting else Stopped)
    ensures w.phase == Waiting && |w.queue| > 0 ==>
              && r.event == Started(w.queue[0]) && r.worker.phase == Running
              && r.worker.queue == w.queue
    ensures w.phase == Waiting && |w.queue| == 0 ==>
              && r.event == Quiet && r.worker.queue == []
              && r.worker.phase == (if w.enabled then Waiting else Top)
    ensures w.phase == Running ==>
              && r.event == Finished(w.queue[0])
              && r.worker.phase == (if |w.queue| > 1 then Running else Top)
    ensures w.phase == Stopped ==> r == Stepped(w, Quiet)
    ensures w.phase != Stopped ==> r.worker.phase != Stopped || (w.phase == Top && !w.enabled)
  {
    match w.phase
    case Top =>
      Stepped(w.(phase := if w.enabled then Waiting else Stopped), Quiet)
    case Waiting =>
      if |w.queue| > 0 then Stepped(w.(phase := Running), Started(w.queue[0]))
      else if !w.enabled then Stepped(w.(phase := Top), Quiet)
      else Stepped(w, Quiet)
    case Running =>
      var q := w.queue[1..];
      Stepped(w.(queue := q, phase := if |q| > 0 then Running else Top), Finished(w.queue[0]))
    case Stopped =>
      Stepped(w, Quiet)
  }

  /** The inner `while (!fqueue.empty())` loop run to its end with no task
      appended meanwhile: the tasks it finishes, in order, and the worker
      after it. It never looks at `enabled`. */
  function Drain<T>(w: Worker<T>): (r: (Worker<T>, seq<T>))
    requires Valid(w) && w.phase == Running
    ensures Valid(r.0) && |r.1| >= 1
    decreases |w.queue|
  {
    var s := Step(w);
    if s.worker.phase == Running then
      var (last, done) := Drain(s.worker);
      (last, [s.event.task] + done)
    else (s.worker, [s.event.task])
  }

  /** A drain runs every queued task once, front first, and leaves the
      queue empty with the thread back at the `while (enabled)` test. */
  lemma {:induction false} DrainFifo<T>(w: Worker<T>)
    requires Valid(w) && w.phase == Running
    decreases |w.queue|
    ensures Drain(w).1 == w.queue
    ensures Drain(w).0.queue == [] && Drain(w).0.phase == Top
    ensures Drain(w).0.enabled == w.enabled
  {
    var s := Step(w);
    if s.worker.phase == Running {
      DrainFifo(s.worker);
      assert w.queue == [w.queue[0]] + w.queue[1..];
    }
  }

  /** Disabling a worker in the middle of a drain does not cut it short. */
  lemma {:induction false} DrainIgnoresEnabled<T>(w: Worker<T>, e: bool)
    requires Valid(w) && w.phase == Running
    decreases |w.queue|
    ensures Drain(w.(enabled := e)).1 == Drain(w).1
    ensures Drain(w.(enabled := e)).0 == Drain(w).0.(enabled := e)
  {
    var s := Step(w);
    if s.worker.phase == Running {
      DrainIgnoresEnabled(s.worker, e);
      assert Step(w.(enabled := e)).worker == s.worker.(enabled := e);
    }
  }

  /** A worker disabled while its thread waits still runs every queued
      task, in order, before its thread ends. */
  lemma ShutdownDrains<T>(w: Worker<T>)
    requires Valid(w) && w.phase == Waiting && !w.enabled && |w.queue| > 0
    ensures var s := Step(w);
      && s.event == Started(w.queue[0]) && s.worker.phase == Running
      && Drain(s.worker).1 == w.queue
      && Step(Drain(s.worker).0).worker.phase == Stopped
  {
    DrainFifo(Step(w).worker);
  }

  /** A task appended while the thread stands at the `while (enabled)` test,
      with the worker disabled before the test, never runs: the thread ends
      with the task still queued. */
  lemma DisabledAtTopDropsTasks<T>(w: Worker<T>, t: T)
    requires Valid(w) && w.phase == Top && w.enabled
    ensures var s := Step(Disable(Append(w, t)));
      && s.worker.phase == Stopped && s.event == Quiet
      && t in s.worker.queue
      && Step(s.worker) == Stepped(s.worker, Quiet)
  {
    assert Append(w, t).queue[|w.queue|] == t;
  }

  /** The loop test as evidently intended, `while (enabled || !fqueue.empty())`:
      a disabled thread at the test leaves only once its queue is empty, and
      otherwise goes on to take the queued tasks. Every other step is `Step`. */
  function StepDraining<T>(w: Worker<T>): (r: Stepped<T>)
    requires Valid(w)
    ensures Valid(r.worker) && r.worker.enabled == w.enabled
    ensures w.phase == Top ==>
              && r.event == Quiet && r.worker.queue == w.queue
              && (r.worker.phase == Stopped <==> !w.enabled && w.queue == [])
              && (r.worker.phase != Stopped ==> r.worker.phase == Waiting)
    ensures w.phase != Top ==> r == Step(w)
  {
    if w.phase == Top && !w.enabled && |w.queue| > 0 then Stepped(w.(phase := Waiting), Quiet)
    else Step(w)
  }

  /** What happens to a worker from outside its thread's point of view: the
      thread takes a step, a task is appended, or the destructor runs. */
  datatype Action<T> = Tick | Push(task: T) | Shut

  /** One action; `draining` picks the corrected loop test for `Tick`. */
  function Apply<T>(w: Worker<T>, a: Action<T>, draining: bool): (r: Worker<T>)
    requires Valid(w)
    ensures Valid(r)
    ensures a.Push? ==> r.queue == w.queue + [a.task] && r.phase == w.phase
    ensures !a.Tick? ==> r.phase == w.phase
    ensures r.enabled == (w.enabled && !a.Shut?)
  {
    match a
    case Tick => (if draining then StepDraining(w) else Step(w)).worker
    case Push(t) => Append(w, t)
    case Shut => Disable(w)
  }

  /** A sequence of actions applied in order. */
  function Run<T>(w: Worker<T>, acts: seq<Action<T>>, draining: bool): (r: Worker<T>)
    requires Valid(w)
    ensures Valid(r)
    decreases |acts|
  {
    if |acts| == 0 then w else Run(Apply(w, acts[0], draining), acts[1..], draining)
  }

  /** Tasks are appended only to a live worker: while `enabled` holds and
      before the destructor has run. */
  ghost predicate Orderly<T>(enabled: bool, acts: seq<Action<T>>)
  {
    forall i | 0 <= i < |acts| && acts[i].Push? ::
      enabled && forall j | 0 <= j < i :: !acts[j].Shut?
  }

  /** A thread that has ended has been disabled and, when `drains`, left nothing queued. */
  ghost predicate Settled<T>(w: Worker<T>, drains: bool)
  {
    w.phase == Stopped ==> !w.enabled && (drains ==> w.queue == [])
  }

  /** With the corrected loop test a thread ends only with an empty queue,
      whatever the order in which steps, appends and the destructor come. */
  lemma {:induction false} DrainingStopsEmpty<T>(w: Worker<T>, acts: seq<Action<T>>)
    requires Valid(w) && Settled(w, true) && Orderly(w.enabled, acts)
    decreases |acts|
    ensures Settled(Run(w, acts, true), true)
  {
    if |acts| > 0 {
      var w' := Apply(w, acts[0], true);
      assert Settled(w', true);
      assert Orderly(w'.enabled, acts[1..]) by {
        forall i | 0 <= i < |acts[1..]| && acts[1..][i].Push?
          ensures w'.enabled && forall j | 0 <= j < i :: !acts[1..][j].Shut?
        {
          assert acts[i + 1] == acts[1..][i];
          assert forall j | 0 <= j < i :: acts[1..][j] == acts[j + 1];
        }
      }
      DrainingStopsEmpty(w', acts[1..]);
    }
  }

  /** A new worker under the corrected loop test never ends with a task queued. */
  lemma NewWorkerStopsEmpty<T>(acts: seq<Action<T>>)
    requires Orderly(true, acts)
    ensures var r := Run(NewWorker<T>(), acts, true);
      r.phase == Stopped ==> r.queue == []
  {
    DrainingStopsEmpty(NewWorker<T>(), acts);
  }

  /** A worker given one task and destroyed before its thread first tests
      `enabled`: as written the thread ends with the task never run; with
      the corrected test the thread goes on to start it. */
  lemma AsWrittenStopsWithTask<T>(t: T)
    ensures Orderly(true, [Push(t), Shut, Tick])
    ensures var r := Run(NewWorker<T>(), [Push(t), Shut, Tick], false);
      r.phase == Stopped && r.queue == [t]
    ensures var r := Run(NewWorker<T>(), [Push(t), Shut, Tick, Tick], true);
      r.phase == Running && r.queue == [t]
  {
    var w0 := NewWorker<T>();
    var w1 := Append(w0, t);
    var w2 := Disable(w1);
    assert w2.queue == [t] && w2.phase == Top;
    var a: seq<Action<T>> := [Push(t), Shut, Tick];
    assert a[1..] == [Shut, Tick] && a[1..][1..] == [Tick] && a[1..][1..][1..] == [];
    assert Run(w0, a, false) == Run(w1, a[1..], false);
    assert Run(w1, a[1..], false) == Run(w2, a[1..][1..], false);
    assert Run(w2, a[1..][1..], false) == Step(w2).worker;
    var w3 := StepDraining(w2).worker;
    assert w3.phase == Waiting && w3.queue == [t];
    var b: seq<Action<T>> := [Push(t), Shut, Tick, Tick];
    assert b[1..] == [Shut, Tick, Tick] && b[1..][1..] == [Tick, Tick];
    assert b[1..][1..][1..] == [Tick] && b[1..][1..][1..][1..] == [];
    assert Run(w0, b, true) == Run(w1, b[1..], true);
    assert Run(w1, b[1..], true) == Run(w2, b[1..][1..], true);
    assert Run(w2, b[1..][1..], true) == Run(w3, b[1..][1..][1..], true);
    assert Run(w3, b[1..][1..][1..], true) == StepDraining(w3).worker;
  }
}
