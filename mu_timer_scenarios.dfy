// The timer test sequences replayed against the model: a scheduler with
// a settable clock and no idle task, one timer, and a task whose
// invocations are counted through the trace.  When a step invokes the
// timer's task, the timer's function (Timer.Expire) runs next, as the
// task's function pointer would make it.

module MuTimerScenarios {
  import opened Common
  import opened MuTime
  import opened MuTask
  import opened MuSched
  import opened MuTimer

  /** One step of the scheduler followed by the timer's function when the timer's task was chosen. */
  method StepAndDispatch(hooks: Hooks, sched: Sched, timer: Timer) returns (ran: Task?)
    requires sched.Valid() && hooks.callHook.None?
    modifies hooks, sched, sched.irqTasks, sched.asapTasks, sched.deferredTasks, timer
    ensures sched.Valid() && sched.currTask == null && hooks.callHook.None? && hooks.setStateHook == old(hooks.setStateHook)
    ensures sched.clock == old(sched.clock) && sched.idleTask == old(sched.idleTask)
    ensures timer.onCompletion == old(timer.onCompletion) && timer.delayTics == old(timer.delayTics)
    ensures timer.periodic == old(timer.periodic)
    ensures old(sched.IrqQueue()) == [] ==>
              sched.IrqQueue() == [] && ran == NextLocal(old(sched.Deferred()), old(sched.AsapQueue()), sched.clock, sched.idleTask)
              && sched.AsapQueue() == AsapAfterStep(old(sched.Deferred()), old(sched.AsapQueue()), sched.clock)
    ensures ran != timer.task ==>
              timer.state == old(timer.state) && timer.delayUntil == old(timer.delayUntil)
              && hooks.events == old(hooks.events) + CallEvents(None, ran, if ran == null then 0 else ran.fn, NULL, ran)
              && (old(sched.IrqQueue()) == [] ==> sched.Deferred() == DeferredAfterStep(old(sched.Deferred()), sched.clock))
    ensures ran == timer.task && old(timer.state) == Running && !timer.periodic ==>
              timer.state == Idle
              && (old(sched.IrqQueue()) == [] ==> sched.Deferred() == DeferredAfterStep(old(sched.Deferred()), sched.clock))
    ensures ran == timer.task && old(timer.state) == Running && timer.periodic ==>
              timer.state == Running && timer.delayUntil == Offset(old(timer.delayUntil), timer.delayTics)
              && (old(sched.IrqQueue()) == [] ==>
                    sched.Deferred() == AfterDefer(DeferredAfterStep(old(sched.Deferred()), sched.clock), timer.delayUntil, timer.task))
    ensures ran == timer.task && old(timer.state) == Running ==>
              hooks.events == old(hooks.events)
                + CallEvents(None, ran, ran.fn, NULL, ran)
                + CallEvents(None, timer.onCompletion,
                             if timer.onCompletion == null then 0 else timer.onCompletion.fn, NULL, ran)
  {
    ran := sched.Step(hooks);
    if ran == timer.task {
      timer.Expire(hooks, sched, ran);
    }
  }

  /**
   * Where each timer test stands between steps: the scheduler empty but for
   * the timer's deferred entry at `due`, the clock at `now`, the timer
   * running with a delay of 5 and obj1 as its completion task.
   */
  ghost predicate Armed(hooks: Hooks, sched: Sched, timer: Timer, obj1: Task, now: Abs, due: Abs, isPeriodic: bool)
    reads hooks, sched, sched.irqTasks, sched.asapTasks, sched.deferredTasks, sched.nowStore, timer
  {
    sched.Valid() && hooks.callHook.None? && sched.currTask == null && sched.idleTask == null &&
    sched.clock == now && sched.IrqQueue() == [] && sched.AsapQueue() == [] &&
    sched.Deferred() == [DeferredTask(due, timer.task)] &&
    timer.state == Running && timer.onCompletion == obj1 && timer.periodic == isPeriodic &&
    timer.delayTics == 5 && timer.delayUntil == due && obj1 != timer.task
  }

  /** Where a test stands once nothing is left to run: every queue empty and the timer not running. */
  ghost predicate Drained(hooks: Hooks, sched: Sched, timer: Timer, now: Abs)
    reads hooks, sched, sched.irqTasks, sched.asapTasks, sched.deferredTasks, sched.nowStore, timer
  {
    sched.Valid() && hooks.callHook.None? && sched.currTask == null && sched.idleTask == null &&
    sched.clock == now && sched.IrqQueue() == [] && sched.AsapQueue() == [] && sched.Deferred() == [] &&
    timer.state != Running
  }

  /** The start of every timer test: a timer on obj1 started at time 0 with a delay of 5. */
  method Setup(initial: TimerState, isPeriodic: bool) returns (hooks: Hooks, sched: Sched, obj1: Task, timer: Timer)
    ensures fresh(hooks) && fresh(sched) && fresh(timer)
    ensures fresh(sched.irqTasks) && fresh(sched.asapTasks) && fresh(sched.deferredTasks)
    ensures Armed(hooks, sched, timer, obj1, 0, 5, isPeriodic) && hooks.events == []
  {
    hooks := new Hooks();
    sched := new Sched(0);
    obj1 := new Task();
    timer := new Timer(initial);
    timer.Init();
    timer.Start(sched, 5, isPeriodic, obj1);
    assert sched.Deferred() == [DeferredTask(5, timer.task)];
  }

  /** The clock set to a time before the deadline: a step runs nothing and the timer stays armed. */
  method QuietStep(hooks: Hooks, sched: Sched, timer: Timer, obj1: Task, now: Abs, due: Abs, isPeriodic: bool)
    requires Armed(hooks, sched, timer, obj1, sched.clock, due, isPeriodic) && Precedes(now, due)
    modifies hooks, sched, sched.irqTasks, sched.asapTasks, sched.deferredTasks, timer
    ensures Armed(hooks, sched, timer, obj1, now, due, isPeriodic) && hooks.events == old(hooks.events)
  {
    sched.SetClock(now);
    var r := StepAndDispatch(hooks, sched, timer);
    assert r == null;
  }

  /**
   * The clock set to the deadline: a step runs the timer's task, which
   * calls obj1 once and either re-arms 5 ticks after the old deadline
   * (periodic) or leaves nothing to run (one-shot).
   */
  method ExpiryStep(hooks: Hooks, sched: Sched, timer: Timer, obj1: Task, due: Abs, isPeriodic: bool)
    requires Armed(hooks, sched, timer, obj1, sched.clock, due, isPeriodic)
    modifies hooks, sched, sched.irqTasks, sched.asapTasks, sched.deferredTasks, timer
    ensures Invocations(hooks.events, obj1) == old(Invocations(hooks.events, obj1)) + 1
    ensures isPeriodic ==> Armed(hooks, sched, timer, obj1, due, Offset(due, 5), true)
    ensures !isPeriodic ==> Drained(hooks, sched, timer, due)
  {
    sched.SetClock(due);
    ghost var before := hooks.events;
    var r := StepAndDispatch(hooks, sched, timer);
    assert r == timer.task;
    assert hooks.events == before + CallEvents(None, r, r.fn, NULL, r) + CallEvents(None, obj1, obj1.fn, NULL, r);
    CountCall(before, r, obj1, timer);
  }

  /** With nothing left to run, a step at any time runs nothing. */
  method IdleStep(hooks: Hooks, sched: Sched, timer: Timer, now: Abs)
    requires Drained(hooks, sched, timer, sched.clock)
    modifies hooks, sched, sched.irqTasks, sched.asapTasks, sched.deferredTasks, timer
    ensures Drained(hooks, sched, timer, now) && hooks.events == old(hooks.events)
  {
    sched.SetClock(now);
    var r := StepAndDispatch(hooks, sched, timer);
    assert r == null;
  }

  /** test_mu_timer.c, one-shot: nothing at time 4, one completion at 5, none more at 10. */
  method OneShot(initial: TimerState) returns (ghost counts: seq<nat>)
    ensures counts == [0, 1, 1]
  {
    var hooks, sched, obj1, timer := Setup(initial, false);
    QuietStep(hooks, sched, timer, obj1, 4, 5, false);
    ghost var c4 := Invocations(hooks.events, obj1);
    ExpiryStep(hooks, sched, timer, obj1, 5, false);
    ghost var c5 := Invocations(hooks.events, obj1);
    IdleStep(hooks, sched, timer, 10);
    ghost var c10 := Invocations(hooks.events, obj1);
    counts := [c4, c5, c10];
  }

  /** test_mu_timer.c, periodic: completions at 5 and again at 10, the second deadline being 5 + 5. */
  method Periodic(initial: TimerState) returns (ghost counts: seq<nat>)
    ensures counts == [0, 1, 2]
  {
    var hooks, sched, obj1, timer := Setup(initial, true);
    QuietStep(hooks, sched, timer, obj1, 4, 5, true);
    ghost var c4 := Invocations(hooks.events, obj1);
    ExpiryStep(hooks, sched, timer, obj1, 5, true);
    ghost var c5 := Invocations(hooks.events, obj1);
    assert Offset(5, 5) == 10;
    ExpiryStep(hooks, sched, timer, obj1, 10, true);
    ghost var c10 := Invocations(hooks.events, obj1);
    counts := [c4, c5, c10];
  }

  /** test_mu_timer.c, stop: a timer stopped before its deadline never completes. */
  method StopBeforeExpiry(initial: TimerState) returns (ghost count: nat, running: bool, stopped: bool)
    ensures count == 0 && !running && stopped
  {
    var hooks, sched, obj1, timer := Setup(initial, false);
    QuietStep(hooks, sched, timer, obj1, 4, 5, false);
    assert timer.IsRunning();
    timer.Stop(sched);
    running := timer.IsRunning();
    stopped := timer.IsStopped();
    assert sched.Deferred() == [];
    IdleStep(hooks, sched, timer, 5);
    count := Invocations(hooks.events, obj1);
  }

  /** The trace of one timer expiry invokes the completion task once. */
  lemma CountCall(before: seq<Event>, r: Task, obj1: Task, timer: Timer)
    requires r == timer.task && r != obj1
    ensures Invocations(before + CallEvents(None, r, r.fn, NULL, r) + CallEvents(None, obj1, obj1.fn, NULL, r), obj1)
         == Invocations(before, obj1) + 1
  {
    var a := CallEvents(None, r, r.fn, NULL, r);
    var b := CallEvents(None, obj1, obj1.fn, NULL, r);
    InvocationsAppend(before + a, b, obj1);
    InvocationsAppend(before, a, obj1);
    CallInvocations(None, r, r.fn, NULL, r, obj1);
    CallInvocations(None, obj1, obj1.fn, NULL, r, obj1);
  }
}
