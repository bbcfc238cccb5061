// The half of mu_task.c that hands tasks to the scheduler.  mu_task.c and
// mu_sched.c include each other; Dafny modules may not import each other,
// so these operations sit in a module above both.

module MuTaskSched {
  import opened MuTime
  import opened MuTask
  import opened MuSched

  /** mu_task_current_task: the scheduler's current task. */
  function CurrentTask(sched: Sched): Task?
    reads sched
  {
    sched.CurrentTask()
  }

  /** mu_task_wait: sets the state, schedules nothing, always NONE. */
  method Wait(hooks: Hooks, task: Task, s: State) returns (err: TaskErr)
    modifies hooks, task
    ensures err == ErrNone
    ensures task.state == s && task.fn == old(task.fn) && task.userInfo == old(task.userInfo)
    ensures hooks.callHook == old(hooks.callHook) && hooks.setStateHook == old(hooks.setStateHook)
    ensures hooks.events == old(hooks.events) + StateEvents(hooks.setStateHook, task, old(task.state), s)
  {
    hooks.SetState(task, s);
    err := ErrNone;
  }

  /** mu_task_yield: sets the state first, then asks for an ASAP run; the state changes even if that fails. */
  method Yield(hooks: Hooks, sched: Sched, task: Task, s: State) returns (err: TaskErr)
    requires sched.Valid()
    modifies hooks, task, sched.asapTasks, sched.nowStore
    ensures sched.Valid()
    ensures task.state == s && task.fn == old(task.fn) && task.userInfo == old(task.userInfo)
    ensures hooks.callHook == old(hooks.callHook) && hooks.setStateHook == old(hooks.setStateHook)
    ensures hooks.events == old(hooks.events) + StateEvents(hooks.setStateHook, task, old(task.state), s)
    ensures err == ErrSchedFull <==> |old(sched.AsapQueue())| == MAX_ASAP_TASKS
    ensures err != ErrSchedFull ==> err == ErrNone && sched.AsapQueue() == old(sched.AsapQueue()) + [task]
    ensures err == ErrSchedFull ==> sched.AsapQueue() == old(sched.AsapQueue())
    ensures sched.IrqQueue() == old(sched.IrqQueue()) && sched.Deferred() == old(sched.Deferred())
  {
    hooks.SetState(task, s);
    err := sched.Asap(hooks, task);
  }

  /** mu_task_sched_from_isr */
  method SchedFromIsr(sched: Sched, task: Task) returns (err: TaskErr)
    requires sched.Valid()
    modifies sched.irqTasks
    ensures sched.Valid()
    ensures err == ErrSchedFull <==> |old(sched.IrqQueue())| == MAX_IRQ_TASKS - 1
    ensures err != ErrSchedFull ==> err == ErrNone && sched.IrqQueue() == old(sched.IrqQueue()) + [task]
    ensures err == ErrSchedFull ==> sched.IrqQueue() == old(sched.IrqQueue())
    ensures sched.AsapQueue() == old(sched.AsapQueue()) && sched.Deferred() == old(sched.Deferred())
  {
    err := sched.FromIsr(task);
  }

  /** mu_task_defer_for: sets the state first, then defers by `dt` from now. */
  method DeferFor(hooks: Hooks, sched: Sched, task: Task, s: State, dt: Rel) returns (err: TaskErr)
    requires sched.Valid()
    modifies hooks, task, sched, sched.deferredTasks
    ensures sched.Valid() && sched.clock == old(sched.clock)
    ensures sched.currTask == old(sched.currTask) && sched.idleTask == old(sched.idleTask)
    ensures task.state == s && task.fn == old(task.fn) && task.userInfo == old(task.userInfo)
    ensures hooks.callHook == old(hooks.callHook) && hooks.setStateHook == old(hooks.setStateHook)
    ensures hooks.events == old(hooks.events) + StateEvents(hooks.setStateHook, task, old(task.state), s)
    ensures err == ErrSchedFull <==> |old(sched.Deferred())| == MAX_DEFERRED_TASKS
    ensures err != ErrSchedFull ==>
              err == ErrNone &&
              sched.Deferred() == InsertDeferred(old(sched.Deferred()), DeferredTask(Offset(sched.clock, dt), task))
    ensures err == ErrSchedFull ==> sched.Deferred() == old(sched.Deferred())
    ensures sched.IrqQueue() == old(sched.IrqQueue()) && sched.AsapQueue() == old(sched.AsapQueue())
  {
    hooks.SetState(task, s);
    err := sched.DeferFor(task, dt);
  }

  /** mu_task_defer_until: sets the state first, then defers until `at`. */
  method DeferUntil(hooks: Hooks, sched: Sched, task: Task, s: State, at: Abs) returns (err: TaskErr)
    requires sched.Valid()
    modifies hooks, task, sched, sched.deferredTasks
    ensures sched.Valid() && sched.clock == old(sched.clock)
    ensures sched.currTask == old(sched.currTask) && sched.idleTask == old(sched.idleTask)
    ensures task.state == s && task.fn == old(task.fn) && task.userInfo == old(task.userInfo)
    ensures hooks.callHook == old(hooks.callHook) && hooks.setStateHook == old(hooks.setStateHook)
    ensures hooks.events == old(hooks.events) + StateEvents(hooks.setStateHook, task, old(task.state), s)
    ensures err == ErrSchedFull <==> |old(sched.Deferred())| == MAX_DEFERRED_TASKS
    ensures err != ErrSchedFull ==>
              err == ErrNone && sched.Deferred() == InsertDeferred(old(sched.Deferred()), DeferredTask(at, task))
    ensures err == ErrSchedFull ==> sched.Deferred() == old(sched.Deferred())
    ensures sched.IrqQueue() == old(sched.IrqQueue()) && sched.AsapQueue() == old(sched.AsapQueue())
  {
    hooks.SetState(task, s);
    err := sched.DeferUntil(task, at);
  }

  /** mu_task_remove_deferred_task */
  method RemoveDeferredTask(sched: Sched, task: Task) returns (err: TaskErr)
    requires sched.Valid()
    modifies sched, sched.deferredTasks
    ensures sched.Valid()
    ensures sched.Deferred() == RemoveTask(old(sched.Deferred()), task)
    ensures err == (if HasTask(old(sched.Deferred()), task) then ErrNone else ErrNotFound)
    ensures sched.IrqQueue() == old(sched.IrqQueue()) && sched.AsapQueue() == old(sched.AsapQueue())
  {
    err := sched.RemoveDeferredTask(task);
  }

  /**
   * mu_task_transfer: `from` takes its final state and `to` is put on the
   * ASAP queue; `to`'s own state is not touched.
   */
  method Transfer(hooks: Hooks, sched: Sched, from: Task, s: State, to: Task) returns (err: TaskErr)
    requires sched.Valid()
    modifies hooks, from, sched.asapTasks, sched.nowStore
    ensures sched.Valid()
    ensures from.state == s && from.fn == old(from.fn) && from.userInfo == old(from.userInfo)
    ensures to != from ==> to.state == old(to.state)
    ensures hooks.callHook == old(hooks.callHook) && hooks.setStateHook == old(hooks.setStateHook)
    ensures hooks.events == old(hooks.events) + StateEvents(hooks.setStateHook, from, old(from.state), s)
    ensures err == ErrSchedFull <==> |old(sched.AsapQueue())| == MAX_ASAP_TASKS
    ensures err != ErrSchedFull ==> err == ErrNone && sched.AsapQueue() == old(sched.AsapQueue()) + [to]
    ensures err == ErrSchedFull ==> sched.AsapQueue() == old(sched.AsapQueue())
    ensures sched.IrqQueue() == old(sched.IrqQueue()) && sched.Deferred() == old(sched.Deferred())
  {
    hooks.SetState(from, s);
    err := sched.Asap(hooks, to);
  }

  /** On a freshly initialised scheduler removing a task finds nothing (test_mu_task.c). */
  method RemoveFromFreshScheduler(task: Task) returns (err: TaskErr)
    ensures err == ErrNotFound
  {
    var sched := new Sched(0);
    err := RemoveDeferredTask(sched, task);
  }
}
