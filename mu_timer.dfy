// mu_timer: a one-shot or periodic timer built on a task of its own that
// the scheduler defers until the timer's deadline.

module MuTimer {
  import opened Common
  import opened MuTime
  import opened MuTask
  import opened MuSched

  /** mu_timer_state_t */
  datatype TimerState = Idle | Running | Error

  /** The identity of mu_timer_fn, the function of every timer's task. */
  const TIMER_FN: FnId := 1

  /** MU_TIMER_STATE_IDLE as the embedded task's initial state. */
  const TIMER_TASK_IDLE: State := 0

  /** The deferred list after mu_timer_stop: the timer's entries go only if it was running. */
  ghost function AfterStop(l: seq<DeferredTask>, state: TimerState, task: Task): seq<DeferredTask>
  {
    if state == Running then RemoveTask(l, task) else l
  }

  /** The deferred list after re-arming at `at` (unchanged when the list is full). */
  ghost function AfterDefer(l: seq<DeferredTask>, at: Abs, task: Task): seq<DeferredTask>
  {
    if |l| == MAX_DEFERRED_TASKS then l else InsertDeferred(l, DeferredTask(at, task))
  }

  class Timer {
    /** The timer task object embedded in the timer. */
    const task: Task
    var state: TimerState
    var onCompletion: Task?
    var delayTics: Rel
    var delayUntil: Abs
    var periodic: bool

    /** Storage for a timer; its state is whatever the storage held. */
    constructor (initial: TimerState)
      ensures fresh(task) && state == initial && onCompletion == null
    {
      task := new Task();
      state := initial;
      onCompletion := null;
      delayTics := 0;
      delayUntil := 0;
      periodic := false;
    }

    /** mu_timer_init: initialises only the embedded task; the timer's own state is left as it was. */
    method Init()
      modifies task
      ensures task.fn == TIMER_FN && task.state == TIMER_TASK_IDLE && task.userInfo == NULL
    {
      var t := task.Init(TIMER_FN, TIMER_TASK_IDLE, NULL);
    }

    predicate IsRunning()
      reads this
    {
      state == Running
    }

    predicate IsStopped()
      reads this
    {
      state != Running
    }

    /**
     * mu_timer_stop: cancels the deferred entry only when running, never
     * calls on_completion, and always ends IDLE, whatever the state was.
     */
    method Stop(sched: Sched)
      requires sched.Valid()
      modifies this, sched, sched.deferredTasks
      ensures sched.Valid() && state == Idle && IsStopped() && !IsRunning()
      ensures onCompletion == old(onCompletion) && delayTics == old(delayTics)
      ensures delayUntil == old(delayUntil) && periodic == old(periodic)
      ensures sched.Deferred() == AfterStop(old(sched.Deferred()), old(state), task)
      ensures old(state) != Running ==> sched.Deferred() == old(sched.Deferred())
      ensures sched.IrqQueue() == old(sched.IrqQueue()) && sched.AsapQueue() == old(sched.AsapQueue())
      ensures sched.clock == old(sched.clock) && sched.currTask == old(sched.currTask)
      ensures sched.idleTask == old(sched.idleTask)
    {
      if state == Running {
        var err := sched.RemoveDeferredTask(task);
      }
      state := Idle;
    }

    /**
     * mu_timer_start: stops the timer, then sets the deadline delay_tics
     * after the clock's current time, marks it RUNNING and defers its task
     * until the deadline.
     */
    method Start(sched: Sched, delay: Rel, isPeriodic: bool, completion: Task?)
      requires sched.Valid()
      modifies this, sched, sched.deferredTasks
      ensures sched.Valid()
      ensures state == Running && IsRunning()
      ensures delayTics == delay && delayUntil == Offset(old(sched.clock), delay)
      ensures periodic == isPeriodic && onCompletion == completion
      ensures sched.Deferred() == AfterDefer(AfterStop(old(sched.Deferred()), old(state), task), delayUntil, task)
      ensures sched.IrqQueue() == old(sched.IrqQueue()) && sched.AsapQueue() == old(sched.AsapQueue())
      ensures sched.clock == old(sched.clock) && sched.currTask == old(sched.currTask)
      ensures sched.idleTask == old(sched.idleTask)
    {
      Stop(sched);
      ghost var stopped := sched.Deferred();
      assert stopped == AfterStop(old(sched.Deferred()), old(state), task);
      var now := sched.CurrentTime();
      delayTics := delay;
      delayUntil := Offset(now, delayTics);
      periodic := isPeriodic;
      state := Running;
      onCompletion := completion;
      assert sched.Deferred() == stopped;
      var err := sched.DeferUntil(task, delayUntil);
    }

    /**
     * mu_timer_fn, run when the scheduler invokes the timer's task.  IDLE and
     * ERROR do nothing.  RUNNING and periodic re-arms at the previous deadline
     * plus delay_tics (not "now" plus it); RUNNING one-shot goes IDLE.  Either
     * way on_completion is then called once.  `current` is the task the
     * scheduler is running.
     */
    method Expire(hooks: Hooks, sched: Sched, ghost current: Task?)
      requires sched.Valid()
      modifies this, sched, sched.deferredTasks, hooks
      ensures sched.Valid()
      ensures onCompletion == old(onCompletion) && delayTics == old(delayTics) && periodic == old(periodic)
      ensures hooks.callHook == old(hooks.callHook) && hooks.setStateHook == old(hooks.setStateHook)
      ensures sched.IrqQueue() == old(sched.IrqQueue()) && sched.AsapQueue() == old(sched.AsapQueue())
      ensures sched.clock == old(sched.clock) && sched.currTask == old(sched.currTask)
      ensures sched.idleTask == old(sched.idleTask)
      ensures old(state) != Running ==>
                state == old(state) && delayUntil == old(delayUntil)
                && sched.Deferred() == old(sched.Deferred()) && hooks.events == old(hooks.events)
      ensures old(state) == Running && periodic ==>
                state == Running && delayUntil == Offset(old(delayUntil), delayTics)
                && sched.Deferred() == AfterDefer(old(sched.Deferred()), delayUntil, task)
      ensures old(state) == Running && !periodic ==>
                state == Idle && delayUntil == old(delayUntil) && sched.Deferred() == old(sched.Deferred())
      ensures old(state) == Running ==>
                hooks.events == old(hooks.events)
                  + CallEvents(hooks.callHook, onCompletion, if onCompletion == null then 0 else onCompletion.fn, NULL, current)
    {
      match state {
        case Idle =>
        case Running =>
          if periodic {
            delayUntil := Offset(delayUntil, delayTics);
            var err := sched.DeferUntil(task, delayUntil);
          } else {
            state := Idle;
          }
          hooks.Call(onCompletion, NULL, current);
        case Error =>
      }
    }
  }
}
