// mu_task: a task is a function pointer with a state and a user pointer.
// The module's two global hooks (one called before every invocation, one
// called on every state change) live in a Hooks object together with a
// ghost trace of what was invoked, since the invoked functions themselves
// are outside the model.

module MuTask {
  import opened Common

  /** mu_task_state_t is an unsigned int. */
  type State = U32

  /** mu_task_err_t */
  datatype TaskErr = ErrNone | ErrSchedFull | ErrNotFound

  /** Identity of a task function; what the function does is not modelled. */
  type FnId = nat

  /** A `void *` passed through untouched; 0 stands for NULL. */
  type Pointer = nat

  const NULL: Pointer := 0

  /** Identity of an installed hook function. */
  type HookId = nat

  class Task {
    var fn: FnId
    var state: State
    var userInfo: Pointer

    /** A zero-filled mu_task_t, as static storage starts out. */
    constructor ()
      ensures fn == 0 && state == 0 && userInfo == NULL
    {
      fn := 0;
      state := 0;
      userInfo := NULL;
    }

    /** mu_task_init: stores all three fields and returns the same task. */
    method Init(f: FnId, initialState: State, info: Pointer) returns (t: Task)
      modifies this
      ensures t == this
      ensures fn == f && state == initialState && userInfo == info
    {
      fn := f;
      state := initialState;
      userInfo := info;
      t := this;
    }

    function GetFn(): FnId
      reads this
    {
      fn
    }

    function GetState(): State
      reads this
    {
      state
    }

    function GetUserInfo(): Pointer
      reads this
    {
      userInfo
    }

    /** mu_task_set_user_info: the next GetUserInfo returns the value given. */
    method SetUserInfo(info: Pointer)
      modifies this
      ensures GetUserInfo() == info
      ensures fn == old(fn) && state == old(state)
    {
      userInfo := info;
    }
  }

  /** What the hooks and task invocations did, in order. */
  datatype Event =
    | CallHookRan(hook: HookId, task: Task)
    | TaskRan(task: Task, fn: FnId, arg: Pointer, current: Task?)
    | StateHookRan(hook: HookId, task: Task, prev: State, next: State)

  /** The events one mu_task_call appends: nothing for a NULL task, else the hook (if installed) then the task. */
  ghost function CallEvents(hook: Option<HookId>, task: Task?, fn: FnId, arg: Pointer, current: Task?): seq<Event>
  {
    if task == null then []
    else (if hook.Some? then [CallHookRan(hook.value, task)] else []) + [TaskRan(task, fn, arg, current)]
  }

  /** How many times `t` was invoked in a trace. */
  ghost function Invocations(events: seq<Event>, t: Task): nat
  {
    if events == [] then 0
    else Invocations(events[..|events| - 1], t) + (if events[|events| - 1].TaskRan? && events[|events| - 1].task == t then 1 else 0)
  }

  /** Appending events adds their invocations. */
  lemma {:induction false} InvocationsAppend(a: seq<Event>, b: seq<Event>, t: Task)
    ensures Invocations(a + b, t) == Invocations(a, t) + Invocations(b, t)
    decreases |b|
  {
    if b == [] {
      assert a + b == a;
    } else {
      assert (a + b)[..|a + b| - 1] == a + b[..|b| - 1];
      InvocationsAppend(a, b[..|b| - 1], t);
    }
  }

  /** A call of `task` invokes `t` once if they are the same task and not at all otherwise. */
  lemma CallInvocations(hook: Option<HookId>, task: Task?, fn: FnId, arg: Pointer, current: Task?, t: Task)
    ensures Invocations(CallEvents(hook, task, fn, arg, current), t) == if task == t then 1 else 0
  {
    var ev := CallEvents(hook, task, fn, arg, current);
    if task != null && hook.Some? {
      var first := [CallHookRan(hook.value, task)];
      assert ev == first + [TaskRan(task, fn, arg, current)];
      assert ev[..1] == first;
      assert first[..0] == [];
      assert Invocations(first, t) == 0;
    } else if task != null {
      assert ev[..0] == [];
    }
  }

  /** The events one state change appends: the state hook, if installed. */
  ghost function StateEvents(hook: Option<HookId>, task: Task, prev: State, next: State): seq<Event>
  {
    if prev == next || hook.None? then [] else [StateHookRan(hook.value, task, prev, next)]
  }

  /** The static storage of mu_task.c: the two hook pointers, NULL (None) at startup. */
  class Hooks {
    var callHook: Option<HookId>
    var setStateHook: Option<HookId>
    ghost var events: seq<Event>

    constructor ()
      ensures callHook == None && setStateHook == None && events == []
    {
      callHook := None;
      setStateHook := None;
      events := [];
    }

    method InstallCallHook(h: Option<HookId>)
      modifies this
      ensures callHook == h && setStateHook == old(setStateHook) && events == old(events)
    {
      callHook := h;
    }

    method InstallSetStateHook(h: Option<HookId>)
      modifies this
      ensures setStateHook == h && callHook == old(callHook) && events == old(events)
    {
      setStateHook := h;
    }

    /**
     * mu_task_call.  `current` is what mu_task_current_task() returns while
     * the task runs; it is recorded in the trace so that callers can state it.
     */
    method Call(task: Task?, arg: Pointer, ghost current: Task?)
      modifies this
      ensures callHook == old(callHook) && setStateHook == old(setStateHook)
      ensures task == null ==> events == old(events)
      ensures task != null ==>
        events == old(events) + (if callHook.Some? then [CallHookRan(callHook.value, task)] else [])
                              + [TaskRan(task, task.fn, arg, current)]
      ensures events == old(events) + CallEvents(callHook, task, if task == null then 0 else task.fn, arg, current)
    {
      if task == null {
        return;
      }
      if callHook.Some? {
        events := events + [CallHookRan(callHook.value, task)];
      }
      events := events + [TaskRan(task, task.fn, arg, current)];
    }

    /**
     * mu_task_set_state: a different state is assigned after the state hook
     * sees (previous, next); the same state changes nothing and fires nothing.
     */
    method SetState(task: Task, s: State)
      modifies this, task
      ensures callHook == old(callHook) && setStateHook == old(setStateHook)
      ensures task.fn == old(task.fn) && task.userInfo == old(task.userInfo)
      ensures task.state == s
      ensures s != old(task.state) && setStateHook.Some? ==>
        events == old(events) + [StateHookRan(setStateHook.value, task, old(task.state), s)]
      ensures s == old(task.state) || setStateHook.None? ==> events == old(events)
      ensures events == old(events) + StateEvents(setStateHook, task, old(task.state), s)
    {
      var prev := task.GetState();
      if s != prev {
        if setStateHook.Some? {
          events := events + [StateHookRan(setStateHook.value, task, prev, s)];
        }
        task.state := s;
      }
    }
  }
}
