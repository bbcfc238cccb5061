// mu_sched: the cooperative scheduler.  A singleton holds three sources of
// work: tasks queued from interrupt level, tasks to run "as soon as
// possible", and a list of deferred (time, task) entries kept so that the
// earliest entry is at the top (the highest index), where it is fetched.

module MuSched {
  import opened Common
  import opened MuTime
  import opened MuTask
  import opened MuMqueue
  import opened MuSpsc

  const MAX_DEFERRED_TASKS: nat := 20
  /** Size of the interrupt-level queue's storage; it holds one task fewer. */
  const MAX_IRQ_TASKS: nat := 8
  const MAX_ASAP_TASKS: nat := 20

  /** A deferred_task_t: a task and the time it becomes runnable. */
  datatype DeferredTask = DeferredTask(at: Abs, task: Task?)

  // ---------------------------------------------------------------------
  // The deferred list as a sequence, bottom (index 0, latest) to top.

  /** Going up the list, no entry is later than one below it. */
  ghost predicate SortedByTime(l: seq<DeferredTask>)
  {
    forall j, k :: 0 <= j < k < |l| ==> !Follows(l[k].at, l[j].at)
  }

  /** All times of the list, and `at`, lie within half the clock range after `base`. */
  ghost predicate ListInWindow(base: Abs, l: seq<DeferredTask>)
  {
    forall k :: 0 <= k < |l| ==> InWindow(base, l[k].at)
  }

  /**
   * Where sched_aux puts a new entry for time `at`: scanning down from the
   * top, just above the first entry that follows `at`, or at the bottom.
   */
  function InsertionPoint(l: seq<DeferredTask>, at: Abs, n: nat): (i: nat)
    requires n <= |l|
    ensures i <= n
    ensures forall k :: i <= k < n ==> !Follows(l[k].at, at)
    ensures 0 < i ==> Follows(l[i - 1].at, at)
    decreases n
  {
    if n == 0 then 0
    else if Follows(l[n - 1].at, at) then n
    else InsertionPoint(l, at, n - 1)
  }

  /** The list after sched_aux has placed `e`. */
  function InsertDeferred(l: seq<DeferredTask>, e: DeferredTask): (r: seq<DeferredTask>)
    ensures |r| == |l| + 1
  {
    var i := InsertionPoint(l, e.at, |l|);
    l[..i] + [e] + l[i..]
  }

  /** The list with every entry for `t` removed, the rest in their order. */
  function RemoveTask(l: seq<DeferredTask>, t: Task?): (r: seq<DeferredTask>)
    ensures |r| <= |l|
    ensures forall k :: 0 <= k < |r| ==> r[k].task != t
    decreases |l|
  {
    if l == [] then []
    else (if l[0].task == t then [] else [l[0]]) + RemoveTask(l[1..], t)
  }

  ghost predicate HasTask(l: seq<DeferredTask>, t: Task?)
  {
    exists k :: 0 <= k < |l| && l[k].task == t
  }

  /** Whether the top entry is due at `now`: it exists and now does not precede its time. */
  predicate TopIsDue(l: seq<DeferredTask>, now: Abs)
  {
    |l| > 0 && !Precedes(now, l[|l| - 1].at)
  }

  // ---------------------------------------------------------------------
  // Properties of the list operations.

  /** In a window, follows compares the unwrapped distances from the base. */
  lemma FollowsInWindow(base: Abs, a: Abs, b: Abs)
    requires InWindow(base, a) && InWindow(base, b)
    ensures Follows(a, b) <==> Difference(a, base) > Difference(b, base)
  {
    DifferenceInWindow(base, a, b);
  }

  /** Insertion keeps the list sorted, provided all times share a half-range window. */
  lemma InsertKeepsSorted(base: Abs, l: seq<DeferredTask>, e: DeferredTask)
    requires SortedByTime(l) && ListInWindow(base, l) && InWindow(base, e.at)
    ensures SortedByTime(InsertDeferred(l, e))
  {
    var i := InsertionPoint(l, e.at, |l|);
    var r := InsertDeferred(l, e);
    forall j, k | 0 <= j < k < |r|
      ensures !Follows(r[k].at, r[j].at)
    {
      InsertedAt(l, e, i, r, j);
      InsertedAt(l, e, i, r, k);
      InsertedPairInOrder(base, l, e, i, j, k);
    }
  }

  /** Entry m of the list l with e inserted at i. */
  function EntryAfterInsert(l: seq<DeferredTask>, e: DeferredTask, i: nat, m: nat): DeferredTask
    requires i <= |l| && m <= |l|
  {
    if m < i then l[m] else if m == i then e else l[m - 1]
  }

  /** Where an entry of the list with e inserted at i comes from. */
  lemma InsertedAt(l: seq<DeferredTask>, e: DeferredTask, i: nat, r: seq<DeferredTask>, m: nat)
    requires i <= |l| && r == l[..i] + [e] + l[i..] && m < |r|
    ensures r[m] == EntryAfterInsert(l, e, i, m)
  {
  }

  /** Any two entries of the list after insertion are in order. */
  lemma InsertedPairInOrder(base: Abs, l: seq<DeferredTask>, e: DeferredTask, i: nat, j: nat, k: nat)
    requires SortedByTime(l) && ListInWindow(base, l) && InWindow(base, e.at)
    requires i == InsertionPoint(l, e.at, |l|)
    requires j < k <= |l|
    ensures !Follows(EntryAfterInsert(l, e, i, k).at, EntryAfterInsert(l, e, i, j).at)
  {
    if k < i {
      OldPairInOrder(l, j, k);
    } else if k == i {
      NewAboveLower(base, l, e.at, i, j);
    } else if j == i {
      assert !Follows(l[k - 1].at, e.at);
    } else if j < i {
      OldPairInOrder(l, j, k - 1);
    } else {
      OldPairInOrder(l, j - 1, k - 1);
    }
  }

  lemma OldPairInOrder(l: seq<DeferredTask>, j: nat, k: nat)
    requires SortedByTime(l) && j < k < |l|
    ensures !Follows(l[k].at, l[j].at)
  {
  }

  /** The new entry, placed just above an entry it follows, follows nothing below that either. */
  lemma NewAboveLower(base: Abs, l: seq<DeferredTask>, at: Abs, i: nat, j: nat)
    requires SortedByTime(l) && ListInWindow(base, l) && InWindow(base, at)
    requires j < i <= |l| && Follows(l[i - 1].at, at)
    ensures !Follows(at, l[j].at) && l[j].at != at
  {
    var below := l[i - 1].at;
    if j < i - 1 {
      OldPairInOrder(l, j, i - 1);
    }
    assert InWindow(base, l[j].at) && InWindow(base, below);
    NotFollowsBelow(base, l[j].at, below, at);
  }

  /** If b follows c and a is not earlier than b, then c does not follow a (all in one window). */
  lemma NotFollowsBelow(base: Abs, a: Abs, b: Abs, c: Abs)
    requires InWindow(base, a) && InWindow(base, b) && InWindow(base, c)
    requires Follows(b, c) && (a == b || !Follows(b, a))
    ensures !Follows(c, a) && a != c
  {
    FollowsInWindow(base, b, c);
    FollowsInWindow(base, b, a);
    FollowsInWindow(base, c, a);
  }

  /** An entry with the time of a new one stays above it, so it is fetched first. */
  lemma EqualTimesKeepOrder(base: Abs, l: seq<DeferredTask>, e: DeferredTask, k: nat)
    requires SortedByTime(l) && ListInWindow(base, l) && InWindow(base, e.at)
    requires k < |l| && l[k].at == e.at
    ensures k >= InsertionPoint(l, e.at, |l|)
    ensures InsertDeferred(l, e)[k + 1] == l[k]
  {
    var i := InsertionPoint(l, e.at, |l|);
    EqualTimeNotBelow(base, l, e.at, i, k);
    InsertedAt(l, e, i, InsertDeferred(l, e), k + 1);
  }

  /** An entry with time `at` is not below the point where an entry for `at` goes. */
  lemma EqualTimeNotBelow(base: Abs, l: seq<DeferredTask>, at: Abs, i: nat, k: nat)
    requires SortedByTime(l) && ListInWindow(base, l) && InWindow(base, at)
    requires i <= |l| && (0 < i ==> Follows(l[i - 1].at, at))
    requires k < |l| && l[k].at == at
    ensures k >= i
  {
    forall j | 0 <= j < i
      ensures l[j].at != at
    {
      NewAboveLower(base, l, at, i, j);
    }
  }

  /** Insertion keeps every old entry, in the old relative order: removing the new one gives the old list. */
  lemma InsertKeepsOthers(l: seq<DeferredTask>, e: DeferredTask, i: nat)
    requires i == InsertionPoint(l, e.at, |l|)
    ensures InsertDeferred(l, e)[i] == e
    ensures InsertDeferred(l, e)[..i] + InsertDeferred(l, e)[i + 1..] == l
  {
    SpliceOut(l, e, i, InsertDeferred(l, e));
  }

  /** Taking out what was put in at i gives back the list. */
  lemma SpliceOut(l: seq<DeferredTask>, e: DeferredTask, i: nat, r: seq<DeferredTask>)
    requires i <= |l| && r == l[..i] + [e] + l[i..]
    ensures r[i] == e && r[..i] + r[i + 1..] == l
  {
    assert r[..i] == l[..i];
    assert r[i + 1..] == l[i..];
    assert l == l[..i] + l[i..];
  }

  /** Removal keeps exactly the entries for other tasks, in order. */
  lemma RemoveTaskKeepsOthers(l: seq<DeferredTask>, t: Task?, x: DeferredTask)
    ensures x in RemoveTask(l, t) <==> x in l && x.task != t
    decreases |l|
  {
    if l != [] {
      RemoveTaskKeepsOthers(l[1..], t, x);
      assert l == [l[0]] + l[1..];
    }
  }

  /** Removal changes the list exactly when the task was in it. */
  lemma {:induction false} RemoveTaskUnchanged(l: seq<DeferredTask>, t: Task?)
    ensures RemoveTask(l, t) == l <==> !HasTask(l, t)
    decreases |l|
  {
    if l == [] {
    } else {
      RemoveTaskUnchanged(l[1..], t);
      if l[0].task == t {
        assert |RemoveTask(l, t)| < |l|;
      } else if HasTask(l[1..], t) {
        var k :| 0 <= k < |l[1..]| && l[1..][k].task == t;
        assert l[k + 1].task == t;
        assert RemoveTask(l, t) != l;
      } else {
        assert forall k :: 1 <= k < |l| ==> l[k] == l[1..][k - 1];
      }
    }
  }

  /** Removing twice is removing once; the second removal finds nothing. */
  lemma RemoveTaskIdempotent(l: seq<DeferredTask>, t: Task?)
    ensures !HasTask(RemoveTask(l, t), t)
    ensures RemoveTask(RemoveTask(l, t), t) == RemoveTask(l, t)
  {
    RemoveTaskUnchanged(RemoveTask(l, t), t);
  }

  /** Prefix splitting for removal, used by the removal loop. */
  lemma {:induction false} RemoveTaskAppend(a: seq<DeferredTask>, b: seq<DeferredTask>, t: Task?)
    ensures RemoveTask(a + b, t) == RemoveTask(a, t) + RemoveTask(b, t)
    decreases |a|
  {
    if a == [] {
      assert a + b == b;
    } else {
      assert (a + b)[1..] == a[1..] + b;
      RemoveTaskAppend(a[1..], b, t);
    }
  }

  /** Removal keeps the order of what remains, so a sorted list stays sorted. */
  lemma {:induction false} RemoveTaskKeepsSorted(l: seq<DeferredTask>, t: Task?)
    requires SortedByTime(l)
    ensures SortedByTime(RemoveTask(l, t))
    decreases |l|
  {
    if l != [] {
      RemoveTaskKeepsSorted(l[1..], t);
      var rest := RemoveTask(l[1..], t);
      if l[0].task != t {
        forall k | 0 <= k < |rest|
          ensures !Follows(rest[k].at, l[0].at)
        {
          RemoveTaskKeepsOthers(l[1..], t, rest[k]);
          var m :| 0 <= m < |l[1..]| && l[1..][m] == rest[k];
          assert l[m + 1] == rest[k];
        }
        var r := RemoveTask(l, t);
        assert r == [l[0]] + rest;
        forall j, k | 0 <= j < k < |r|
          ensures !Follows(r[k].at, r[j].at)
        {
          assert r[k] == rest[k - 1];
          if j > 0 { assert r[j] == rest[j - 1]; }
        }
      }
    }
  }

  /** Whether a step takes its task from the deferred list: the top is due and its task is not NULL. */
  predicate RunsDeferred(l: seq<DeferredTask>, now: Abs)
  {
    TopIsDue(l, now) && l[|l| - 1].task != null
  }

  /**
   * The task a step runs when the interrupt queue is empty: a due top entry's
   * task, else the ASAP head, else the idle task.
   */
  function NextLocal(l: seq<DeferredTask>, asap: seq<Task?>, now: Abs, idle: Task?): Task?
  {
    if RunsDeferred(l, now) then l[|l| - 1].task
    else if asap != [] then asap[0]
    else idle
  }

  /** A due top entry is consumed by the step, even one whose task is NULL. */
  function DeferredAfterStep(l: seq<DeferredTask>, now: Abs): seq<DeferredTask>
  {
    if TopIsDue(l, now) then l[..|l| - 1] else l
  }

  function AsapAfterStep(l: seq<DeferredTask>, asap: seq<Task?>, now: Abs): seq<Task?>
  {
    if !RunsDeferred(l, now) && asap != [] then asap[1..] else asap
  }

  // ---------------------------------------------------------------------
  // The scheduler singleton.

  class Sched {
    const irqTasks: Spsc<Task?>
    const asapTasks: MQueue<Task?>
    /** s_now_store, the storage of the ASAP queue. */
    const nowStore: array<Task?>
    /** s_deferred_tasks; entries 0 .. deferredTaskCount - 1 are live. */
    const deferredTasks: array<DeferredTask>
    var deferredTaskCount: nat
    var currTask: Task?
    /** What the clock source returns; the platform clock itself is outside the model. */
    var clock: Abs
    var idleTask: Task?

    ghost predicate Valid()
      reads this, irqTasks, asapTasks
    {
      deferredTasks.Length == MAX_DEFERRED_TASKS && deferredTaskCount <= MAX_DEFERRED_TASKS &&
      nowStore.Length == MAX_ASAP_TASKS &&
      asapTasks.Valid() && asapTasks.storage == nowStore && asapTasks.capacity == MAX_ASAP_TASKS &&
      asapTasks.onPut == null && asapTasks.onGet == null &&
      irqTasks.Valid() && irqTasks.capacity == MAX_IRQ_TASKS - 1
    }

    /** The live deferred entries, bottom (latest) to top (earliest). */
    ghost function Deferred(): seq<DeferredTask>
      requires Valid()
      reads this, irqTasks, asapTasks, deferredTasks
    {
      deferredTasks[..deferredTaskCount]
    }

    ghost function AsapQueue(): seq<Task?>
      requires Valid()
      reads this, irqTasks, asapTasks, nowStore
    {
      asapTasks.Contents()
    }

    ghost function IrqQueue(): seq<Task?>
      reads this, irqTasks
    {
      irqTasks.items
    }

    /** Static storage plus mu_sched_init: every queue empty, no current or idle task. */
    constructor (now: Abs)
      ensures Valid() && fresh(irqTasks) && fresh(asapTasks) && fresh(nowStore) && fresh(deferredTasks)
      ensures IrqQueue() == [] && AsapQueue() == [] && Deferred() == []
      ensures currTask == null && idleTask == null && clock == now
    {
      var store := new Task?[MAX_ASAP_TASKS];
      var irq := new Spsc<Task?>();
      var err := irq.Init(MAX_IRQ_TASKS);
      assert IsPowerOfTwo(8) by {
        assert IsPowerOfTwo(4) by { assert IsPowerOfTwo(2); }
      }
      irqTasks := irq;
      nowStore := store;
      asapTasks := new MQueue<Task?>.Init(store, MAX_ASAP_TASKS, null, null);
      deferredTasks := new DeferredTask[MAX_DEFERRED_TASKS](_ => DeferredTask(0, null));
      deferredTaskCount := 0;
      currTask := null;
      clock := now;
      idleTask := null;
    }

    /**
     * mu_sched_init on a running scheduler: empties all three sources and
     * clears the current and idle tasks.  Re-initialising the ASAP queue with
     * its own storage, capacity and NULL callbacks is a reset of it.  The
     * clock source goes back to the platform clock, whose reading is
     * `platformNow`: a source installed earlier does not survive.
     */
    method Init(platformNow: Abs)
      requires Valid()
      modifies this, irqTasks, asapTasks
      ensures Valid()
      ensures IrqQueue() == [] && AsapQueue() == [] && Deferred() == []
      ensures currTask == null && idleTask == null && clock == platformNow
    {
      var err := irqTasks.Init(MAX_IRQ_TASKS);
      assert IsPowerOfTwo(8) by {
        assert IsPowerOfTwo(4) by { assert IsPowerOfTwo(2); }
      }
      var q := asapTasks.Reset();
      deferredTaskCount := 0;
      currTask := null;
      clock := platformNow;
      idleTask := null;
    }

    /** mu_sched_reset: drops the deferred entries only; the ASAP and interrupt queues keep their tasks. */
    method Reset()
      requires Valid()
      modifies this
      ensures Valid() && Deferred() == []
      ensures IrqQueue() == old(IrqQueue()) && AsapQueue() == old(AsapQueue())
      ensures currTask == old(currTask) && idleTask == old(idleTask) && clock == old(clock)
    {
      deferredTaskCount := 0;
    }

    /** The clock source replaced by one that reads `now`, as the tests do. */
    method SetClock(now: Abs)
      modifies this
      ensures clock == now
      ensures deferredTaskCount == old(deferredTaskCount) && currTask == old(currTask) && idleTask == old(idleTask)
    {
      clock := now;
    }

    function CurrentTime(): Abs
      reads this
    {
      clock
    }

    function IdleTask(): Task?
      reads this
    {
      idleTask
    }

    method SetIdleTask(task: Task?)
      modifies this
      ensures IdleTask() == task
      ensures deferredTaskCount == old(deferredTaskCount) && currTask == old(currTask) && clock == old(clock)
    {
      idleTask := task;
    }

    /** mu_sched_current_task */
    function CurrentTask(): Task?
      reads this
    {
      currTask
    }

    /**
     * mu_sched_step.  The interrupt queue comes first; then the top deferred
     * entry if it is due; then the ASAP queue; then the idle task.  A due
     * entry whose task is NULL is consumed and the ASAP queue is tried in
     * the same step.  The chosen task is invoked once with `currTask` set to
     * it (recorded in the trace), and `currTask` is NULL afterwards.
     */
    method Step(hooks: Hooks) returns (ran: Task?)
      requires Valid()
      modifies this, irqTasks, asapTasks, hooks
      ensures Valid()
      ensures currTask == null && idleTask == old(idleTask) && clock == old(clock)
      ensures hooks.callHook == old(hooks.callHook) && hooks.setStateHook == old(hooks.setStateHook)
      ensures old(IrqQueue()) != [] ==>
                ran == old(IrqQueue())[0] && IrqQueue() == old(IrqQueue())[1..]
                && Deferred() == old(Deferred()) && AsapQueue() == old(AsapQueue())
      ensures old(IrqQueue()) == [] ==>
                IrqQueue() == [] && ran == NextLocal(old(Deferred()), old(AsapQueue()), clock, idleTask)
                && Deferred() == DeferredAfterStep(old(Deferred()), clock)
                && AsapQueue() == AsapAfterStep(old(Deferred()), old(AsapQueue()), clock)
      ensures hooks.events == old(hooks.events) + CallEvents(old(hooks.callHook), ran, if ran == null then 0 else ran.fn, NULL, ran)
    {
      currTask := Pick(hooks);
      ran := currTask;
      hooks.Call(currTask, NULL, currTask);
      currTask := null;
    }

    /** The choice made by mu_sched_step: the interrupt queue's head if there is one, else PickLocal. */
    method Pick(hooks: Hooks) returns (task: Task?)
      requires Valid()
      modifies this, irqTasks, asapTasks, hooks
      ensures Valid()
      ensures currTask == old(currTask) && idleTask == old(idleTask) && clock == old(clock)
      ensures hooks.callHook == old(hooks.callHook) && hooks.setStateHook == old(hooks.setStateHook)
      ensures hooks.events == old(hooks.events)
      ensures old(IrqQueue()) != [] ==>
                task == old(IrqQueue())[0] && IrqQueue() == old(IrqQueue())[1..]
                && Deferred() == old(Deferred()) && AsapQueue() == old(AsapQueue())
      ensures old(IrqQueue()) == [] ==>
                IrqQueue() == [] && task == NextLocal(old(Deferred()), old(AsapQueue()), clock, idleTask)
                && Deferred() == DeferredAfterStep(old(Deferred()), clock)
                && AsapQueue() == AsapAfterStep(old(Deferred()), old(AsapQueue()), clock)
    {
      var err, item := irqTasks.Get();
      if err == SpscNone {
        task := item.value;
      } else {
        task := PickLocal(hooks);
      }
    }

    /**
     * The part of mu_sched_step after the interrupt queue came up empty:
     * the due top deferred entry, else the ASAP head, else the idle task.
     */
    method PickLocal(hooks: Hooks) returns (task: Task?)
      requires Valid()
      modifies this, asapTasks, hooks
      ensures Valid()
      ensures currTask == old(currTask) && idleTask == old(idleTask) && clock == old(clock)
      ensures hooks.callHook == old(hooks.callHook) && hooks.setStateHook == old(hooks.setStateHook)
      ensures hooks.events == old(hooks.events)
      ensures task == NextLocal(old(Deferred()), old(AsapQueue()), clock, idleTask)
      ensures Deferred() == DeferredAfterStep(old(Deferred()), clock)
      ensures AsapQueue() == AsapAfterStep(old(Deferred()), old(AsapQueue()), clock)
    {
      task := FetchRunnableDeferredTask();
      if task == null {
        var ok, e := asapTasks.Get(hooks, currTask);
        if ok {
          task := e.value;
        } else {
          task := idleTask;
        }
      }
    }

    /** fetch_runnable_deferred_task: pops and returns the top entry's task if it is due, else NULL and no change. */
    method FetchRunnableDeferredTask() returns (task: Task?)
      requires Valid()
      modifies this
      ensures Valid()
      ensures currTask == old(currTask) && idleTask == old(idleTask) && clock == old(clock)
      ensures TopIsDue(old(Deferred()), clock) ==>
                task == old(Deferred())[|old(Deferred())| - 1].task && Deferred() == old(Deferred())[..|old(Deferred())| - 1]
      ensures !TopIsDue(old(Deferred()), clock) ==> task == null && Deferred() == old(Deferred())
    {
      var now := CurrentTime();
      if deferredTaskCount > 0 && !Precedes(now, deferredTasks[deferredTaskCount - 1].at) {
        deferredTaskCount := deferredTaskCount - 1;
        task := deferredTasks[deferredTaskCount].task;
      } else {
        task := null;
      }
    }

    /** mu_sched_peek_next_task: the top deferred entry's task, due or not; else the ASAP head; else NULL. */
    method PeekNextTask() returns (task: Task?)
      requires Valid()
      ensures Deferred() != [] ==> task == Deferred()[|Deferred()| - 1].task
      ensures Deferred() == [] && AsapQueue() != [] ==> task == AsapQueue()[0]
      ensures Deferred() == [] && AsapQueue() == [] ==> task == null
    {
      if deferredTaskCount > 0 {
        return deferredTasks[deferredTaskCount - 1].task;
      }
      var ok, e := asapTasks.Peek();
      if !ok {
        return null;
      }
      return e.value;
    }

    /** mu_sched_asap: SCHED_FULL when the ASAP queue holds its 20 tasks, else the task joins its back. */
    method Asap(hooks: Hooks, task: Task?) returns (err: TaskErr)
      requires Valid()
      modifies asapTasks, nowStore, hooks
      ensures Valid()
      ensures hooks.callHook == old(hooks.callHook) && hooks.setStateHook == old(hooks.setStateHook)
      ensures hooks.events == old(hooks.events)
      ensures err == ErrSchedFull <==> |old(AsapQueue())| == MAX_ASAP_TASKS
      ensures err != ErrSchedFull ==> err == ErrNone && AsapQueue() == old(AsapQueue()) + [task]
      ensures err == ErrSchedFull ==> AsapQueue() == old(AsapQueue())
      ensures IrqQueue() == old(IrqQueue()) && Deferred() == old(Deferred())
    {
      var ok := asapTasks.Put(hooks, task, currTask);
      if !ok {
        err := ErrSchedFull;
      } else {
        err := ErrNone;
      }
    }

    /** mu_sched_from_isr: SCHED_FULL when the interrupt queue holds its 7 tasks, else the task joins its back. */
    method FromIsr(task: Task?) returns (err: TaskErr)
      requires Valid()
      modifies irqTasks
      ensures Valid()
      ensures err == ErrSchedFull <==> |old(IrqQueue())| == MAX_IRQ_TASKS - 1
      ensures err != ErrSchedFull ==> err == ErrNone && IrqQueue() == old(IrqQueue()) + [task]
      ensures err == ErrSchedFull ==> IrqQueue() == old(IrqQueue())
      ensures AsapQueue() == old(AsapQueue()) && Deferred() == old(Deferred())
    {
      var e := irqTasks.Put(task);
      if e == SpscFull {
        err := ErrSchedFull;
      } else {
        err := ErrNone;
      }
    }

    /** mu_sched_defer_until */
    method DeferUntil(task: Task?, at: Abs) returns (err: TaskErr)
      requires Valid()
      modifies this, deferredTasks
      ensures Valid()
      ensures currTask == old(currTask) && idleTask == old(idleTask) && clock == old(clock)
      ensures err == ErrSchedFull <==> |old(Deferred())| == MAX_DEFERRED_TASKS
      ensures err != ErrSchedFull ==> err == ErrNone && Deferred() == InsertDeferred(old(Deferred()), DeferredTask(at, task))
      ensures err == ErrSchedFull ==> Deferred() == old(Deferred())
      ensures IrqQueue() == old(IrqQueue()) && AsapQueue() == old(AsapQueue())
    {
      err := SchedAux(task, at);
    }

    /** mu_sched_defer_for: deferred until the current time offset by `dt`. */
    method DeferFor(task: Task?, dt: Rel) returns (err: TaskErr)
      requires Valid()
      modifies this, deferredTasks
      ensures Valid()
      ensures currTask == old(currTask) && idleTask == old(idleTask) && clock == old(clock)
      ensures err == ErrSchedFull <==> |old(Deferred())| == MAX_DEFERRED_TASKS
      ensures err != ErrSchedFull ==>
                err == ErrNone && Deferred() == InsertDeferred(old(Deferred()), DeferredTask(Offset(clock, dt), task))
      ensures err == ErrSchedFull ==> Deferred() == old(Deferred())
      ensures IrqQueue() == old(IrqQueue()) && AsapQueue() == old(AsapQueue())
    {
      var at := Offset(CurrentTime(), dt);
      err := SchedAux(task, at);
    }

    /**
     * sched_aux: SCHED_FULL on a full list; otherwise scans down from the top
     * past every entry that does not follow `at` and opens a slot there.
     */
    method SchedAux(task: Task?, at: Abs) returns (err: TaskErr)
      requires Valid()
      modifies this, deferredTasks
      ensures Valid()
      ensures currTask == old(currTask) && idleTask == old(idleTask) && clock == old(clock)
      ensures err == ErrSchedFull <==> |old(Deferred())| == MAX_DEFERRED_TASKS
      ensures err != ErrSchedFull ==> err == ErrNone && Deferred() == InsertDeferred(old(Deferred()), DeferredTask(at, task))
      ensures err == ErrSchedFull ==> Deferred() == old(Deferred())
      ensures IrqQueue() == old(IrqQueue()) && AsapQueue() == old(AsapQueue())
    {
      if deferredTaskCount == MAX_DEFERRED_TASKS {
        return ErrSchedFull;
      }
      ghost var l := Deferred();
      var i: nat := deferredTaskCount;
      while i > 0
        invariant i <= deferredTaskCount == |l|
        invariant InsertionPoint(l, at, i) == InsertionPoint(l, at, |l|)
        decreases i
      {
        if Follows(deferredTasks[i - 1].at, at) {
          break;
        }
        i := i - 1;
      }
      assert i == InsertionPoint(l, at, |l|);
      ghost var b := deferredTasks[..];
      OpenSlot(deferredTasks, i, deferredTaskCount);
      ghost var a := deferredTasks[..];
      deferredTasks[i] := DeferredTask(at, task);
      assert deferredTasks[..] == a[i := DeferredTask(at, task)];
      InsertAtSlot(a, b, l, i, |l|, DeferredTask(at, task));
      deferredTaskCount := deferredTaskCount + 1;
      err := ErrNone;
    }


    /**
     * mu_sched_remove_deferred_task: scans down from the top and closes the
     * slot of every entry for `task`.  NONE if at least one was removed,
     * NOT_FOUND otherwise; the other sources are untouched.
     */
    method RemoveDeferredTask(task: Task?) returns (err: TaskErr)
      requires Valid()
      modifies this, deferredTasks
      ensures Valid()
      ensures currTask == old(currTask) && idleTask == old(idleTask) && clock == old(clock)
      ensures Deferred() == RemoveTask(old(Deferred()), task)
      ensures err == (if HasTask(old(Deferred()), task) then ErrNone else ErrNotFound)
      ensures IrqQueue() == old(IrqQueue()) && AsapQueue() == old(AsapQueue())
    {
      ghost var l := Deferred();
      err := ErrNotFound;
      var i: nat := deferredTaskCount;
      while i > 0
        invariant Valid() && i <= deferredTaskCount && i <= |l|
        invariant deferredTasks[..i] == l[..i]
        invariant Deferred() == l[..i] + RemoveTask(l[i..], task)
        invariant err == (if HasTask(l[i..], task) then ErrNone else ErrNotFound)
        invariant currTask == old(currTask) && idleTask == old(idleTask) && clock == old(clock)
        decreases i
      {
        var removed := RemoveIfAt(l, i, task);
        if removed {
          err := ErrNone;
        }
        i := i - 1;
      }
      assert l[0..] == l;
    }

    /** One iteration of the removal scan: the entry at i - 1 goes if it is for `task`. */
    method RemoveIfAt(ghost l: seq<DeferredTask>, i: nat, task: Task?) returns (removed: bool)
      requires Valid() && 0 < i <= deferredTaskCount && i <= |l|
      requires deferredTasks[..i] == l[..i]
      requires Deferred() == l[..i] + RemoveTask(l[i..], task)
      modifies this, deferredTasks
      ensures Valid() && i - 1 <= deferredTaskCount
      ensures deferredTasks[..i - 1] == l[..i - 1]
      ensures Deferred() == l[..i - 1] + RemoveTask(l[i - 1..], task)
      ensures removed == (l[i - 1].task == task)
      ensures HasTask(l[i - 1..], task) <==> removed || HasTask(l[i..], task)
      ensures currTask == old(currTask) && idleTask == old(idleTask) && clock == old(clock)
    {
      ghost var b, n := deferredTasks[..], deferredTaskCount;
      ghost var rest := RemoveTask(l[i..], task);
      SplitAt(b, n, l, i, rest);
      RemoveStep(l, i, task);
      removed := deferredTasks[i - 1].task == task;
      if removed {
        DropEntry(i - 1, l[..i - 1], l[i - 1], rest);
      }
    }

    /** Closes the slot of entry k, e, of the live list pre + [e] + post. */
    method DropEntry(k: nat, ghost pre: seq<DeferredTask>, ghost e: DeferredTask, ghost post: seq<DeferredTask>)
      requires Valid() && |pre| == k < deferredTaskCount
      requires Deferred() == pre + [e] + post
      modifies this, deferredTasks
      ensures Valid() && deferredTaskCount == old(deferredTaskCount) - 1
      ensures Deferred() == pre + post && deferredTasks[..|pre|] == pre
      ensures currTask == old(currTask) && idleTask == old(idleTask) && clock == old(clock)
    {
      ghost var b, n := deferredTasks[..], deferredTaskCount;
      assert b[..n] == pre + [e] + post;
      assert b[..k] == pre && b[k + 1..n] == post;
      CloseSlot(deferredTasks, k, deferredTaskCount);
      deferredTaskCount := deferredTaskCount - 1;
      DropAt(deferredTasks[..], b, k, n);
    }

  }

  /** Shifting l[i..] up by one and writing e at i leaves l with e inserted at i in the first |l| + 1 slots. */
  lemma InsertAtSlot(a: seq<DeferredTask>, b: seq<DeferredTask>, l: seq<DeferredTask>, i: nat, n: nat, e: DeferredTask)
    requires i <= n < |a| && n <= |b| && l == b[..n]
    requires a[..i] == b[..i] && a[i + 1..n + 1] == b[i..n]
    ensures a[i := e][..n + 1] == l[..i] + [e] + l[i..]
  {
    var a1 := a[i := e];
    assert a1[..n + 1] == a1[..i] + [a1[i]] + a1[i + 1..n + 1];
    assert a1[..i] == a[..i] && a1[i + 1..n + 1] == a[i + 1..n + 1];
  }

  /** The live entries l[..i] + rest split around entry i - 1. */
  lemma SplitAt(b: seq<DeferredTask>, n: nat, l: seq<DeferredTask>, i: nat, rest: seq<DeferredTask>)
    requires 0 < i <= |l| && n <= |b| && b[..n] == l[..i] + rest
    ensures i <= n && b[..i - 1] == l[..i - 1] && b[i - 1] == l[i - 1] && b[i..n] == rest
    ensures b[..n] == l[..i - 1] + [l[i - 1]] + rest
  {
    assert |b[..n]| == i + |rest|;
    assert b[..i - 1] == b[..n][..i - 1] == l[..i][..i - 1];
    assert b[i - 1] == b[..n][i - 1];
    assert b[i..n] == b[..n][i..];
    assert l[..i] == l[..i - 1] + [l[i - 1]];
  }

  /** Shifting b[k + 1 .. n) down by one leaves b without entry k in a[..n - 1]. */
  lemma DropAt(a: seq<DeferredTask>, b: seq<DeferredTask>, k: nat, n: nat)
    requires k < n <= |b| && n - 1 <= |a|
    requires a[..k] == b[..k] && a[k..n - 1] == b[k + 1..n]
    ensures a[..n - 1] == b[..k] + b[k + 1..n]
  {
    assert a[..n - 1] == a[..k] + a[k..n - 1];
  }

  /** One step of the removal scan, on sequences. */
  lemma RemoveStep(l: seq<DeferredTask>, i: nat, t: Task?)
    requires 0 < i <= |l|
    ensures l[..i - 1] + RemoveTask(l[i - 1..], t)
         == l[..i - 1] + (if l[i - 1].task == t then [] else [l[i - 1]]) + RemoveTask(l[i..], t)
    ensures HasTask(l[i - 1..], t) <==> l[i - 1].task == t || HasTask(l[i..], t)
  {
    assert l[i - 1..][1..] == l[i..];
    if HasTask(l[i - 1..], t) {
      var k :| 0 <= k < |l[i - 1..]| && l[i - 1..][k].task == t;
      if k > 0 { assert l[i..][k - 1].task == t; }
    }
    if HasTask(l[i..], t) {
      var k :| 0 <= k < |l[i..]| && l[i..][k].task == t;
      assert l[i - 1..][k + 1].task == t;
    }
  }

  /** The memmove in sched_aux: entries i .. count - 1 move up one slot. */
  method OpenSlot(a: array<DeferredTask>, i: nat, n: nat)
    requires i <= n < a.Length
    modifies a
    ensures a[..i] == old(a[..i])
    ensures a[i + 1..n + 1] == old(a[i..n])
  {
    ghost var b := a[..];
    var j: nat := n;
    while j > i
      invariant i <= j <= n && |b| == a.Length
      invariant forall m :: 0 <= m <= j ==> a[m] == b[m]
      invariant forall m :: j <= m < n ==> a[m + 1] == b[m]
      invariant forall m :: n < m < |b| ==> a[m] == b[m]
      decreases j
    {
      a[j] := a[j - 1];
      j := j - 1;
    }
    assert a[..i] == b[..i];
    assert forall m :: i <= m < n ==> a[i + 1..n + 1][m - i] == b[m];
  }

  /** The memmove in remove_deferred_task: entries k + 1 .. count - 1 move down one slot. */
  method CloseSlot(a: array<DeferredTask>, k: nat, n: nat)
    requires k < n <= a.Length
    modifies a
    ensures a[..k] == old(a[..k])
    ensures a[k..n - 1] == old(a[k + 1..n])
  {
    ghost var b := a[..];
    var j: nat := k;
    while j < n - 1
      invariant k <= j <= n - 1 && |b| == a.Length
      invariant forall m :: 0 <= m < k ==> a[m] == b[m]
      invariant forall m :: k < m <= j ==> a[m - 1] == b[m]
      invariant forall m :: j <= m < |b| ==> a[m] == b[m]
      decreases n - j
    {
      a[j] := a[j + 1];
      j := j + 1;
    }
    assert a[..k] == b[..k];
    assert forall m :: k < m < n ==> a[k..n - 1][m - k - 1] == b[m];
  }
}
