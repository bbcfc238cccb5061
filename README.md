# toy-tstat core in Dafny

A Dafny model of the core of toy-tstat, a small thermostat firmware, with proofs about that model. The model covers two parts.

- **mulib**, the firmware's runtime library:
  - the wrapping tick clock (`mu_time`);
  - tasks and their call and state hooks (`mu_task`);
  - the bounded message queue (`mu_mqueue`);
  - the cooperative scheduler (`mu_sched`): one queue of tasks posted from interrupt level, one "as soon as possible" queue, and a list of deferred entries kept earliest-on-top;
  - one-shot and periodic timers (`mu_timer`);
  - non-owning byte-string views (`mu_str`).
- **The application:**
  - the jsmn JSON tokenizer;
  - the thermostat record and its JSON loader (`tstat_model`);
  - the relay rule (`tstat_logic`).

How C state is modelled:

- Structures the C updates in place are classes. Their methods carry `modifies` clauses and state their whole new state. This holds for tasks, the hook table, queues, the scheduler, timers, string views, the jsmn parser and the thermostat record.
- Fixed buffers stay arrays: the deferred list, the queue's ring storage and the jsmn token pool.
- Pure computations are functions. The lemmas relate them.
- C integer widths are subset types in `Common`. Every wrap, truncating division and narrowing conversion is written out.

Files:

| file | models |
|---|---|
| common.dfy | `Option`, the C integer types, two's-complement narrowing, C division |
| mu_time.dfy | `mulib/platform/mu_time.c` |
| mu_task.dfy | the task record and the hooks of `mulib/core/mu_task.c` |
| mu_task_sched.dfy | the half of `mu_task.c` that calls the scheduler |
| mu_spsc.dfy | the observable behaviour of the interrupt-level queue |
| mu_mqueue.dfy | `mulib/core/mu_mqueue.c` |
| mu_sched.dfy | `src/mulib/mulib/core/mu_sched.c` |
| mu_timer.dfy | `mulib/core/mu_timer.c` |
| mu_timer_scenarios.dfy | the sequences of `tests/core/test_mu_timer.c`, replayed on the model |
| mu_str.dfy | `mulib/core/mu_str.c` |
| jsmn.dfy | `src/jsmn.c`, default build |
| tstat_model.dfy | `src/tstat_model.c` |
| tstat_logic.dfy | `src/tstat_logic.c` |

`mu_task.c` and `mu_sched.c` call each other, and Dafny modules cannot import each other. So the half of `mu_task.c` that hands tasks to the scheduler lives in `MuTaskSched`, a module above both.

What task functions do when invoked is outside the model. `Hooks` keeps a ghost trace of events: the call hook, then the task run, and the state hook on each state change. The schedule-level contracts speak about this trace.

The mulib sources appear twice in the repository, under `mulib/` and `src/mulib/mulib/`. The two copies are identical. Rows below cite whichever copy holds the file.

## Model

| member | source | states |
|---|---|---|
| Common.ToI32 | mulib/core/mu_str.c:290-302 | narrowing to int keeps the value modulo 2^32 and leaves every value int can hold unchanged |
| Common.CDiv | mulib/platform/mu_time.c:69-72 | C division truncates toward zero: the remainder a - q * b is smaller than the divisor in magnitude and has the sign of the dividend (zero or positive for a >= 0, zero or negative for a < 0), which fixes q |
| Common.ToI64Congruent | mulib/platform/mu_time.c:55-57 | reading a 64-bit pattern as int64_t agrees with it modulo 2^64 |
| MuTime.OffsetIsModular | mulib/platform/mu_time.c:51-53 | mu_time_offset is addition modulo 2^64 |
| MuTime.DifferenceIsModular | mulib/platform/mu_time.c:55-57 | mu_time_difference is congruent to t1 - t2 modulo 2^64, and zero exactly for equal times |
| MuTime.DifferenceOfOffset | mulib/platform/mu_time.c:51-57 | the difference between an offset time and its base is the offset |
| MuTime.OffsetInverse | mulib/platform/mu_time.c:51-53 | offsetting by dt and then by -dt returns to the start |
| MuTime.OffsetByDifference | mulib/platform/mu_time.c:51-57 | offsetting t2 by difference(t1, t2) gives t1 |
| MuTime.DifferenceAntisymmetric | mulib/platform/mu_time.c:55-57 | difference(t2, t1) is -difference(t1, t2), except at -2^63 |
| MuTime.PrecedesIffFollows | mulib/platform/mu_time.c:59-67 | t1 precedes t2 exactly when t2 follows t1, unless the two times are half the range apart |
| MuTime.HalfRangeApart | mulib/platform/mu_time.c:59-67 | two times exactly half the range apart each precede the other and neither follows |
| MuTime.Trichotomy | mulib/platform/mu_time.c:59-67 | exactly one of precedes, equals and follows holds for any pair |
| MuTime.FollowsAcrossWrap | mulib/platform/mu_time.c:51-67 | a time less than half the range after t follows t, even across the wrap |
| MuTime.DifferenceInWindow | mulib/platform/mu_time.c:55-57 | within a half-range window after a base, differences subtract as unwrapped distances |
| MuTime.FollowsTransitiveInWindow | mulib/platform/mu_time.c:65-67 | within such a window, follows is transitive |
| MuTime.FollowsNotTransitive | mulib/platform/mu_time.c:65-67 | outside a window it is not: three times a third of the range apart form a cycle |
| MuTime.RelToMs | mulib/platform/mu_time.c:69-72 | ticks to milliseconds is the tick count times 1000 divided by one million, truncated toward zero, and exact whenever the result fits in an int |
| MuTime.MsToRel | mulib/platform/mu_time.c:74-77 | milliseconds to ticks multiplies by 1000 with no overflow |
| MuTime.MsRoundTrip | mulib/platform/mu_time.c:69-77 | converting any int of milliseconds to ticks and back yields it again |
| MuTime.SubMillisecondTruncates | mulib/platform/mu_time.c:69-72 | a tick count under one millisecond in magnitude reads as 0 ms |
| MuTask.Task.Init | mulib/core/mu_task.c:50-57 | init stores the function, the state and the user info, and returns the same task |
| MuTask.Task.SetUserInfo | mulib/core/mu_task.c:98-100 | the next get_user_info returns the value set; the function and the state are unchanged |
| MuTask.Hooks.InstallCallHook | mulib/core/mu_task.c:59-61 | replaces the call hook only |
| MuTask.Hooks.InstallSetStateHook | mulib/core/mu_task.c:63-65 | replaces the state hook only |
| MuTask.Hooks.Call | mulib/core/mu_task.c:67-78 | a NULL task does nothing; otherwise the call hook, if installed, then the task runs once with itself as current task |
| MuTask.Hooks.SetState | mulib/core/mu_task.c:84-92 | the new state is stored; the state hook sees (previous, next) only when the state changes and a hook is installed |
| MuTask.InvocationsAppend | mulib/core/mu_task.c:67-78 | invocations in a concatenated trace add up |
| MuTask.CallInvocations | mulib/core/mu_task.c:67-78 | one call invokes its own task once and no other task |
| MuTaskSched.Wait | mulib/core/mu_task.c:106-109 | wait changes the state, schedules nothing and returns NONE |
| MuTaskSched.Yield | mulib/core/mu_task.c:111-114 | yield changes the state first, then queues the task ASAP; SCHED_FULL exactly when the ASAP queue is full, with the state still changed |
| MuTaskSched.SchedFromIsr | mulib/core/mu_task.c:116-118 | the task joins the interrupt queue, or SCHED_FULL exactly when that queue is full |
| MuTaskSched.DeferFor | mulib/core/mu_task.c:120-124 | the state changes, then the task is inserted for now + dt, or SCHED_FULL on a full list |
| MuTaskSched.DeferUntil | mulib/core/mu_task.c:126-130 | the state changes, then the task is inserted for time `at`, or SCHED_FULL on a full list |
| MuTaskSched.RemoveDeferredTask | mulib/core/mu_task.c:132-134 | every deferred entry of the task goes; NONE if there was one, else NOT_FOUND |
| MuTaskSched.Transfer | mulib/core/mu_task.c:136-141 | `from` takes its final state, keeping its function and user data; `to` joins the ASAP queue with its own state untouched; the hooks stay the same and the IRQ and deferred queues do not change |
| MuTaskSched.RemoveFromFreshScheduler | tests/core/test_mu_task.c:151-153 | on a freshly initialised scheduler, removal reports NOT_FOUND |
| MuSpsc.Spsc.Init | tests/core/test_mu_spsc.c:54-60 | a size that is not a power of two above one is refused; otherwise the queue is empty with capacity size - 1 |
| MuSpsc.Spsc.Put | tests/core/test_mu_spsc.c:68-72 | a full queue refuses and is unchanged; otherwise the item joins the back |
| MuSpsc.Spsc.Get | tests/core/test_mu_spsc.c:74-82 | an empty queue yields nothing; otherwise the oldest item is returned and removed (FIFO) |
| MuMqueue.Slot | mulib/core/mu_mqueue.c:74-84 | the ring position k slots after the head is (head + k) mod capacity |
| MuMqueue.RingContents | mulib/core/mu_mqueue.c:97-114 | the contents hold `count` elements, the k-th taken from slot k after the head |
| MuMqueue.RingAppend | mulib/core/mu_mqueue.c:74-84 | storing at the slot after the last element appends it to the contents |
| MuMqueue.RingDropFirst | mulib/core/mu_mqueue.c:97-114 | moving the head one slot on drops the oldest element |
| MuMqueue.MQueue.Head | mulib/core/mu_mqueue.c:99-102 | the oldest element's slot is index - count modulo capacity, computed without going negative |
| MuMqueue.MQueue.Init | mulib/core/mu_mqueue.c:48-56 | init keeps the storage, capacity and callbacks and empties the queue |
| MuMqueue.MQueue.Reset | mulib/core/mu_mqueue.c:58-62 | reset empties the queue, keeps storage, capacity and callbacks, and returns the same queue |
| MuMqueue.MQueue.Put | mulib/core/mu_mqueue.c:74-84 | put succeeds exactly when there is room; on success the element is appended at slot index, index advances modulo capacity and on_put runs once; on failure nothing changes and nothing is called |
| MuMqueue.MQueue.Store | mulib/core/mu_mqueue.c:76-78 | the ring update of a put with room: the element becomes the newest one |
| MuMqueue.MQueue.Get | mulib/core/mu_mqueue.c:86-88 | get succeeds exactly on a non-empty queue; it returns and removes the oldest element and runs on_get once; otherwise it yields NULL and calls nothing |
| MuMqueue.MQueue.Peek | mulib/core/mu_mqueue.c:90-92 | peek returns the element get would return, removing nothing |
| MuMqueue.MQueue.AccessQueue | mulib/core/mu_mqueue.c:97-114 | the shared body: the oldest element if any; only with fetch is it removed and on_get run |
| MuMqueue.MQueue.DropOldest | mulib/core/mu_mqueue.c:99-106 | the ring update of a fetch: the oldest element leaves and the head moves one slot on |
| MuSched.InsertionPoint | src/mulib/mulib/core/mu_sched.c:264-274 | the insertion index: no entry from it up to n follows `at`, and the entry just below it does |
| MuSched.InsertDeferred | src/mulib/mulib/core/mu_sched.c:258-293 | inserting adds exactly one entry |
| MuSched.RemoveTask | src/mulib/mulib/core/mu_sched.c:185-204 | the list after removal holds no entry for the task and is no longer than before |
| MuSched.FollowsInWindow | src/mulib/mulib/core/mu_sched.c:268-273 | in a half-range window, follows compares distances from the base |
| MuSched.InsertKeepsSorted | src/mulib/mulib/core/mu_sched.c:258-293 | insertion keeps the list time-ordered (earliest on top) when all times share a half-range window |
| MuSched.InsertedAt | src/mulib/mulib/core/mu_sched.c:276-291 | where each entry of the list after insertion comes from |
| MuSched.InsertedPairInOrder | src/mulib/mulib/core/mu_sched.c:258-293 | any two entries of the list after insertion are in time order |
| MuSched.OldPairInOrder | src/mulib/mulib/core/mu_sched.c:258-293 | sortedness relates every pair of entries, not only neighbours |
| MuSched.NewAboveLower | src/mulib/mulib/core/mu_sched.c:268-273 | the new entry, placed just above an entry later than it, is earlier than nothing below that entry and shares its time with none of them |
| MuSched.NotFollowsBelow | src/mulib/mulib/core/mu_sched.c:268-273 | within one window, if b follows c and a is not before b, then c does not follow a |
| MuSched.EqualTimesKeepOrder | src/mulib/mulib/core/mu_sched.c:268-273 | an entry already scheduled for the same time stays above the new one, so it is fetched first |
| MuSched.EqualTimeNotBelow | src/mulib/mulib/core/mu_sched.c:268-273 | no entry for time `at` lies below the insertion point for `at` |
| MuSched.InsertKeepsOthers | src/mulib/mulib/core/mu_sched.c:276-291 | the new entry sits at the insertion point; removing it gives back the old list |
| MuSched.SpliceOut | src/mulib/mulib/core/mu_sched.c:276-291 | taking out what was put in at i gives back the list |
| MuSched.RemoveTaskKeepsOthers | src/mulib/mulib/core/mu_sched.c:185-204 | an entry survives removal exactly when it was in the list and belongs to another task |
| MuSched.RemoveTaskUnchanged | src/mulib/mulib/core/mu_sched.c:185-204 | removal changes the list exactly when the task was in it |
| MuSched.RemoveTaskIdempotent | src/mulib/mulib/core/mu_sched.c:185-204 | removing twice is removing once, and the second removal finds nothing |
| MuSched.RemoveTaskAppend | src/mulib/mulib/core/mu_sched.c:185-204 | removal distributes over concatenation |
| MuSched.RemoveTaskKeepsSorted | src/mulib/mulib/core/mu_sched.c:185-204 | removal keeps a sorted list sorted |
| MuSched.Sched.constructor | src/mulib/mulib/core/mu_sched.c:91-99 | the static scheduler after init: all three sources empty, no current and no idle task |
| MuSched.Sched.Init | src/mulib/mulib/core/mu_sched.c:91-99 | re-initialising empties all three sources, clears the current and idle tasks, and puts the platform clock back as the clock source, discarding one installed earlier |
| MuSched.Sched.Reset | src/mulib/mulib/core/mu_sched.c:101 | reset drops the deferred entries only; both queues keep their tasks |
| MuSched.Sched.SetClock | src/mulib/mulib/core/mu_sched.c:129-135 | the clock source now reads `now`, and nothing else changes |
| MuSched.Sched.SetIdleTask | src/mulib/mulib/core/mu_sched.c:137-139 | the idle task is replaced, and nothing else changes |
| MuSched.Sched.Step | src/mulib/mulib/core/mu_sched.c:103-127 | the interrupt queue's head runs first; else the due top deferred entry; else the ASAP head; else the idle task; a due entry with a NULL task is consumed and the ASAP queue tried in the same step; the chosen task is invoked once as current task, and the current task is NULL afterwards |
| MuSched.Sched.Pick | src/mulib/mulib/core/mu_sched.c:104-121 | the choice of a step and what it consumes from each source, invoking nothing |
| MuSched.Sched.PickLocal | src/mulib/mulib/core/mu_sched.c:109-121 | the choice once the interrupt queue is empty |
| MuSched.Sched.FetchRunnableDeferredTask | src/mulib/mulib/core/mu_sched.c:241-256 | a top entry that is due (now does not precede its time) is popped and its task returned; otherwise NULL and no change |
| MuSched.Sched.PeekNextTask | src/mulib/mulib/core/mu_sched.c:143-157 | the top deferred task, due or not; else the ASAP head; else NULL |
| MuSched.Sched.Asap | src/mulib/mulib/core/mu_sched.c:159-166 | SCHED_FULL exactly when the ASAP queue holds 20 tasks; else the task joins its back; nothing else changes |
| MuSched.Sched.FromIsr | src/mulib/mulib/core/mu_sched.c:168-174 | SCHED_FULL exactly when the interrupt queue holds 7 tasks; else the task joins its back |
| MuSched.Sched.DeferUntil | src/mulib/mulib/core/mu_sched.c:176-178 | SCHED_FULL exactly on a full list; else the entry (at, task) is inserted as InsertDeferred places it |
| MuSched.Sched.DeferFor | src/mulib/mulib/core/mu_sched.c:180-183 | the same, for the clock's current time offset by dt |
| MuSched.Sched.SchedAux | src/mulib/mulib/core/mu_sched.c:258-293 | the downward scan and memmove leave the live entries equal to InsertDeferred of the old ones; SCHED_FULL on a full list |
| MuSched.OpenSlot | src/mulib/mulib/core/mu_sched.c:278-283 | entries i .. count - 1 move up one slot and those below i are untouched |
| MuSched.Sched.RemoveDeferredTask | src/mulib/mulib/core/mu_sched.c:185-204 | the live entries become RemoveTask of the old ones; NONE if the task had an entry, else NOT_FOUND; both queues are untouched |
| MuSched.Sched.RemoveIfAt | src/mulib/mulib/core/mu_sched.c:190-202 | one iteration of the scan: entry i - 1 goes exactly when it is for the task |
| MuSched.Sched.DropEntry | src/mulib/mulib/core/mu_sched.c:192-199 | closing slot k removes exactly entry k from the live list |
| MuSched.CloseSlot | src/mulib/mulib/core/mu_sched.c:194-198 | entries k + 1 .. count - 1 move down one slot and those below k are untouched |
| MuTimer.Timer.Init | mulib/core/mu_timer.c:57-59 | init sets up only the embedded task (timer function, idle state, no user info) |
| MuTimer.Timer.Stop | mulib/core/mu_timer.c:75-80 | stop cancels the timer's deferred entries only when it was running, never calls the completion task, and always leaves the timer IDLE (stopped, not running) |
| MuTimer.Timer.Start | mulib/core/mu_timer.c:61-73 | start stops the timer, sets the deadline delay ticks after the current time, marks it RUNNING and defers its task until the deadline |
| MuTimer.Timer.Expire | mulib/core/mu_timer.c:93-122 | when RUNNING, a periodic timer re-arms at the old deadline plus the delay and a one-shot goes IDLE, and either way the completion task is called once; IDLE and ERROR do nothing |
| MuTimerScenarios.StepAndDispatch | mulib/core/mu_timer.c:93-122 | a scheduler step followed by the timer function when the step chose the timer's task |
| MuTimerScenarios.Setup | tests/core/test_mu_timer.c:121-126 | the test setup: a scheduler holding only the timer's entry for time 5 |
| MuTimerScenarios.QuietStep | tests/core/test_mu_timer.c:71-73 | a step before the deadline runs nothing and keeps the timer armed |
| MuTimerScenarios.ExpiryStep | tests/core/test_mu_timer.c:74-76 | a step at the deadline calls the completion task once and re-arms 5 ticks after the old deadline (periodic) or leaves nothing to run |
| MuTimerScenarios.IdleStep | tests/core/test_mu_timer.c:77-79 | with nothing left, a step runs nothing |
| MuTimerScenarios.OneShot | tests/core/test_mu_timer.c:68-80 | the one-shot test's completion counts are 0, 1, 1 |
| MuTimerScenarios.Periodic | tests/core/test_mu_timer.c:82-94 | the periodic test's completion counts are 0, 1, 2 |
| MuTimerScenarios.StopBeforeExpiry | tests/core/test_mu_timer.c:99-113 | a timer stopped before its deadline reports stopped and never completes |
| MuTimerScenarios.CountCall | mulib/core/mu_timer.c:103-115 | the trace of one expiry invokes the completion task once |
| MuStr.CommonPrefix | mulib/core/mu_str.c:290-302 | the length of the longest common prefix: equal bytes below it, a difference at it |
| MuStr.CompareValueSign | mulib/core/mu_str.c:290-302 | the comparison is 0 exactly for equal strings, negative exactly for lexicographically smaller, positive exactly for larger |
| MuStr.CommonPrefixAt | mulib/core/mu_str.c:290-302 | equal bytes up to a difference (or an end) at i make i the common prefix |
| MuStr.SliceBounds | mulib/core/mu_str.c:111-135 | the byte range of a slice: negative indices count from the end, the others are clamped to the length (MU_STR_END being the length), and the end is never before the start |
| MuStr.SliceSplits | mulib/core/mu_str.c:111-135 | slicing [0, k) and [k, END) splits a view in two |
| MuStr.SliceWholeAndNested | mulib/core/mu_str.c:111-135 | slicing 0..END keeps the view's bytes, and the bytes of a slice of a slice are those of one slice of the original, from the sum of the starts, within the outer slice |
| MuStr.FirstWhere | mulib/core/mu_str.c:183-194 | the first index whose predicate result is the wanted one, or none exactly when no index has it |
| MuStr.LastWhere | mulib/core/mu_str.c:196-207 | the last such index, or none exactly when no index has it |
| MuStr.TrimLeftRemovesLeadingRun | mulib/core/mu_str.c:209-216 | ltrim removes exactly a leading run of predicate bytes, up to the first failing byte; a view made only of predicate bytes is left whole, because the match finds no failing byte, although the header (mulib/core/mu_str.h:241) says such bytes are removed |
| MuStr.TrimRightRemovesTrailingRun | mulib/core/mu_str.c:218-225 | the corrected rtrim removes exactly a trailing run, keeping the last failing byte; as with ltrim, a view made only of predicate bytes is left whole, against the header's wording (mulib/core/mu_str.h:248) |
| MuStr.TrimIdempotent | mulib/core/mu_str.c:209-229 | trimming a trimmed view changes nothing |
| MuStr.RTrimAsWrittenLosesByte | mulib/core/mu_str.c:218-225 | as written, rtrim drops the last failing byte as well, whenever some byte fails |
| MuStr.RTrimAsWrittenExample | mulib/core/mu_str.c:758-770 | on "  abcde  " the code as written gives "  abcd"; the test expects "  abcde" |
| MuStr.FindAsWrittenOverreads | mulib/core/mu_str.c:344-377 | as written, find matches a needle longer than the view in the bytes past its end |
| MuStr.Modulus | mulib/core/mu_str.c:276-285 | each integer width's modulus is an even number of at least 256 |
| MuStr.WrapUnsigned | mulib/core/mu_str.c:264-274 | storing into an unsigned type gives a value below its modulus |
| MuStr.WrapUnsignedIsMod | mulib/core/mu_str.c:264-274 | unsigned storage keeps the remainder modulo 2^w |
| MuStr.WrapSigned | mulib/core/mu_str.c:246-262 | storing into a signed type gives a value within its two's complement range |
| MuStr.WrapUnsignedFacts | mulib/core/mu_str.c:264-274 | values the unsigned type holds are stored unchanged; storage is periodic in 2^w |
| MuStr.WrapMod | mulib/core/mu_str.c:246-285 | both kinds of storage keep the value modulo 2^w |
| MuStr.WrapSignedInRange | mulib/core/mu_str.c:246-262 | values the signed type holds are stored unchanged |
| MuStr.WrapSignedCongruent | mulib/core/mu_str.c:246-262 | integers congruent modulo 2^w are stored as the same signed value |
| MuStr.SignedStep | mulib/core/mu_str.c:246-262 | one accumulation step on the stored value agrees with the step on the exact value |
| MuStr.UnsignedStep | mulib/core/mu_str.c:264-274 | the same for the unsigned parsers |
| MuStr.DecimalSnoc | mulib/core/mu_str.c:246-285 | one more digit multiplies by ten and adds the digit |
| MuStr.DigitPrefix | mulib/core/mu_str.c:246-285 | the leading digit run: all digits, followed by a non-digit or the end |
| MuStr.DigitPrefixAt | mulib/core/mu_str.c:246-285 | k digits followed by a non-digit (or the end) make the digit run of length k |
| MuStr.Decimal | mulib/core/mu_str.c:246-285 | the decimal text of a number is a non-empty run of digits |
| MuStr.DecimalRoundTrip | mulib/core/mu_str.c:246-285 | reading back a number's decimal text gives the number |
| MuStr.ParseUnsignedRoundTrip | mulib/core/mu_str.c:264-274 | the unsigned parsers read back every value their type holds from its decimal text, whatever non-digit follows |
| MuStr.ParseSignedRoundTrip | mulib/core/mu_str.c:246-262 | the signed parsers read back every non-negative value their type holds |
| MuStr.ParseNegativeRoundTrip | mulib/core/mu_str.c:246-262 | with a leading '-' they read back every negative value their type holds |
| MuStr.NegativeDigitsThenRest | mulib/core/mu_str.c:246-262 | after '-' the parsers read the digits that follow it |
| MuStr.DigitsThenRest | mulib/core/mu_str.c:246-285 | the digit run of a decimal text followed by a non-digit has that text's value |
| MuStr.StrLen | mulib/core/mu_str.c:45-51 | strlen finds the first NUL: no NUL before it |
| MuStr.Str.Init | mulib/core/mu_str.c:73-77 | init makes the view of the len bytes at the pointer |
| MuStr.Str.InitCstr | mulib/core/mu_str.c:79-81 | init_cstr makes the view of a C string up to, and without, its NUL |
| MuStr.Str.Bytes | mulib/core/mu_str.c:83 | the view's bytes are the len buffer bytes from its offset |
| MuStr.Str.Length | mulib/core/mu_str.c:85 | the length is the number of bytes viewed |
| MuStr.Str.IsEmpty | mulib/core/mu_str.c:87 | a view is empty exactly when it views no bytes |
| MuStr.Str.Copy | mulib/core/mu_str.c:89-91 | copy shares the source's buffer, offset and length |
| MuStr.Str.Compare | mulib/core/mu_str.c:93-100 | compare is 0 exactly for equal bytes, negative exactly when this view sorts first, positive exactly when the other does |
| MuStr.CompareBytes | mulib/core/mu_str.c:290-302 | str_compare_aux: the first byte difference, else the length difference |
| MuStr.Str.Slice | mulib/core/mu_str.c:111-135 | the destination views bytes [s, e) of the source within the same buffer, with s and e as SliceBounds gives; source and destination may be one view |
| MuStr.Str.HasPrefix | mulib/core/mu_str.c:304-320 | true exactly when the other view's bytes begin this view |
| MuStr.Str.HasSuffix | mulib/core/mu_str.c:322-342 | true exactly when the other view's bytes end this view |
| MuStr.Str.Find | mulib/core/mu_str.c:344-377 | an empty needle is found at 0; otherwise the first index where the needle occurs (one past it with skip), or NOT_FOUND exactly when it occurs nowhere |
| MuStr.Str.RFind | mulib/core/mu_str.c:379-412 | an empty needle is found at the length; otherwise the last occurrence (one past it with skip), or NOT_FOUND exactly when there is none |
| MuStr.Str.Match | mulib/core/mu_str.c:183-194 | the first index whose predicate result is break_if, or NOT_FOUND when there is none |
| MuStr.Str.RMatch | mulib/core/mu_str.c:196-207 | the last such index, or NOT_FOUND when there is none |
| MuStr.Str.LTrim | mulib/core/mu_str.c:209-216 | ltrim, in place, leaves TrimLeft of the old bytes, the start moved past exactly the bytes removed |
| MuStr.Str.RTrim | mulib/core/mu_str.c:218-225 | corrected rtrim, in place, leaves TrimRight of the old bytes |
| MuStr.Str.Trim | mulib/core/mu_str.c:227-229 | trim leaves the right-trim of the left-trim, the start moved past exactly the bytes the left trim removes |
| MuStr.Str.ToCstr | mulib/core/mu_str.c:231-242 | to_cstr succeeds exactly when the bytes and a NUL fit; then it copies them, and it leaves the rest of the buffer (all of it on failure) untouched |
| MuStr.Str.ParseSigned | mulib/core/mu_str.c:246-262 | the signed parsers return an optional '-' and the leading digits' value, stored into their type |
| MuStr.Str.ParseUnsigned | mulib/core/mu_str.c:264-274 | the unsigned parsers return the leading digits' value, stored into their type |
| MuStr.AccumulateSigned | mulib/core/mu_str.c:246-262 | the accumulation loop stops at the first non-digit, holding the wrapped value of the digits before it |
| MuStr.MatchAt | mulib/core/mu_str.c:356-373 | the candidate test of find: true exactly when the needle occurs at i |
| Jsmn.BracketKind | src/jsmn.c:235-245 | '{' opens and '}' closes an object, '[' opens and ']' closes an array |
| Jsmn.PrimitiveScan | src/jsmn.c:62-115 | a primitive ends at the first delimiter, NUL or end of input; a control or non-ASCII byte before that makes it invalid |
| Jsmn.HexEnd | src/jsmn.c:166-184 | after \u, at most four hex digits are consumed, stopping at NUL or the end; a non-hex byte makes it invalid |
| Jsmn.StringNext | src/jsmn.c:150-190 | one step of the string body: past an escape, past \u and its hex digits, or past a plain byte; -1 for a bad escape |
| Jsmn.StringScan | src/jsmn.c:120-194 | a string closes at its first unescaped quote; it is partial when the input ends first, and invalid on a bad escape |
| Jsmn.PlainStringSpan | src/jsmn.c:130-148 | a body free of quotes, backslashes and NULs ends exactly at the next quote |
| Jsmn.BadEscapeInvalid | src/jsmn.c:150-190 | a backslash followed by a byte that is not an allowed escape makes the string invalid |
| Jsmn.UnterminatedPartial | src/jsmn.c:130-193 | a string with no closing quote before the end is partial |
| Jsmn.SkipHex | src/jsmn.c:166-184 | the hex loop of the \u escape ends where HexEnd says |
| Jsmn.SkipInString | src/jsmn.c:150-190 | the escape handling of one body byte moves on as StringNext says |
| Jsmn.InnermostOpen | src/jsmn.c:266-291 | the last allocated token that is open, or -1 when none is |
| Jsmn.BumpKeeps | src/jsmn.c:222-234 | counting a child changes no token's span or bounds, and the pool only grows |
| Jsmn.OpenedOk | src/jsmn.c:212-237 | opening a container keeps the pool valid, makes the new token the super token, and only adds a child to earlier tokens |
| Jsmn.OpenedSpans | src/jsmn.c:235-236 | the new container token's span starts at its bracket, so the pool still matches the text |
| Jsmn.PushedOk | src/jsmn.c:292-301 | allocating a string or primitive keeps the pool valid with the same super token |
| Jsmn.PushedSpans | src/jsmn.c:292-301 | a token whose span matches the text keeps the pool matching it |
| Jsmn.EndedOk | src/jsmn.c:266-291 | giving an open token its end keeps the pool valid |
| Jsmn.EndedSpans | src/jsmn.c:266-291 | a closing bracket of the token's own kind gives it a span ending just past the bracket |
| Jsmn.StepFrom | src/jsmn.c:206-372 | one pass of the loop, judged from the text alone: brackets, strings and primitives count; whitespace, ':' and ',' are skipped; a bad string or primitive fails |
| Jsmn.CountFrom | src/jsmn.c:199-385 | the count jsmn_parse returns with no token array: one per bracket opened, string and primitive, or the first scan error |
| Jsmn.CountFromNext | src/jsmn.c:206-372 | a byte that moves the scan on contributes its own count to the count from where it lands |
| Jsmn.OpenStepped | src/jsmn.c:212-237 | an opening bracket with a free token opens a container as the super token, counted once, the pool valid for the next byte |
| Jsmn.CloseStepped | src/jsmn.c:266-291 | a matching closing bracket closes the innermost open token and makes the open token below it the super token |
| Jsmn.CloseBracketStep | src/jsmn.c:239-244 | a closing bracket moves the scan one byte on, counting nothing |
| Jsmn.LastOpen | src/jsmn.c:266-290 | the downward search loops find InnermostOpen |
| Jsmn.CloseMovesInnermost | src/jsmn.c:283-290 | after the innermost open token is closed, the last open token below it is the new innermost |
| Jsmn.InnermostOpenAgrees | src/jsmn.c:266-291 | pools that agree on which tokens are open agree on the innermost one |
| Jsmn.OpenKinds | src/jsmn.c:266-291 | the kinds of the open containers, outermost first: empty exactly when no token is open, with the innermost open token's kind on top |
| Jsmn.OpenKindsAgree | src/jsmn.c:266-291 | pools that agree on which tokens are open, and on their kinds, have the same stack of open kinds |
| Jsmn.OpenKindsOpened | src/jsmn.c:212-237 | opening a container pushes its kind on the stack |
| Jsmn.OpenKindsPushed | src/jsmn.c:292-301 | a closed string or primitive token leaves the stack as it was |
| Jsmn.OpenKindsEnded | src/jsmn.c:266-291 | closing the innermost open token pops the stack |
| Jsmn.StackStep | src/jsmn.c:212-291 | the stack of open kinds under one byte: an opening bracket pushes its kind and keeps the rest, a closing bracket pops the top exactly when it is of the bracket's kind and fails on an empty stack or another kind, any other byte leaves the stack as it was |
| Jsmn.PoolStep | src/jsmn.c:206-372 | one pass of the loop with a token array, judged from the text and the stack of open kinds: INVAL where StackStep finds no match for a closing bracket, else the move StepFrom makes (its errors included) with the stack StackStep leaves |
| Jsmn.PoolCountFrom | src/jsmn.c:199-385 | the count jsmn_parse returns with a token array that does not run out: always a count, INVAL or PART, and PART when the text ends with a container open |
| Jsmn.PoolCountFromNext | src/jsmn.c:206-372 | a byte that moves the scan on contributes its count to the pool count from where it lands, with the stack it leaves |
| Jsmn.PoolCountFromFail | src/jsmn.c:239-291 | a byte on which PoolStep fails ends the pool count with that error |
| Jsmn.PoolCountAgrees | src/jsmn.c:199-385 | where the pool count succeeds it equals the count without an array, and an error of the count without an array is an error with one |
| Jsmn.PoolFailsCount | src/jsmn.c:206-372 | a pass that fails with INVAL or PART ends the pool count with that code; one that fails with NOMEM was due a token |
| Jsmn.ClosePoolStep | src/jsmn.c:266-291 | a closing bracket of the innermost open token's kind pops the stack as the pool's own close does |
| Jsmn.ClosePoolFails | src/jsmn.c:266-281 | a closing bracket with no open token, or with an innermost open token of the other kind, fails the pass with INVAL |
| Jsmn.PushedStepped | src/jsmn.c:292-301 | a string or primitive with a free token is one counted pass that keeps the pool valid and the stack unchanged |
| Jsmn.SkipStepped | src/jsmn.c:302-328 | whitespace, ':' and ',' are one uncounted pass that keeps the pool, only the super token moving |
| Jsmn.SteppedCounts | src/jsmn.c:206-372 | one successful pass adds its token, if any, to both the count without an array and the pool count |
| Jsmn.Parser.constructor | src/jsmn.c:391-395 | a new parser starts at position 0 with no tokens and no super token |
| Jsmn.Parser.Init | src/jsmn.c:391-395 | init returns to position 0 with no tokens and no super token |
| Jsmn.Parser.AllocToken | src/jsmn.c:33-46 | hands out the next token with no span and no children, or fails, changing nothing, once the pool is used up |
| Jsmn.Parser.ParsePrimitive | src/jsmn.c:62-115 | the primitive token spans what PrimitiveScan accepts and the position stops at its delimiter; invalid or out of tokens, the parser and the pool are restored |
| Jsmn.Parser.ParseString | src/jsmn.c:120-194 | the string token spans the body StringScan closes; INVAL, PART or NOMEM restore the parser and the pool |
| Jsmn.Parser.CountChild | src/jsmn.c:298-300 | the super token, if any, gains one child |
| Jsmn.Parser.OpenStep | src/jsmn.c:212-237 | NOMEM with nothing changed when the pool is used up; otherwise a new container token starts at the bracket, is counted as a child of the super token and becomes the super token |
| Jsmn.Parser.CloseStep | src/jsmn.c:266-291 | INVAL unless the innermost open token is of the bracket's kind; else it is closed and the next open token becomes the super token |
| Jsmn.Parser.CommaStep | src/jsmn.c:310-325 | after a key's value, the innermost open container becomes the super token again |
| Jsmn.Parser.ParseByte | src/jsmn.c:206-372 | one pass of the loop: an error with the parser and the pool as they were, or a valid state ready for the next byte, with the count step as StepFrom says |
| Jsmn.Parser.OpenCase | src/jsmn.c:212-237 | the open case fails only with NOMEM and nothing changed; otherwise it is one counted pass that keeps the pool valid |
| Jsmn.Parser.CloseCase | src/jsmn.c:239-291 | the close case keeps the pool valid, and its spans matching the text |
| Jsmn.Parser.StringCase | src/jsmn.c:292-301 | the string case keeps the pool valid and counts one token |
| Jsmn.Parser.PrimitiveCase | src/jsmn.c:353-364 | the default case: NOMEM or INVAL with parser and pool as they were, or one counted primitive token with the pool valid |
| Jsmn.Parser.CountPushed | src/jsmn.c:298-300 | after a string or primitive is allocated, counting it as a child finishes one pass as PushedStepped says |
| Jsmn.Parser.Pass | src/jsmn.c:206-372 | one pass plus the move to the next byte: the count from the old position, and with an array the pool count from the old stack, is the count from the new one plus the token added; an error is one PoolStep fails with, or NOMEM on a byte due a token |
| Jsmn.Parser.OpenLeft | src/jsmn.c:375-381 | the final loop finds an open token exactly when the stack of open kinds is not empty; when it finds none, every allocated token is closed |
| Jsmn.Parser.Parse | src/jsmn.c:199-385 | parse returns the number of tokens already in the pool plus the count the byte-by-byte reference scan gives, or NOMEM, INVAL or PART, and any error of that scan is an error of parse; without an array it only counts and allocates nothing; with one, tokens already allocated keep their type, start and closed end, child counts only grow, slots above the pool are untouched, spans that all matched the text still match, the allocated tokens are in document order (each starts before every token allocated after it, so a container precedes its children), NOMEM means the pool is full, and on success every token is closed and the scan stopped at the end of the text or a NUL; with an array, any result but NOMEM is the pool count from the parser's stack of open containers (its error, or the tokens already in the pool plus that count), and NOMEM cannot happen when that count fits in the pool |
| Jsmn.Parser.Scan | src/jsmn.c:206-372 | the loop over the bytes: from where it starts, the count without an array and, with one, the pool count are the tokens it found plus the counts from where it stops at the end of the text or a NUL; an error other than NOMEM is that count's own error; NOMEM comes only with the pool full and a pool count that is an error or exceeds the tokens found |
| Jsmn.CLength | src/jsmn.c:397-404 | strlen: the bytes before the first NUL |
| Jsmn.ParsePattern | src/jsmn.c:397-404 | a pattern is tokenised by a fresh parser over its C string: on success its count is the reference count of the C string, every token is closed, matches the pattern text and comes in document order; any result but NOMEM is the pool count from an empty stack, and NOMEM cannot happen when that count fits |
| Jsmn.NestedArraysCount | src/jsmn.c:577-580 | the 27-byte text "[1, [2, [3, [4], 5], 6], 7]" of the parsing test counts 11 tokens, as that test expects |
| Jsmn.PoolOpenArray | src/jsmn.c:212-237 | with a token array, a '[' pushes an array on the stack and is counted |
| Jsmn.PoolCloseArray | src/jsmn.c:266-291 | with a token array, a ']' on an open array pops it and is not counted |
| Jsmn.NestedArraysPoolCount | src/jsmn.c:577-580 | with a token array, too, that text counts 11 tokens: every ']' meets its own '[' and nothing is left open |
| Jsmn.ParseNestedArrays | src/jsmn.c:577-580 | the test itself: on a text with the bytes of that test, a fresh parser with room for the tokens returns 11, every token closed and inside the text |
| Jsmn.PatternMatches | src/jsmn.c:406-442 | corrected: true exactly when the counts agree (or the text has at least as many tokens with extras allowed) and each pattern token matches the text token at its index |
| Jsmn.StrnEqAt | src/jsmn.c:433-434 | strncmp's loop: equal up to n bytes or up to a NUL both share |
| Jsmn.MatchesItself | src/jsmn.c:406-442 | any text matches the pattern made of its own tokens |
| Jsmn.StrnEqRefl | src/jsmn.c:433-434 | a range of bytes compares equal to itself |
| Jsmn.StrnEqOfEqual | src/jsmn.c:433-434 | equal bytes compare equal under strncmp |
| Jsmn.PatternMatchesOverreads | src/jsmn.c:415-441 | with extras allowed, the loop as written reads pattern tokens past the pattern's count and can reject a text the pattern accepts |
| TstatModel.StrnEqLitPrefix | src/tstat_model.c:251-257 | on bytes without a NUL, strncmp against a literal over n bytes is "is a prefix of the literal" |
| TstatModel.TokenPrefix | src/tstat_model.c:251-257 | comparing over a token's length tests whether its text is a prefix of the name |
| TstatModel.TokenStreq | src/tstat_model.c:251-257 | token_streq is true exactly for a string token whose text is a prefix of the name |
| TstatModel.BoolValue | src/tstat_model.c:267-281 | a primitive reads as true when its text is a prefix of "true", as false when it is a prefix of "false" only, and as nothing otherwise |
| TstatModel.EnumValue | src/tstat_model.c:283-293 | the value of the first name the token's text is a prefix of, or nothing exactly when there is no such name |
| TstatModel.UpdateInt | src/tstat_model.c:259-265 | fails on a non-primitive; otherwise stores atoi of the text from the token on |
| TstatModel.UpdateBool | src/tstat_model.c:267-281 | stores BoolValue when there is one, else fails with the destination unchanged |
| TstatModel.UpdateEnum | src/tstat_model.c:283-293 | stores the first matching name's value when there is one, else fails with the destination unchanged |
| TstatModel.KeyFieldFirstMatch | src/tstat_model.c:120-155 | a key selects a field exactly when it is a string whose text is a prefix of that field's name and of no name tested earlier |
| TstatModel.ApplyPair | src/tstat_model.c:116-155 | a pair applies only when its key is a string |
| TstatModel.ParsedInText | src/tstat_model.c:104-105 | the tokens jsmn returns lie inside the JSON text |
| TstatModel.Model.SetCoolSetpoint | src/tstat_model.c:191-193 | sets the cooling setpoint and nothing else |
| TstatModel.Model.SetHeatSetpoint | src/tstat_model.c:199-201 | sets the heating setpoint and nothing else |
| TstatModel.Model.SetRelayY | src/tstat_model.c:205-207 | sets relay Y and nothing else |
| TstatModel.Model.SetRelayW | src/tstat_model.c:211-213 | sets relay W and nothing else |
| TstatModel.Model.SetSystemMode | src/tstat_model.c:219-221 | sets the system mode and nothing else |
| TstatModel.Model.StorePair | src/tstat_model.c:120-155 | the first field the key selects is updated from the value; on a failed update nothing changes |
| TstatModel.Model.StorePairs | src/tstat_model.c:116-157 | the loop over the pairs leaves the settings and result LoadPairs gives |
| TstatModel.Model.LoadJson | src/tstat_model.c:99-158 | the token count is jsmn's count of the text (or its error), and unless the 13 tokens run out it is the pool count, so a text with a mismatched or unclosed bracket is rejected; a text whose pool count fits in 13 does not run out; and the record and result are Load's: NULL on an unparsable text, a non-object, an even count, a non-string key or a rejected value |
| TstatModel.LoadRejectsShape | src/tstat_model.c:106-115 | no tokens, a first token that is not an object, or an even count gives NULL and leaves the record alone |
| TstatModel.LoadPairsOkKeys | src/tstat_model.c:120-123 | every key slot of a successful walk holds a string |
| TstatModel.LoadOkShape | src/tstat_model.c:106-123 | a document that loads is an object of an odd number of tokens whose keys are all strings |
| TstatModel.UnknownKeysIgnored | src/tstat_model.c:153-155 | string keys naming no field leave the record as it was, and the load succeeds |
| TstatModel.ApplyPairFrame | src/tstat_model.c:124-155 | a pair touches no field but the one its key selects |
| TstatModel.UnnamedFieldKept | src/tstat_model.c:116-157 | a field that no key selects keeps its value, whether the load succeeds or not |
| TstatModel.EarlierWritesSurviveFailure | src/tstat_model.c:116-157 | a failing pair does not undo the fields earlier pairs wrote |
| TstatModel.AbbreviatedKeySelectsAmbient | src/tstat_model.c:124-127 | every prefix of "ambient", the empty key included, selects ambient |
| TstatModel.RelayWNeedsFullName | src/tstat_model.c:136-143 | relay_w is selected exactly by its full name, since its shorter prefixes also match relay_y, which is tested first |
| TstatModel.BoolSpellings | src/tstat_model.c:267-281 | "true" and "t" read as true, "false" and "f" as false |
| TstatModel.SystemModeToStringAsWritten | src/tstat_model.c:233-247 | as written, HEAT's name differs from the intended one; the other modes agree |
| TstatModel.SystemModeToString | src/tstat_model.c:233-247 | corrected: each mode's name from the loader's table, "UNKNOWN" otherwise |
| TstatModel.ModeNameRoundTrip | src/tstat_model.c:144-151 | update_enum reads each corrected mode name back as its mode, and "UNKNOWN" as nothing |
| TstatModel.HeatNameDoesNotRoundTrip | src/tstat_model.c:243 | the name written for HEAT is one update_enum rejects |
| TstatLogic.Control | src/tstat_logic.c:50-73 | OFF drops both relays; COOL calls for cooling exactly while the ambient is above the cooling setpoint; HEAT calls for heat exactly while it is below the heating setpoint; other modes keep the relays; nothing but the relays changes |
| TstatLogic.UpdateModel | src/tstat_logic.c:50-73 | model_out becomes Control of model_in, model_in is unchanged, and model_out is returned |
| TstatLogic.NeverHeatAndCool | src/tstat_logic.c:55-70 | in a known mode, heating and cooling are never called for at once |
| TstatLogic.ControlIdempotent | src/tstat_logic.c:50-73 | updating an updated model changes nothing |
| TstatLogic.ControlIgnoresOldRelays | src/tstat_logic.c:55-70 | in a known mode, the relays before the update play no part in it |
| TstatLogic.NoCallInsideSetpoints | src/tstat_logic.c:55-70 | with the ambient between the setpoints no relay is energised |
| TstatLogic.DemonstrationSequence | src/tstat_logic.c:88-132 | the file's own sequence: OFF de-energises both relays, COOL energises Y only, HEAT energises W only |

Proof helpers have contracts but model no source lines of their own, so they have no row:
`Jsmn.InBoundsWeaken`, `Jsmn.GrowsTrans`, `Jsmn.Plus1`, `Jsmn.OpenKindsNoneAbove`, `Jsmn.PooledStepped`, `Jsmn.TallyStep`, `Jsmn.NestedArraysBytes`, `Jsmn.PoolSkip`, `Jsmn.PoolDigit`, `Jsmn.NestedArraysPoolFrom0`, `Jsmn.NestedArraysPoolFrom4`, `Jsmn.NestedArraysPoolFrom8`, `Jsmn.NestedArraysPoolFrom12`, `Jsmn.NestedArraysPoolFrom16`, `Jsmn.NestedArraysPoolFrom20`, `Jsmn.NestedArraysPoolFrom24`, `MuMqueue.ModAdd`, `MuSched.EntryAfterInsert`, `MuSched.InsertAtSlot`, `MuSched.SplitAt`, `MuSched.DropAt`, `MuSched.RemoveStep`, `MuStr.SubSlice`, `MuStr.ModAffine`, `MuStr.ModShift`, `MuStr.ModUnique`, `MuStr.MulAtLeast` and `TstatModel.SameAtTrans`. The predicates and specification functions the rows use, such as `Jsmn.PoolOk`, `Jsmn.Stepped` or `MuStr.TrimLeft`, are definitions without contracts of their own.

## Left out

- Platform clock, `mu_time_now` and `mu_time_init`: the clock is the scheduler's `clock` field, the platform clock's reading is a parameter of the constructor and of `Init` (which reinstall it), and `SetClock` replaces it as the tests do.
- `mu_time_rel_to_s`, `mu_time_s_to_rel`: floating point.
- MuTime.RelToMs: requires dt * 1000 to fit in int64_t, because the C product overflows otherwise (undefined behaviour).
- `mu_spsc.c` is not part of this model. MuSpsc models only its observable FIFO from the tests, not its lock-free index arithmetic.
- Interrupts and concurrency: the queue filled from interrupt level is modelled as a sequential queue.
- What task functions do: a task run is an event in a ghost trace. A timer's task runs `Timer.Expire` only in `MuTimerScenarios.StepAndDispatch`.
- `mu_task_get_fn`, `mu_task_get_state`, `mu_task_get_user_info`, `mu_task_current_task`, the scheduler's getters and `mu_mqueue_capacity` / `count` / `is_empty` / `is_full` are plain field reads. They are functions without contracts of their own.
- The `#if 0` alternative `mu_sched_remove_deferred_task` (mu_sched.c:206-229) is never compiled.
- MuSched.InsertKeepsSorted: holds only when all times lie within half the clock range of a base. Beyond that the source's ordering is not transitive (MuTime.FollowsNotTransitive).
- `mu_str` `_cstr` variants (`compare_cstr`, `has_prefix_cstr`, `has_suffix_cstr`, `find_cstr`, `rfind_cstr`): they are the view operations applied to `init_cstr`'s view.
- The predicate's `void *arg`: predicates are Dafny functions with any argument bound in.
- MuStr.Str.ParseSigned: signed overflow in the int, int32_t and int64_t parsers (mulib/core/mu_str.c:259, 276-284) is undefined behaviour in C; the model reads it as a two's complement wrap, as the unsigned parsers do by definition.
- MuStr.Str.Compare, MuStr.Str.Find, MuStr.Str.RFind, MuStr.Str.ToCstr: require views shorter than 2^31 bytes, because their loops count with C `int`.
- MuStr.Str.LTrim, MuStr.Str.RTrim, MuStr.Str.Trim: require views shorter than PTRDIFF_MAX bytes. The match index they find (a `size_t`, mulib/core/mu_str.c:188, 201) is passed to mu_str_slice as a `ptrdiff_t` (mulib/core/mu_str.c:111-112), where PTRDIFF_MAX itself is reserved for MU_STR_END and MU_STR_NOT_FOUND (mulib/core/mu_str.h:51-52).
- MuStr.SliceBounds, MuStr.Str.Slice: a start below -len is excluded, because the C then forms a pointer before the buffer.
- The duplicate `mu_str_parse_int` definition: both macro instantiations are modelled once, as ParseSigned at int width.
- `mu_str_parse_http_params` and the in-file tests other than the rtrim one: not modelled.
- jsmn's JSMN_STRICT and JSMN_PARENT_LINKS builds: only the default build is modelled. `jsmn.h` is not part of this model; the token fields follow `jsmn.c`.
- Jsmn.Parser.Parse: the child counts (`size`) are stated only to grow, not to equal the number of children.
- Jsmn.Parser.Parse: which token is which in a given text is not derived. For "[1, [2, [3, [4], 5], 6], 7]" the model proves that a fresh parser with room for the tokens returns 11 (`ParseNestedArrays`), that the tokens are closed, in document order and that each span agrees with the text, but not the exact list of types and spans that the test at src/jsmn.c:581-602 checks. Nor is it stated that a child's span lies inside its parent's.
- TstatModel.Model.LoadJson: because token identity is not derived, it is not proved that the record at src/tstat_logic.c:93-96 loads. What is proved is that the result is Load's on the tokens jsmn produced, and how many tokens there are.
- Jsmn.Parser.Parse: the `int` token counter's overflow is not modelled.
- jsmn's test harness and `main`: not modelled.
- `tstat_model_dump_json`: writes through the jems JSON writer, which is not part of this model.
- `atoi` is libc's: it is a parameter of the loader.
- `tstat_model_get_ambient` and the other getters: field reads. There is no ambient setter, because the C has none.
- `tstat_logic.c`: the body reads an undeclared `model`. It is read as `model_in`, and the `model_set_*` / `model_get_*` calls as the `tstat_model_*` accessors. The source shows no other way to read them.
- TstatLogic.UpdateModel: requires model_in and model_out to be different records, because the C copies with memcpy, which forbids overlap.
- Application glue (`tstat_app`, `model_iface`, `coms_*`, `task_info`), `mu_log`, `mu_access_mgr` and the `chaff/` files: outside the core.

## Findings

| source | as written | input that shows it | evidently intended | confidence | as-written member | corrected member |
|---|---|---|---|---|---|---|
| mulib/core/mu_str.c:218-225 | rtrim slices to the index of the last failing byte, exclusive, so that byte is lost | "  abcde  " with the whitespace predicate gives "  abcd" | keep up to and including the last failing byte, "  abcde", the text the test at mu_str.c:766-768 names; that test does not catch the loss, because its `cstr_eq` (mu_str.c:459-462) compares only the view's 6 bytes, and "  abcd" agrees with "  abcde" on those | not executed | MuStr.RTrimAsWrittenLosesByte, MuStr.RTrimAsWrittenExample | MuStr.Str.RTrim, MuStr.TrimRightRemovesTrailingRun |
| mulib/core/mu_str.c:344-377 | the scan bound `haystack_len - needle_len` is a size_t difference, which wraps when the needle is longer than the haystack, so the scan reads past the view | view "a" over the buffer "ab", needle "ab": found at 0 | a needle longer than the haystack is not found | not executed | MuStr.FindAsWrittenOverreads | MuStr.Str.Find |
| src/jsmn.c:406-442 | the comparison loop runs to the text's count, so with extras allowed it reads pattern tokens past pattern's count | text "[1,2]", pattern "[1]" with a stale string token in the pattern array's third slot: rejected | compare only the pattern's tokens | not executed | Jsmn.PatternMatchesOverreads | Jsmn.PatternMatches |
| src/tstat_model.c:233-247 | HEAT's name is spelled "SYSTEM_MDOE_HEAT" | SYSTEM_MODE_HEAT; the loader then rejects that name | "SYSTEM_MODE_HEAT", the name the loader's table uses | not executed | TstatModel.SystemModeToStringAsWritten, TstatModel.HeatNameDoesNotRoundTrip | TstatModel.SystemModeToString, TstatModel.ModeNameRoundTrip |
