# Models of the gateway's schedulers, injector and protocols

This project models the concurrent and stateful cores of the BeeeOn gateway and proves what they keep over
every run. `dafny verify dfyconfig.toml` checks all of it.

| File | What it models |
|---|---|
| `Basics.dfy` | an optional value, and single insertions into and removals from sequences |
| `WorkOrder.dfy` | the ordering of scheduled works, as written and as documented, and where a search tree puts a key |
| `WorkQueue.dfy` | the queue as an abstract value: active works in order, works waiting for an event, and the operations as a transition relation |
| `QueueIndex.dfy` | the two linked indexes of the queue and how they represent that value |
| `Scheduler.dfy` | `BasicQueue` and `BasicProcessor` as classes, each method proved against `WorkQueue` |
| `BlockingPop.dfy` | the blocking `pop()` and its event, interleaved with any number of producers and a clock |
| `WorkExecution.dfy` | one work with its three locks, runners, dispatchers, cancels and wakeups, step by step in any interleaving |
| `Injection.dfy` | the dependency injector as a function over its state |
| `InjectionProofs.dfy`, `InjectionOrder.dfy`, `InjectionCalls.dfy` | what a call registers; that done hooks run once, and what a failed call leaves; which calls each object gets and in what order the hooks run |
| `InjectionRuns.dfy` | early creation, and runs of any calls after it, failing ones included |
| `InjectionSuccess.dfy` | when a call succeeds |
| `DependencyInjection.dfy` | the injector as a class, proved against that function; its odd cases |
| `Damm.dfy`, `GatewayId.dfy` | the check digit, and the printing and parsing of gateway identifiers |
| `AnswerNotification.dfy`, `Answers.dfy`, `CommandCounting.dfy` | answers, results, the answer queue and the command dispatcher, as classes and as interleaved steps |
| `AsyncExecution.dfy` | the asynchronous executor's queue, event and stop flag |
| `DeviceManagerTable.dfy` | the 8-bit identifier allocator |
| `Collector.dfy` | the nested index of samples against the flat log of exports |

How the parts fit. A class method is proved equal to, or an instance of, a function or relation on values
(`Pushed`, `PopFast`, `Create`, `Registered`, `Series`, ...). What that function or relation means is then
proved by lemmas, over single steps and over whole runs. Code in which other threads may act between two
statements (the loops of `pop()`, `AnswerQueue::wait()` and `AsyncExecutor::run()`, and the runner's
protocol with the work's locks) is a relation with one step for each stretch that a lock makes atomic; the
results about it hold for every run, that is, every interleaving. Time is an input that never runs backward.

What the proofs show about the code where it departs from its comments:

- The comment on the ordering (`base/src/work/BasicQueue.h:28-32`) describes a lexicographic order. The
  operator below it lacks the branch for a later interval and therefore is no strict weak order as soon as one
  of two keys has both the later interval and the higher priority (`LessIsStrictWeakIff`). Such keys can make
  a due work wait without bound (`UnboundedInversion`), and some order of inserting them leaves the index out of
  order whatever shape its tree takes (`EveryHistorySortedIff`); without them the inversion is below 5 seconds
  (`BoundedInversion`).
- Cancelling a work that waits for an event erases the end of the active index
  (`base/src/work/BasicQueue.cpp:138-140`), which is undefined. `BasicQueue.Cancel` is defined exactly when
  the work is not of that kind; `CancelAfterPushIff` says for which pushes that is.
- A cancel is final if and only if no dispatch or runner was already past its last look at the work's state
  (`CancelIsFinalIff`); a work that has only been popped is still stopped by it.
- `notify()` is documented to make a blocking `pop()` return NULL (`base/src/work/BasicQueue.h:106-117`). As long
  as nothing comes due it does so if and only if `pop()` was waiting without a deadline (`NotifyInterruptsIff`),
  because the result of `tryWait` asks for blocking again exactly when the event arrived.
- Early creation makes a second object for a name that is registered already (`EarlyDuplicatesIff`): for just
  those early instances that an earlier one reaches (`EarlySecondObjectIff`).
- A failed `create()` leaves an object registered that is not done if and only if the name stands for an instance
  of a known class (`FailureLeavesUndoneIff`; `FailureStaysRegistered` is the smallest case).
- An alias is documented to name an existing instance (`base/src/di/DependencyInjector.h:46-48`). In every run,
  what `create()` registers is what the configuration says if and only if this is so: no alias refers to an
  instance of a known class that is itself an alias of another, and no early instance is an alias of another
  (`AlwaysExactIff`; `AmbiguousNameIsMissed` is a call that goes wrong). An alias that merely shadows an instance
  does no harm.
- An executor may schedule, wake up or cancel its own work while it executes it, since the execution lock is
  recursive. The work stays EXECUTED if and only if it does not (`ExecutionIsExclusive`).
- Unregistering from the middle of the device manager table makes the next two registrations collide
  (`NextTwoDistinctIff`).
- `AnswerQueue::wait()` is documented to return whether the event was signalled
  (`src/core/AnswerQueue.h:27-31`). It returns true if and only if its last listing took the mark off some
  answer, whatever the event is (`ReturnsTrueIff`, `TrueIffDirtyAtStart`): `TrueWithoutEvent` is a run where it
  returns true and nothing was signalled meanwhile, `EventWithoutTrue` one where it consumes an event and returns
  false.

## Model

| member | source | states |
|---|---|---|
| WorkOrder.LessIsDocLessUnlessInverted | base/src/work/BasicQueue.h:28-47 | the written comparison agrees with the documented order on a pair unless the first key has both the later interval and the higher priority; on such a pair each key is below the other |
| WorkOrder.DocLessIsStrictWeak | base/src/work/BasicQueue.h:28-32 | the documented order is a strict weak order on every set of keys |
| WorkOrder.LessIsStrictWeakIff | base/src/work/BasicQueue.h:33-54 | the written comparison is what a multimap requires on exactly the key sets without an inverted pair |
| WorkOrder.OnePriorityOrOnePeriod | base/src/work/BasicQueue.h:33-47 | the written comparison is a strict weak order on any set of keys that share one priority or one interval |
| WorkOrder.PeriodIsFiveSeconds | base/src/work/BasicQueue.h:24-37 | from the epoch on, the intervals are the five-second ones |
| WorkOrder.PeriodSpan | base/src/work/BasicQueue.h:24-37 | two times of one interval are less than 5 s apart from the epoch on, and less than 10 s around it, where division truncates toward zero |
| WorkOrder.SlotIsUpperBound | base/src/work/BasicQueue.cpp:54 | among keys that never invert, a search tree attaches a new key exactly after all that are not above it |
| WorkOrder.BuiltKeepsKeys | base/src/work/BasicQueue.cpp:54 | whatever the comparison does, a tree holds exactly the keys inserted, each as often |
| WorkOrder.BuiltPair | base/src/work/BasicQueue.h:33-47 | of an inverted pair the later key, inserted second, is put in front |
| WorkOrder.PairStaysMisplaced | base/src/work/BasicQueue.cpp:54 | whatever is inserted after an inverted pair, and whatever shape the tree takes, the later key stays in front of the other |
| WorkOrder.InversionMisplaces | base/src/work/BasicQueue.h:33-54 | any collection of keys with an inverted pair has an order of insertion after which every tree is out of the documented order |
| WorkOrder.EveryHistorySortedIff | base/src/work/BasicQueue.h:28-54 | the active index ends in the documented order for every order of insertion if and only if no two keys invert; otherwise some order of insertion leaves it out of order in every shape its tree may take |
| WorkQueue.PushMeaning | base/src/work/BasicQueue.cpp:63-113 | after a push the work is active under its activation time and priority and no other key if it has a time, event-waiting if not, and all other works keep their entries and order |
| WorkQueue.PushKeepsWf | base/src/work/BasicQueue.cpp:63-113 | a push leaves each work held at most once |
| WorkQueue.CancelMeaning | base/src/work/BasicQueue.cpp:130-144 | a defined cancel leaves the work in neither index and all other works as they were |
| WorkQueue.CancelAfterPushIff | base/src/work/BasicQueue.cpp:130-144 | right after a push, cancelling is defined exactly when the work has an activation time, and then undoes the push |
| WorkQueue.StepKeepsOrder | base/src/work/BasicQueue.cpp:45-166 | every push, cancel and pop keeps the active works in the documented order, insertion order among equals, while no two keys invert |
| WorkQueue.RunKeepsWf | base/src/work/BasicQueue.cpp:21-166 | in every run each work is held at most once, active or event-waiting |
| WorkQueue.RunKeepsOrder | base/src/work/BasicQueue.cpp:21-166 | in every run in which no two keys active together invert, the active works stand in the documented order, first activated first among equal keys |
| WorkQueue.DrainAllDue | base/src/work/BasicQueue.cpp:146-200 | popping when all active works are due returns exactly them, empties the active index and leaves the event-waiting works |
| WorkQueue.RunDrainsInOrder | base/src/work/BasicQueue.cpp:146-200 | after any run in which no two keys active together invert, draining when all are due yields every active work, each once, in the documented order with insertion order among equal keys |
| WorkQueue.InOrderUnique | base/src/work/BasicQueue.h:28-32 | given works can stand in the documented order, with insertion order among equal keys, in only one way, so the order of popping is determined |
| WorkQueue.BoundedInversion | base/src/work/BasicQueue.cpp:146-166 | when something is due but the head is too early, the head is in the same interval, of no lower priority, and due in less than 5 s (10 s before the epoch) |
| WorkQueue.UnboundedInversion | base/src/work/BasicQueue.h:33-47 | of any inverted pair pushed in the right order, the due work is not returned before the other is due, however far off that is |
| QueueIndex.OneRecordPerNode | base/src/work/BasicQueue.h:50-68 | each node of the active index is referred to by exactly one record, that of its work |
| QueueIndex.LinkedIsWf | base/src/work/BasicQueue.h:50-68 | linked indexes represent a queue that holds every recorded work and no other, each once |
| QueueIndex.Erased | base/src/work/BasicQueue.cpp:57-61 | erasing a node keeps the indexes linked and removes just that work from the active ones |
| QueueIndex.Emplaced | base/src/work/BasicQueue.cpp:45-55 | a new node, referred to by its work's record, keeps the indexes linked and inserts just that work |
| QueueIndex.Recorded | base/src/work/BasicQueue.cpp:103-109 | a new record without a node makes just that work event-waiting |
| QueueIndex.PushPlaces | base/src/work/Work.cpp:90-102 | pushed with its activation time, a work is event-waiting without a sleep duration and otherwise active under exactly one key: its duration after the time of suspension, or after creation if it was never suspended, with its priority |
| QueueIndex.PoppedHasSlept | base/src/work/BasicQueue.cpp:146-166 | a work that is popped has a duration, and it has passed since the suspension or creation |
| Scheduler.BasicQueue.Activate | base/src/work/BasicQueue.cpp:45-55 | inserts the work at a slot of its key, points its record to the new node, and changes no other record |
| Scheduler.BasicQueue.Deactivate | base/src/work/BasicQueue.cpp:57-61 | removes the work's entry, leaves its record without one, and changes nothing else |
| Scheduler.BasicQueue.Reschedule | base/src/work/BasicQueue.cpp:71-98 | for a recorded work: keeps the entry if its key is unchanged, otherwise replaces or drops it, as `Pushed` says |
| Scheduler.BasicQueue.Enlist | base/src/work/BasicQueue.cpp:99-110 | for an unknown work: a record, with an entry exactly if there is an activation time |
| Scheduler.BasicQueue.DoPushUnfinished | base/src/work/BasicQueue.cpp:63-113 | places the work at its duration after its suspension or creation, under its priority, or among the event-waiting ones, as `Placed` says; sets SCHEDULED and keeps the work object of an existing record |
| Scheduler.BasicQueue.DoPush | base/src/work/BasicQueue.cpp:28-43 | a finished, failed or canceled work leaves both indexes and its state unchanged; any other is pushed |
| Scheduler.BasicQueue.Push | base/src/work/BasicQueue.cpp:21-26 | a finished, failed or canceled work leaves both indexes unchanged, any other is pushed, and the event is set in either case |
| Scheduler.BasicQueue.Wakeup | base/src/work/BasicQueue.cpp:115-128 | an unknown work changes nothing; a held one is due at its suspension or creation time unless it is done, and the event is set |
| Scheduler.BasicQueue.Cancel | base/src/work/BasicQueue.cpp:130-144 | defined exactly when the work is not event-waiting, and then removes it from both indexes; the event is set if it was held |
| Scheduler.BasicQueue.PopFast | base/src/work/BasicQueue.cpp:146-166 | returns the head if it is due, its time if it is early, a time before now if there is none; removes a returned work from both indexes |
| Scheduler.BasicQueue.PopReady | base/src/work/BasicQueue.cpp:168-200 | the non-blocking pop returns the head's work exactly when it is due |
| Scheduler.BasicProcessor.Cancel | base/src/work/BasicProcessor.cpp:307-324 | a defined cancel ends with the work CANCELED and in neither index |
| Scheduler.BasicProcessor.InitQueue | base/src/work/BasicProcessor.cpp:91-118 | after loading, exactly the works that were idle or scheduled have been added; executed ones are failed, done ones untouched |
| Scheduler.BasicProcessor.Dispatch | base/src/work/BasicProcessor.cpp:180-230 | a popped work that is done or finished is skipped; any other goes to the first executor that accepts it, and fails if none does |
| BlockingPop.RoundedUp | base/src/work/BasicQueue.cpp:222-223 | the sleep in milliseconds covers the microseconds left and exceeds them by less than one millisecond |
| BlockingPop.RunKeepsInv | base/src/work/BasicQueue.cpp:168-241 | the invariant that ties the consumer's position, the event and the head of the queue holds in every run |
| BlockingPop.NoLostWakeup | base/src/work/BasicQueue.cpp:168-241 | in every interleaving, with the event unset and no producer about to set it, a consumer waiting without deadline faces an empty active index, a sleeping one sleeps for the present head, and its sleep never ends early |
| BlockingPop.NeverEarly | base/src/work/BasicQueue.cpp:168-200 | in every run a returned work is due |
| BlockingPop.NotifyInterruptsIff | base/src/work/BasicQueue.h:106-117 | on every path on which nothing comes due and nobody signals again, a notified `pop()` gets, in three steps of its own, to where it returns no work if and only if it waited without a deadline; otherwise it never returns and waits again for the present head |
| BlockingPop.WokenPopsHead | base/src/work/BasicQueue.cpp:168-200 | when the head is due, a consumer woken by the event and left alone returns it |
| BlockingPop.TimeoutPopsHead | base/src/work/BasicQueue.cpp:173-199 | when a timed wait runs out and the head is due, the consumer looks again and returns it |
| BlockingPop.TimeoutWithoutDue | base/src/work/BasicQueue.cpp:173-199 | when nothing is due, it returns no work and leaves the queue alone |
| BlockingPop.QuietTimeoutPopsDeadline | base/src/work/BasicQueue.cpp:221-233 | in every run, a sleeper whose wait runs out with no signal pending returns the head that it slept for |
| BlockingPop.NoSecondBlock | base/src/work/BasicQueue.cpp:168-236 | in every interleaving, a `pop()` whose timed wait has run out, or whose untimed wait has been ended by the event, does not block again before it returns |
| WorkExecution.PushMovesPlace | base/src/work/BasicQueue.cpp:63-113 | a push into the queue makes the work active or, without a time, event-waiting, and moves no other work |
| WorkExecution.ScheduleFollowsQueue | base/src/work/BasicQueue.cpp:28-43 | the scheduling step of this model puts the work where the queue's push of it does and sets SCHEDULED; a work that is done is left alone by both |
| WorkExecution.WakeupFollowsQueue | base/src/work/BasicQueue.cpp:115-128 | the wakeup step ends the sleep and puts the work where the queue's push does, among the active ones |
| WorkExecution.CancelFollowsQueue | base/src/work/BasicProcessor.cpp:307-324 | the cancel step is undefined exactly when the queue's is, and otherwise takes the work out and sets CANCELED |
| WorkExecution.PopFollowsQueue | base/src/work/BasicQueue.cpp:146-166 | the step in which dispatch takes the work is the queue's pop of it |
| WorkExecution.PlaceUnderLock | base/src/work/BasicProcessor.cpp:277-324 | the work's place in the queue changes only under the queue lock |
| WorkExecution.CancelMovesPlace | base/src/work/BasicQueue.cpp:130-144 | a cancel is defined exactly unless the work is event-waiting, takes it out of the queue and moves no other |
| WorkExecution.PopMovesPlace | base/src/work/BasicQueue.cpp:146-166 | a returned work was active and is out of the queue; no other work moves |
| WorkExecution.StepWrites | base/src/work/WorkAccess.cpp:90-105 | only the holder of the execution lock changes any field of the work |
| WorkExecution.RunKeepsInv | base/src/work/WorkAccess.cpp:9-28 | in every run the positions of all activities agree with who holds the queue, access and execution locks, and during an execution the work is EXECUTED unless its own executor has changed that |
| WorkExecution.ExecutionIsExclusive | base/src/work/GenericWorkRunner.cpp:96-128 | in every run at most one runner is between prepare and the end of the execution, no other activity's step changes the work's fields, and the work is EXECUTED throughout if and only if its executor has not itself scheduled, woken up or canceled it |
| WorkExecution.DispatchGoesOnIff | base/src/work/BasicProcessor.cpp:192-205 | dispatch goes on with a popped work if and only if it has no finish time and is neither finished, failed nor canceled |
| WorkExecution.EndsAs | base/src/work/GenericWorkRunner.cpp:46-72 | a runner whose executor has returned or thrown ends with the work FINISHED or FAILED, changed in nothing else but the finish time, and the execution lock free |
| WorkExecution.SuspendsAs | base/src/work/GenericWorkRunner.cpp:28-44 | a runner whose executor suspends, left alone, ends with the work SCHEDULED, with the duration and the time of suspension, active or event-waiting accordingly, and all locks free |
| WorkExecution.NegativeSuspendIsLost | base/src/work/Work.cpp:121-129 | a negative duration ends the runner and leaves the work as it was |
| WorkExecution.OperationStarts | base/src/work/BasicProcessor.cpp:277-324 | an operation on the queue that nobody interleaves with takes the queue lock, and is over with nothing changed if it wakes up a work that is not there |
| WorkExecution.OperationPerforms | base/src/work/WorkAccess.cpp:90-105 | otherwise it takes access and execution lock, has its effect on the work and its place, and gives all locks back |
| WorkExecution.OwnPerforms | base/src/work/Work.h:109-121 | the same for an operation that an executor calls on its own work through the recursive lock, after which the execution goes on |
| WorkExecution.AssignSets | base/src/work/Work.cpp:57-208 | a setter changes the fields it sets, and neither the state of the work nor its place |
| WorkExecution.SettledForGood | base/src/work/BasicProcessor.cpp:277-324 | a work that is canceled, out of both indexes and not in flight stays so on every path |
| WorkExecution.CancelOutlastsReschedule | base/src/work/GenericWorkRunner.cpp:28-44 | however a cancel interleaves with a runner that has interrupted and reschedules, the work stays CANCELED and in neither index, unless it was event-waiting, where the erase is undefined |
| WorkExecution.ExecutesAnyway | base/src/work/GenericWorkRunner.cpp:96-128 | a runner already under way executes the work, and a pending refusal fails it, whatever its state has become |
| WorkExecution.CancelIsFinalIff | base/src/work/BasicProcessor.cpp:180-230 | after a cancel the work stays canceled on every path if and only if no dispatch or runner was already past its last look at the state |
| Injection.Create | base/src/di/DependencyInjector.cpp:134-161 | terminates on every configuration, cyclic ones included, changes no existing registration, and only appends to the objects and calls |
| Injection.CreateNoAlias | base/src/di/DependencyInjector.cpp:172-202 | creating without looking the name up first terminates, changes no existing registration and only appends to the objects and calls |
| Injection.EnabledIff | base/src/di/DependencyInjector.cpp:59-91 | the setters looked at are exactly those whose key starts with set or add, without a condition or with one that is y, yes or true, and that name a property |
| Injection.InjectSetter | base/src/di/DependencyInjector.cpp:204-294 | injecting one setter terminates, changes no existing registration and only appends to the objects and calls |
| InjectionSuccess.CreateSucceedsIff | base/src/di/DependencyInjector.cpp:134-340 | a call, disowning or not, succeeds if and only if the name is registered, or stands, not for itself as an alias, for a registered name or for a configured instance such that every instance reached from there through names not registered has a known class, a done hook and effective setters that do not throw, and references that are answered in the same sense |
| InjectionSuccess.FeasibleSucceeds | base/src/di/DependencyInjector.cpp:134-340 | on any configuration and from any state that condition is enough for success |
| InjectionSuccess.PlainReferencesWhen | base/src/di/DependencyInjector.h:46-48 | the assumption of the equivalence holds when no alias refers to a creatable instance that is an alias itself and registered names are no aliases of others |
| InjectionSuccess.RefusedOutright | base/src/di/DependencyInjector.cpp:41-51 | an unregistered alias of itself is refused, a name that stands for nothing creatable is not found, and neither changes anything |
| InjectionSuccess.FailsByItself | base/src/di/DependencyInjector.cpp:317-337 | a setter that throws ends the call at that point with its failure, a done hook that throws after all setters |
| Injection.InjectFrom | base/src/di/DependencyInjector.cpp:296-340 | injecting the rest of the setters and calling the done hook terminates, changes no existing registration and only appends |
| InjectionProofs.CreateAllocates | base/src/di/DependencyInjector.cpp:134-186 | successful or not, a call gives every new name a wrapper of its own, every new wrapper a name, and lists exactly the new wrappers for release |
| InjectionProofs.CreateCloses | base/src/di/DependencyInjector.cpp:204-236 | after a successful call every effective reference of every new instance is registered |
| InjectionProofs.CreateReaches | base/src/di/DependencyInjector.cpp:204-236 | even a failing call registers only names that are reachable from what the requested one stands for, each reference followed to what `create()` makes of it |
| InjectionProofs.CreateNames | base/src/di/DependencyInjector.cpp:134-161 | a call registers only instances of known classes, under names that are no alias or that an alias refers to |
| InjectionRuns.AlwaysExactIff | base/src/di/DependencyInjector.cpp:134-186 | in every run after construction, failing calls included, every successful call registers exactly the resolved name and all that is reachable from it through names not registered, one alias step for each reference, and returns the resolved name's wrapper, and every disowned object is kept out while exactly what it reaches is registered, if and only if no alias refers to an instance of a known class that is an alias of another and no early instance is one |
| InjectionRuns.StaysClearWhen | base/src/di/DependencyInjector.h:46-48 | that no registrable or registered name that an instance refers to is an alias of another is guaranteed by the absence of alias chains, and also when no instance refers to a shadowed instance |
| InjectionRuns.ReferencesStayClear | base/src/di/DependencyInjector.cpp:134-186 | this, checked before a call, holds of all names registered after it |
| InjectionProofs.NoAliasWrapper | base/src/di/DependencyInjector.cpp:172-186 | the object made for a new name is the one registered under it |
| InjectionOrder.CreateFinishes | base/src/di/DependencyInjector.cpp:296-340 | during a successful call done runs for exactly the new objects, once each, and nothing is injected into an object after it |
| InjectionOrder.CreateKeepsReady | base/src/di/DependencyInjector.cpp:134-161 | successful calls leave everything registered done |
| InjectionOrder.DisownKeepsReady | base/src/di/DependencyInjector.cpp:134-186 | successful calls with disown leave everything registered done, too |
| InjectionOrder.DoneExactlyOnce | base/src/di/DependencyInjector.cpp:328-339 | the done hook of each newly registered instance runs exactly once, whatever the shape of the graph |
| InjectionOrder.FailureLeavesUndoneIff | base/src/di/DependencyInjector.cpp:172-202 | a failed call leaves something registered that is not done if and only if what the name stands for is an instance of a known class (and no alias of itself); otherwise it changes nothing; the undone object is what the next call of the name returns |
| InjectionOrder.CreateBacked | base/src/di/DependencyInjector.cpp:204-236 | each injected reference follows a configured reference, by one alias step at most |
| InjectionCalls.CallsAreConfigured | base/src/di/DependencyInjector.cpp:276-340 | after a successful call the object of every new name has got exactly the calls its effective setters ask for, one each and in the order of the configuration, then done, and no other |
| InjectionCalls.ReferencesAreInjected | base/src/di/DependencyInjector.cpp:204-236 | every effective reference configured for a new instance has been injected, as the object registered for what it refers to |
| InjectionCalls.AcyclicDoneOrder | base/src/di/DependencyInjector.cpp:172-186 | on any configuration, when the names that references can come to make no cycle, the done hook of every new instance runs after those of all it refers to |
| InjectionCalls.DoneOrderIff | base/src/di/DependencyInjector.cpp:172-186 | the done hooks run in that order if and only if no name reached from the requested one through names not registered is on a cycle of references, provided that no registered name that an instance refers to is an alias of another |
| DependencyInjection.DependencyInjector.Create | base/src/di/DependencyInjector.cpp:134-161 | the object's fields and result become what `Injection.Create` says |
| DependencyInjection.DependencyInjector.CreateNoAlias | base/src/di/DependencyInjector.cpp:172-202 | the object's fields and result become what `Injection.CreateNoAlias` says |
| DependencyInjection.DependencyInjector.InjectDependencies | base/src/di/DependencyInjector.cpp:296-340 | the loop over the setters and the done hook compute `InjectFrom` |
| DependencyInjection.DependencyInjector.InjectValue | base/src/di/DependencyInjector.cpp:276-294 | the effect of one setter, a reference before a number before a text, is `InjectSetter`, whose outcome `CreateSucceedsIff` and `CallsAreConfigured` fix |
| DependencyInjection.DependencyInjector.CreateEarly | base/src/di/DependencyInjector.cpp:112-132 | creates the early instances in order, without lookup, until one fails |
| InjectionRuns.StartsReady | base/src/di/DependencyInjector.h:82-87 | after a successful construction the early instances are registered and everything registered is done |
| InjectionRuns.EarlyDuplicatesIff | base/src/di/DependencyInjector.cpp:129-130 | the object that early creation makes is the registered one if and only if the name was not registered before; otherwise it is a second one, kept for release |
| InjectionRuns.EarlyRegistersReached | base/src/di/DependencyInjector.cpp:112-132 | successful early creation registers exactly the early instances and what they reach by references, all done |
| InjectionRuns.EarlySecondObjectIff | base/src/di/DependencyInjector.cpp:112-132 | in a list of early instances, the object made for one is a second object of its name if and only if an earlier one reaches that name by references |
| Damm.Compute | base/src/util/DAMM.cpp:10-26 | the loop yields the fold of the table along the digits, and fails on any other character |
| Damm.FoldSplit | base/src/util/DAMM.cpp:15-23 | folding a concatenation continues the fold of its first part |
| Damm.RowsAreInjective | base/src/util/DAMM.cpp:28-39 | no row of the table repeats a digit |
| Damm.ColumnsAreInjective | base/src/util/DAMM.cpp:28-39 | no column repeats a digit |
| Damm.AntisymmetricBelow5 | base/src/util/DAMM.cpp:28-39 | two different digits lead elsewhere in the other order, from states 0 to 4 |
| Damm.AntisymmetricFrom5 | base/src/util/DAMM.cpp:28-39 | two different digits lead elsewhere in the other order, from states 5 to 9 |
| Damm.FoldInjective | base/src/util/DAMM.cpp:15-23 | different states stay different along the same digits |
| Damm.CheckDigitIff | base/src/util/DAMM.cpp:10-26 | of the ten digits that may follow a string, exactly the computed one makes the whole fold to zero |
| Damm.SingleErrorDetected | base/src/util/DAMM.cpp:10-39 | one wrong digit anywhere, check digit included, makes a string of any length fail |
| Damm.AdjacentSwapDetected | base/src/util/DAMM.cpp:10-39 | a swap of two adjacent different digits anywhere makes a string of any length fail |
| GatewayId.DecimalOfValue | base/src/model/GatewayID.h:50-53 | printing the number that a digit string without leading zero denotes gives the string back |
| GatewayId.PaddedUnique | base/src/model/GatewayID.cpp:23 | every string of 14 digits is the padded form of its number |
| GatewayId.ConstructedParts | base/src/model/GatewayID.h:38-53 | an identifier made by the constructor prints as version, padded data and check digit, and `version()` and `data()` return the constructor's arguments |
| GatewayId.ConstructInjective | base/src/model/GatewayID.cpp:14-27 | different arguments make different identifiers |
| GatewayId.ConstructAccepts | base/src/model/GatewayID.cpp:14-27 | with data below 10^14 the constructor accepts exactly the versions 1 to 9 and makes identifiers of 16 digits |
| GatewayId.ParseAcceptsIff | base/src/model/GatewayID.cpp:34-67 | `parse` accepts exactly the strings of 16 digits with a non-zero first digit and a correct check digit, and printing its result gives the string back |
| GatewayId.RoundTripIff | base/src/model/GatewayID.cpp:34-67 | a constructed identifier parses back from its text if and only if its data is below 10^14 |
| GatewayId.Random | base/src/model/GatewayID.cpp:69-87 | for versions 1 to 9 and any generated digits the result carries that version and those digits and parses back |
| AnswerNotification.RunKeepsInv | src/core/AnswerQueue.cpp:11-58 | the invariant that ties the waiter's position, the marks and the event holds in every run |
| AnswerNotification.BlockedMeansClean | src/core/AnswerQueue.cpp:11-58 | in every interleaving a waiter blocked on an unset event leaves no queued answer dirty, except one whose notification is under way |
| AnswerNotification.TrueMeansTaken | src/core/AnswerQueue.cpp:11-38 | in every run `wait` returns true only with a list that is not empty, and every answer on it was found dirty and lost its mark |
| AnswerNotification.ListedIffTaken | src/core/AnswerQueue.cpp:27-38 | in every interleaving an answer is on the list if and only if that listing found it dirty and took its mark off |
| AnswerNotification.ReturnsTrueIff | src/core/AnswerQueue.cpp:11-25 | `wait` returns true at the end of a listing, with the answers listed, if and only if the listing took some mark; otherwise it goes on to block |
| AnswerNotification.ListsTheDirty | src/core/AnswerQueue.cpp:27-38 | without a change meanwhile a listing finds exactly the queued answers that were dirty at its start, in queue order, and takes just their marks |
| AnswerNotification.TrueIffDirtyAtStart | src/core/AnswerQueue.cpp:11-25 | such a listing makes `wait` return true, with those answers, if and only if some queued answer was dirty when it began, whatever the event is |
| AnswerNotification.DirtyUntilReported | src/core/AnswerQueue.cpp:27-38 | an answer, once dirty, stays so until a listing reports it |
| AnswerNotification.ChangeIsReported | src/core/Result.cpp:25-58 | every change of a queued answer is reported, by the first full listing that begins after it at the latest |
| Answers.AnswerQueue.ListDirty | src/core/AnswerQueue.cpp:27-38 | returns the dirty answers in the order of the list and leaves none dirty |
| Answers.DirtyAre | src/core/AnswerQueue.cpp:31-37 | that list has exactly the answers of the queue that are dirty |
| Answers.DirtyInOrder | src/core/AnswerQueue.cpp:31-37 | that list is in the order of the queue |
| Answers.AnswerQueue.Remove | src/core/AnswerQueue.cpp:60-67 | removes the first occurrence of the answer and nothing else |
| Answers.Answer.IsPending | src/core/Answer.cpp:61-77 | pending exactly when commands and results differ in number or some result is PENDING |
| Answers.Answer.RunCommands | src/core/Answer.cpp:79-88 | starts the collected commands in order and empties their list |
| Answers.Result.SetStatus | src/core/Result.cpp:25-39 | a status only goes from PENDING to SUCCESS or FAILED and from SUCCESS to FAILED; a change marks the answer and sets the event, anything else leaves both alone |
| Answers.CommandDispatcher.RegisterHandler | src/core/CommandDispatcher.cpp:14-24 | a handler is taken unless it is registered, so handlers stay distinct |
| Answers.CommandDispatcher.Dispatch | src/core/CommandDispatcher.cpp:26-44 | counts one command for each accepting handler, then either starts them all in order or, with nothing pending, marks the answer and starts none |
| Answers.AcceptingAre | src/core/CommandDispatcher.cpp:30-35 | the accepting handlers are the registered ones that accept, each as often as registered |
| Answers.AcceptingInOrder | src/core/CommandDispatcher.cpp:30-35 | they are in the order of registration |
| CommandCounting.NotPendingIff | src/core/CommandDispatcher.cpp:26-44 | in every interleaving after the dispatch, the answer is not pending if and only if every accepting handler has added its result and none is PENDING |
| CommandCounting.NothingRunsWhileCounting | src/core/CommandDispatcher.cpp:30-43 | until all handlers have been asked no command runs and no result exists, and the commands counted are those of the handlers that accepted so far |
| CommandCounting.DispatchMarksIffNoneAccepts | src/core/CommandDispatcher.cpp:37-43 | the dispatch itself marks the answer dirty exactly when no handler accepts |
| CommandCounting.SettledForGood | src/core/Answer.cpp:61-77 | an answer that has stopped being pending never is again |
| CommandCounting.CompletionMarks | src/core/Result.cpp:25-39 | the step with which an answer stops being pending leaves it dirty, so that its completion is reported |
| AsyncExecution.FirstInFirstOut | src/util/AsyncExecutor.cpp:28-61 | in every run, however often stopped and run again, the executed tasks, the one in flight and the queue are together the invoked tasks in order |
| AsyncExecution.NothingSleptThrough | src/util/AsyncExecutor.cpp:35-83 | a runner that waits on the unset event faces neither a task nor a stop request, except one whose event is about to be set |
| AsyncExecution.InvokeAndStop | src/util/AsyncExecutor.cpp:28-33 | an invocation leaves its task at the end of the queue and the event set, a stop the request raised and the event set, and neither touches the rest |
| AsyncExecution.RunnerDrains | src/util/AsyncExecutor.cpp:35-61 | left alone with no stop requested, a runner, be it started again after a stop, executes all queued tasks in order in a bounded number of steps and then waits |
| AsyncExecution.RunnerStops | src/util/AsyncExecutor.cpp:35-61 | left alone after a stop, a runner leaves within five steps and takes the request back; no task is lost and at most one more is executed |
| AsyncExecution.RunnerCanStep | src/util/AsyncExecutor.cpp:35-61 | a runner is held up only by an unset event or the queue lock |
| DeviceManagerTable.Pack | src/model/DeviceManagerID.cpp:30-34 | prefix and ident can be read back from the 16 bits |
| DeviceManagerTable.ZMQDeviceManagerTable.GetFirstEmptyID | src/zmq/ZMQDeviceManagerTable.cpp:42-60 | the loop with its wrapping counter computes `FirstEmpty`, which `WalkTo` and `RegisterContinuesRing` explain |
| DeviceManagerTable.ZMQDeviceManagerTable.RegisterDaemonPrefix | src/zmq/ZMQDeviceManagerTable.cpp:9-40 | appends the new identifier, or refuses and changes nothing when 256 are registered |
| DeviceManagerTable.ZMQDeviceManagerTable.UnregisterDaemon | src/zmq/ZMQDeviceManagerTable.cpp:20-31 | removes the first equal entry and nothing else; an unknown identifier is refused |
| DeviceManagerTable.ZMQDeviceManagerTable.GetAll | src/zmq/ZMQDeviceManagerTable.cpp:67-78 | the loop computes `OfPrefix` |
| DeviceManagerTable.OfPrefixCounts | src/zmq/ZMQDeviceManagerTable.cpp:67-78 | what `OfPrefix` lists has every identifier of the prefix as often as the table and no other |
| DeviceManagerTable.OfPrefixInOrder | src/zmq/ZMQDeviceManagerTable.cpp:67-78 | what `OfPrefix` lists is in the table's order |
| DeviceManagerTable.WalkTo | src/zmq/ZMQDeviceManagerTable.cpp:47-59 | along consecutive idents the counter stops at the first that does not follow, modulo 256 |
| DeviceManagerTable.RegisterContinuesRing | src/zmq/ZMQDeviceManagerTable.cpp:9-60 | on a run of idents that is contiguous modulo 256, a registration continues the run with an ident that nobody has |
| DeviceManagerTable.RemoveKeepsRingIff | src/zmq/ZMQDeviceManagerTable.cpp:20-31 | unregistering leaves a contiguous run if and only if it takes the first or the last entry |
| DeviceManagerTable.RunKeepsDistinct | src/zmq/ZMQDeviceManagerTable.cpp:9-60 | in every run that unregisters only first and last entries all identifiers are distinct |
| DeviceManagerTable.RegisterOnly | src/zmq/ZMQDeviceManagerTable.cpp:33-60 | without unregistration the idents are 0, 1, 2, ...; the 257th registration and all later ones are refused |
| DeviceManagerTable.NextTwoDistinctIff | src/zmq/ZMQDeviceManagerTable.cpp:42-60 | after one entry of a contiguous run has gone, the next two registrations differ if and only if it was the first or the last; otherwise both get its ident |
| Collector.SeriesCounts | src/core/CollectorDataValues.cpp:43-49 | the series of a pair has each stored sample as often as the log has it for that pair, and no other |
| Collector.SeriesInOrder | src/core/CollectorDataValues.cpp:43-49 | the series of a pair is in the order of the log |
| Collector.AppendedKeeps | src/core/DeviceDataCollection.cpp:18-28 | a sample of a known module extends that module's series and nothing else |
| Collector.StartedKeeps | src/core/DeviceDataCollection.cpp:20-24 | a sample of a new module starts its series, so that no module is kept twice |
| Collector.OtherDevicesKeep | src/core/DeviceDataCollection.cpp:13-16 | samples of other devices leave a device's series what they were |
| Collector.DeviceDataCollection.InsertData | src/core/DeviceDataCollection.cpp:13-29 | afterwards the modules kept are those of the log with the new samples, each once, with their subsequence of it; data of another device are ignored |
| Collector.SimpleCollector.OnExport | src/core/SimpleCollector.cpp:31-48 | keeps, for every device and module, the subsequence of the flat log for that pair |
| Collector.SimpleCollector.ModuleStats | src/core/SimpleCollector.cpp:57-70 | the innermost loop computes `ValidIn` and `InvalidIn`, which `StatCounts` and `ValidInOrder` explain |
| Collector.StatCounts | src/core/SimpleCollector.cpp:58-65 | each value is reported for a pair as often as the log has it for that pair, valid and no older than the window, and the invalid count is that of the log's invalid samples there |
| Collector.ValidInOrder | src/core/SimpleCollector.cpp:58-65 | the reported values are in the order of the samples |
| Collector.WindowIsPartitioned | src/core/SimpleCollector.cpp:58-69 | valid and invalid samples together are all those of the window |
| Collector.SimpleCollector.DeviceStats | src/core/SimpleCollector.cpp:55-73 | one entry for each module of the device in the log, with the log's statistics |
| Collector.SimpleCollector.ComputeLastStats | src/core/SimpleCollector.cpp:50-76 | exactly one entry for each pair of device and module in the log, ordered by device; in it every value as often as the log has it for the pair, valid and inside the window, and the number of the invalid samples there |
| Collector.ModulePairsSize | src/core/DeviceDataCollection.cpp:56-59 | the number of modules kept for a device is its number of distinct pairs |
| Collector.SimpleCollector.ModulesCount | src/core/SimpleCollector.cpp:83-92 | the sum over the devices is the number of distinct pairs of device and module in the log |

## Left out

- WorkExecution.CancelOutlastsReschedule: says nothing about what follows the cancel of an event-waiting work, because the program's behaviour is undefined from there on.
- WorkExecution.CancelIsFinalIff: is about a cancel that is defined, for the same reason.
- Scheduler.BasicQueue.Cancel: promises nothing about the queue when the erase is undefined.
- Scheduler.BasicQueue.Activate: lets the multimap attach the key at any slot that a search tree may choose, since with inverted keys the place depends on the shape of the tree; without them there is only one place for the documented order.
- InjectionCalls.DoneOrderIff: says nothing about a call after which an instance refers to a registered name that is an alias of another, because what such a reference stands for changes during the call; this takes a chain of aliases or an early instance that is an alias (`StaysClearWhen`), and `AcyclicDoneOrder` covers it in one direction.
- InjectionRuns.EarlySecondObjectIff: leaves out the same configurations; `EarlyDuplicatesIff` does not.
- InjectionSuccess.CreateSucceedsIff: says nothing of configurations in which an instance refers to a creatable name that is an alias itself, or to a registered one that is an alias of another, since success there depends on the order of creation; `FeasibleSucceeds` covers them in one direction.
- CommandCounting.NotPendingIff: counts one result for each accepting handler, as handlers are meant to behave; a handler that adds none or several is not modelled.
- Collector.SimpleCollector.ComputeLastStats: values are exact numbers; the order statistics of `StatisticsData` and rounding are not modelled, and every sample carries its complete time.
- GatewayId.ParseAcceptsIff: the number parser is modelled for digit strings only; what it makes of other characters does not matter to `parse`, because the check digit rejects them afterwards.
- The loops of `pop()`, `AnswerQueue::wait()`, `AsyncExecutor::run()` and the runner are step relations, not methods, because other threads act between their steps; `BasicProcessor::run()` adds only repetition.
- One consumer pops, one thread waits on an answer queue and one runner drives the asynchronous executor at a time; several at once share an auto-reset event.
- Deadlock freedom and liveness: writers take a work's access lock before its execution lock, runners the other way round. Only safety is proved.
- Reader locks are conditions of single steps, not counted holders; the lock checks `assertLocked` and `assureLocked` and the guards' `assureIs` have no counterpart.
- The repository of works, the thread pool, logging, reference counting and the destructors, and exceptions thrown by them.
- 64-bit overflow of timestamps; a negative suspend duration is modelled (the work stays EXECUTED), a negative creation time too.
- The type casts of `DIWrapper`: whether a call into a created object throws is a parameter of the configuration, for each setter and each done hook.
- Creating the early instances inside the injector's constructor: it is a method of its own, since construction and its failure are then separate values.
- Reading the configuration itself (XML, property expansion).
- Setting an answer's dirty mark directly with `setDirty`, which bypasses the event.
- Hexadecimal printing and parsing of device manager identifiers and the validity of prefixes.
- Sockets, devices, credentials, the console and the other servers, which are input and output around these cores.
