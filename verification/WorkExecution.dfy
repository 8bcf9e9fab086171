/** One work under its locks (base/src/work/WorkAccess.cpp, GenericWorkRunner.cpp, BasicProcessor.cpp):
    any number of activities pop it, run it, schedule it, wake it up, cancel it and set its fields, in
    every interleaving of their atomic steps. */
module WorkExecution {
  import opened Basics
  import opened WorkOrder
  import opened WorkQueue
  import opened QueueIndex

  type Activity = int

  datatype Fields = Fields(state: WorkState, priority: int, sleep: Option<int>,
                           created: int, suspended: int, finished: int)

  /** Where the work is in the queue. */
  datatype Place = Out | Dormant | Active

  /** What is done under a WorkWriting guard by somebody who does not execute the work. */
  datatype Operation = Schedule | Wakeup | Cancel | Refuse | Assign(fields: Fields)
  {
    /** Taken with the queue lock held, as opposed to a plain setter of the work. */
    predicate OnQueue() { Schedule? || Wakeup? || Cancel? }
  }

  datatype Pc =
    | Free
    // an operation on the queue or on the fields; the access lock is taken before the execution lock
    | Wants(op: Operation)
    | HasQueue(op: Operation)
    | HasAccess(op: Operation)
    | HasAll(op: Operation)
    // dispatch(): the work has been popped, then found unfinished, then not done
    | Popped
    | Unfinished
    | Accepted
    // GenericWorkRunner
    | Runner
    | Preparing
    | Executing
    // the executor schedules, wakes up or cancels its own work; it holds the execution lock, which is recursive
    | OwnWants(op: Operation)
    | OwnHasQueue(op: Operation)
    | OwnHasAll(op: Operation)
    | Ending(state: WorkState)
    | Suspending(sleep: Option<int>)
    | Stamping
    | Interrupting
    | Leaving
  {
    predicate Operates() { Free? || Wants? || HasQueue? || HasAccess? || HasAll? }

    predicate HoldsQueue() { HasQueue? || OwnHasQueue? || OwnHasAll? || ((HasAccess? || HasAll?) && op.OnQueue()) }

    predicate HoldsAccess() { HasAccess? || HasAll? || OwnHasAll? }

    predicate HoldsExecution() { HasAll? || Preparing? || InExecution() || Leaving? }

    /** From the end of prepare() until the runner finishes, fails or interrupts. */
    predicate InExecution() { Executing? || Own() || Ending? || Suspending? || Stamping? || Interrupting? }

    predicate Own() { OwnWants? || OwnHasQueue? || OwnHasAll? }

    /** Past the last look at the work's state before executing or refusing it. */
    predicate InFlight() {
      Accepted? || Runner? || Preparing? || InExecution() || IsRefusal()
    }

    predicate IsRefusal() { (Wants? || HasQueue? || HasAccess? || HasAll?) && op.Refuse? }
  }

  /** undefined: the erase of an end iterator has happened, after which the program means nothing. own: since it was
      prepared, the work has been scheduled, woken up or canceled by the executor that executes it. */
  datatype State = State(
    work: Fields, place: Place,
    queueLock: Option<Activity>, accessLock: Option<Activity>, executionLock: Option<Activity>,
    pcs: map<Activity, Pc>, undefined: bool, own: bool)
  {
    function At(t: Activity): Pc { if t in pcs then pcs[t] else Free }

    function To(t: Activity, pc: Pc): State { this.(pcs := pcs[t := pc]) }
  }

  ghost predicate Init(s: State) {
    && s.work.state == WorkState.Idle && s.place == Out && !s.undefined && !s.own
    && s.queueLock == s.accessLock == s.executionLock == None && s.pcs == map[]
  }

  /** The body of an operation, its locks held. */
  function Perform(s: State, op: Operation): State {
    match op
    case Schedule => if s.work.state.Done() then s else Enqueue(s)
    case Wakeup =>
      var woken := s.(work := s.work.(sleep := Some(0)));
      if s.work.state.Done() then woken else Enqueue(woken)
    case Cancel =>
      if s.place == Dormant then s.(undefined := true)
      else s.(place := Out, work := s.work.(state := Canceled))
    case Refuse => s.(work := s.work.(state := Failed))
    case Assign(fields) => s.(work := fields.(state := s.work.state))
  }

  /** doPushUnfinishedUnlocked */
  function Enqueue(s: State): State {
    s.(place := if s.work.sleep.None? then Dormant else Active, work := s.work.(state := Scheduled))
  }

  function Release(s: State, op: Operation): State {
    s.(queueLock := if op.OnQueue() then None else s.queueLock, accessLock := None, executionLock := None)
  }

  /** A step of somebody who is about to operate on the work, or who pops it. */
  ghost predicate OperationStep(s: State, t: Activity, s': State)
    requires s.At(t).Operates()
  {
    match s.At(t)
    case Free =>
      || (exists op: Operation :: !op.Refuse? && s' == s.To(t, Wants(op)))
      || (s.queueLock.None? && s.place == Active && s' == s.(place := Out).To(t, Popped))
    case Wants(op) =>
      if op.OnQueue() then s.queueLock.None? && s' == s.(queueLock := Some(t)).To(t, HasQueue(op))
      else s.accessLock.None? && s' == s.(accessLock := Some(t)).To(t, HasAccess(op))
    case HasQueue(op) =>
      if op.Wakeup? && s.place == Out then s' == s.(queueLock := None).To(t, Free)
      else s.accessLock.None? && s' == s.(accessLock := Some(t)).To(t, HasAccess(op))
    case HasAccess(op) => s.executionLock.None? && s' == s.(executionLock := Some(t)).To(t, HasAll(op))
    case HasAll(op) => s' == Release(Perform(s, op), op).To(t, Free)
  }

  /** A step of dispatch() with the popped work, or of the runner. */
  ghost predicate RunnerStep(s: State, t: Activity, s': State)
    requires !s.At(t).Operates() && !s.At(t).Own()
  {
    match s.At(t)
    case Popped => s.accessLock.None? && s' == s.To(t, if s.work.finished != 0 then Free else Unfinished)
    case Unfinished => s.accessLock.None? && s' == s.To(t, if s.work.state.Done() then Free else Accepted)
    // no runner may be had, or no thread to start it in
    case Accepted => s' == s.To(t, Runner) || s' == s.To(t, Wants(Refuse)) || s' == s.To(t, Free)
    case Runner => s.executionLock.None? && s' == s.(executionLock := Some(t)).To(t, Preparing)
    case Preparing =>
      s.accessLock.None? && s' == s.(work := s.work.(state := Executed), own := false).To(t, Executing)
    case Executing =>
      || s' == s.To(t, Ending(Finished))
      || s' == s.To(t, Ending(Failed))
      // the executor itself sets fields of its work
      || (s.accessLock.None? && exists fields: Fields :: s' == s.(work := fields.(state := s.work.state)))
      || (exists op: Operation :: op.OnQueue() && s' == s.To(t, OwnWants(op)))
      || exists sleep :: s' == s.To(t, Suspending(sleep))
    case Ending(state) => s.accessLock.None? && exists now ::
      s' == s.(work := s.work.(state := state, finished := now)).To(t, Leaving)
    case Suspending(sleep) =>
      // a negative duration is refused by an exception that ends the runner
      if sleep.Some? && sleep.value < 0 then s.accessLock.None? && s' == s.To(t, Leaving)
      else s.accessLock.None? && s' == s.(work := s.work.(sleep := sleep)).To(t, Stamping)
    case Stamping => s.accessLock.None? && exists now ::
      s' == s.(work := s.work.(suspended := now)).To(t, Interrupting)
    case Interrupting => s' == s.(executionLock := None).To(t, Wants(Schedule))
    case Leaving => s' == s.(executionLock := None).To(t, Free)
  }

  /** A step of the executor that operates on its own work. */
  predicate OwnStep(s: State, t: Activity, s': State)
    requires s.At(t).Own()
  {
    match s.At(t)
    case OwnWants(op) => s.queueLock.None? && s' == s.(queueLock := Some(t)).To(t, OwnHasQueue(op))
    case OwnHasQueue(op) =>
      if op.Wakeup? && s.place == Out then s' == s.(queueLock := None).To(t, Executing)
      else s.accessLock.None? && s' == s.(accessLock := Some(t)).To(t, OwnHasAll(op))
    case OwnHasAll(op) =>
      s' == Perform(s, op).(queueLock := None, accessLock := None, own := true).To(t, Executing)
  }

  ghost predicate StepOf(s: State, t: Activity, s': State) {
    if s.At(t).Operates() then OperationStep(s, t, s')
    else if s.At(t).Own() then OwnStep(s, t, s')
    else RunnerStep(s, t, s')
  }

  ghost predicate Next(s: State, s': State) {
    !s.undefined && exists t :: StepOf(s, t, s')
  }

  ghost predicate Path(states: seq<State>) {
    && states != []
    && forall i | 0 <= i < |states| - 1 :: Next(states[i], states[i + 1])
  }

  ghost predicate Run(states: seq<State>) { Path(states) && Init(states[0]) }

  ghost predicate Inv(s: State) {
    && (forall t :: s.At(t).HoldsQueue() <==> s.queueLock == Some(t))
    && (forall t :: s.At(t).HoldsAccess() <==> s.accessLock == Some(t))
    && (forall t :: s.At(t).HoldsExecution() <==> s.executionLock == Some(t))
    && (forall t :: s.At(t).InExecution() ==> AsLeft(s))
    && (forall t :: s.At(t).Ending? ==> s.At(t).state == Finished || s.At(t).state == Failed)
    && (forall t :: s.At(t).HasQueue? || s.At(t).Own() ==> s.At(t).op.OnQueue())
  }

  /** EXECUTED during an execution, unless the executor has itself changed that. */
  predicate AsLeft(s: State) {
    if s.own then s.undefined || s.work.state == Scheduled || s.work.state == Canceled else s.work.state == Executed
  }

  // ----- the place is the one in the queue

  ghost predicate HasActive(items: seq<Item>, id: WorkID) {
    exists i | 0 <= i < |items| :: items[i].id == id
  }

  ghost function PlaceOf(q: Queue, id: WorkID): Place {
    if id in q.dormant then Dormant else if HasActive(q.active, id) then Active else Out
  }

  lemma {:induction false} WithoutKeepsActive(items: seq<Item>, id: WorkID, other: WorkID)
    ensures HasActive(Without(items, id), other) <==> other != id && HasActive(items, other)
  {
    if items != [] {
      var rest := Without(items[1..], id);
      WithoutKeepsActive(items[1..], id, other);
      assert HasActive(items, other) <==> items[0].id == other || HasActive(items[1..], other) by {
        if HasActive(items, other) && items[0].id != other {
          var i :| 0 <= i < |items| && items[i].id == other;
          assert items[1..][i - 1] == items[i];
        }
      }
      assert HasActive([items[0]] + rest, other) <==> items[0].id == other || HasActive(rest, other) by {
        assert ([items[0]] + rest)[1..] == rest && ([items[0]] + rest)[0] == items[0];
        if HasActive(rest, other) {
          var i :| 0 <= i < |rest| && rest[i].id == other;
          assert ([items[0]] + rest)[i + 1] == rest[i];
        }
      }
    }
  }

  /** A push into the queue makes the work active or, without a time, event-waiting, and moves no other work. */
  lemma PushMovesPlace(q: Queue, id: WorkID, time: Option<int>, priority: int, q': Queue)
    requires Wf(q) && Pushed(q, id, time, priority, q')
    ensures PlaceOf(q', id) == if time.None? then Dormant else Active
    ensures forall other | other != id :: PlaceOf(q', other) == PlaceOf(q, other)
  {
    PushMeaning(q, id, time, priority, q');
    if time.Some? { assert IsActive(q', id, Key(time.value, priority)); }
    forall other | other != id
      ensures PlaceOf(q', other) == PlaceOf(q, other)
    {
      WithoutKeepsActive(q.active, id, other);
      WithoutKeepsActive(q'.active, id, other);
    }
  }

  /** A setter changes fields of the work, and never its state or its place. */
  lemma AssignSets(s: State, fields: Fields)
    ensures var s' := Perform(s, Assign(fields));
      && s'.work.state == s.work.state && s'.place == s.place && s'.undefined == s.undefined
      && s'.work.priority == fields.priority && s'.work.sleep == fields.sleep && s'.work.created == fields.created
      && s'.work.suspended == fields.suspended && s'.work.finished == fields.finished
  {
  }

  /** A cancel takes it out, defined exactly when the work's place is not Dormant. */
  lemma CancelMovesPlace(q: Queue, id: WorkID)
    requires Wf(q)
    ensures CancelDefined(q, id) <==> PlaceOf(q, id) != Dormant
    ensures CancelDefined(q, id) ==> PlaceOf(AfterCancel(q, id), id) == Out
    ensures forall other | other != id :: PlaceOf(AfterCancel(q, id), other) == PlaceOf(q, other)
  {
    forall other
      ensures HasActive(Without(q.active, id), other) <==> other != id && HasActive(q.active, other)
    {
      WithoutKeepsActive(q.active, id, other);
    }
  }

  /** And a pop: the work it returns was active and is out of the queue. */
  lemma PopMovesPlace(q: Queue, now: int)
    requires Wf(q)
    ensures var (popped, q') := PopFast(q, now);
      && (popped.Due? ==> PlaceOf(q, popped.item.id) == Active && PlaceOf(q', popped.item.id) == Out)
      && forall other | popped.Due? ==> other != popped.item.id :: PlaceOf(q', other) == PlaceOf(q, other)
  {
    if PopFast(q, now).0.Due? {
      var id := q.active[0].id;
      WithoutAt(q.active, 0);
      assert Without(q.active, id) == q.active[1..];
      assert PopFast(q, now).1 == AfterCancel(q, id);
      CancelMovesPlace(q, id);
    }
  }

  /** The activation time of a work with these fields. */
  function TimeOf(work: Fields): Option<int> { ActivationAt(work.sleep, work.suspended, work.created) }

  /** Scheduling does to the place just what it does in the queue, and to the work no more than to schedule it; a
      work that is done is left alone by both. */
  lemma ScheduleFollowsQueue(s: State, q: Queue, id: WorkID, q': Queue)
    requires Wf(q) && s.place == PlaceOf(q, id)
    requires if s.work.state.Done() then q' == q else Pushed(q, id, TimeOf(s.work), s.work.priority, q')
    ensures var s' := Perform(s, Schedule);
      && s'.place == PlaceOf(q', id)
      && s'.work == (if s.work.state.Done() then s.work else s.work.(state := Scheduled))
      && s'.undefined == s.undefined
  {
    if !s.work.state.Done() { PushMovesPlace(q, id, TimeOf(s.work), s.work.priority, q'); }
  }

  /** So does waking up, which ends the sleep first. */
  lemma WakeupFollowsQueue(s: State, q: Queue, id: WorkID, q': Queue)
    requires Wf(q) && s.place == PlaceOf(q, id)
    requires if s.work.state.Done() then q' == q
             else Pushed(q, id, TimeOf(s.work.(sleep := Some(0))), s.work.priority, q')
    ensures var s' := Perform(s, Wakeup);
      && s'.place == PlaceOf(q', id) && (!s.work.state.Done() ==> s'.place == Active)
      && s'.work == s.work.(sleep := Some(0), state := if s.work.state.Done() then s.work.state else Scheduled)
      && s'.undefined == s.undefined
  {
    if !s.work.state.Done() { PushMovesPlace(q, id, TimeOf(s.work.(sleep := Some(0))), s.work.priority, q'); }
  }

  /** So does a cancel, which is undefined for both or for neither. */
  lemma CancelFollowsQueue(s: State, q: Queue, id: WorkID)
    requires Wf(q) && s.place == PlaceOf(q, id) && !s.undefined
    ensures var s' := Perform(s, Cancel);
      && (s'.undefined <==> !CancelDefined(q, id))
      && (CancelDefined(q, id) ==>
            s'.place == PlaceOf(AfterCancel(q, id), id) && s'.work == s.work.(state := Canceled))
  {
    CancelMovesPlace(q, id);
  }

  /** And a pop of the work. */
  lemma PopFollowsQueue(s: State, t: Activity, s': State, q: Queue, now: int)
    requires Wf(q) && StepOf(s, t, s') && s.At(t) == Free && s'.At(t) == Popped
    requires PopFast(q, now).0.Due? && s.place == PlaceOf(q, PopFast(q, now).0.item.id)
    ensures s'.place == PlaceOf(PopFast(q, now).1, PopFast(q, now).0.item.id) && s'.work == s.work
  {
    PopMovesPlace(q, now);
  }

  /** Its place changes only under the queue lock. */
  lemma PlaceUnderLock(s: State, t: Activity, s': State)
    requires StepOf(s, t, s') && s'.place != s.place
    ensures s.At(t).HoldsQueue() || (s.At(t) == Free && s'.At(t) == Popped && s.queueLock.None?)
  {
  }

  // ----- every run

  lemma StepMovesOne(s: State, t: Activity, s': State)
    requires StepOf(s, t, s')
    ensures s'.pcs == s.pcs[t := s'.At(t)]
    ensures forall u | u != t :: s'.At(u) == s.At(u)
  {
    if s.At(t).Operates() {
      OperationMoves(s, t, s');
    } else if s.At(t).Own() {
      OwnMoves(s, t, s');
    } else {
      RunnerLeaves(s, t, s');
    }
  }

  lemma OperationMoves(s: State, t: Activity, s': State)
    requires s.At(t).Operates() && OperationStep(s, t, s')
    ensures s'.pcs == s.pcs[t := s'.At(t)]
  {
  }

  lemma OwnMoves(s: State, t: Activity, s': State)
    requires s.At(t).Own() && OwnStep(s, t, s')
    ensures s'.pcs == s.pcs[t := s'.At(t)]
  {
  }

  /** dispatch() and the runner take the access lock only for single steps and the queue lock not at all. */
  lemma RunnerLeaves(s: State, t: Activity, s': State)
    requires !s.At(t).Operates() && !s.At(t).Own() && RunnerStep(s, t, s')
    ensures s'.pcs == s.pcs[t := s'.At(t)]
    ensures s'.queueLock == s.queueLock && s'.accessLock == s.accessLock
  {
  }

  lemma RunnerHoldsNeither(s: State, t: Activity, s': State)
    requires !s.At(t).Operates() && !s.At(t).Own() && RunnerStep(s, t, s')
    ensures !s'.At(t).HoldsQueue() && !s'.At(t).HoldsAccess() && !s'.At(t).HasQueue?
    ensures s'.At(t).Own() ==> s'.At(t).op.OnQueue()
  {
  }

  /** How a step of t may treat a lock: leave it, take it when it is free, or give it back. */
  predicate Handled(before: Option<Activity>, after: Option<Activity>, t: Activity, held: bool, holds: bool) {
    || (before == after && held == holds)
    || (before.None? && after == Some(t) && holds)
    || (before == Some(t) && after.None? && !holds)
  }

  lemma OperationHandlesQueueLock(s: State, t: Activity, s': State)
    requires s.At(t).Operates() && OperationStep(s, t, s')
    requires s.At(t).HasQueue? || s.At(t).Own() ==> s.At(t).op.OnQueue()
    requires s.At(t).HoldsQueue() <==> s.queueLock == Some(t)
    ensures Handled(s.queueLock, s'.queueLock, t, s.At(t).HoldsQueue(), s'.At(t).HoldsQueue())
    ensures s'.At(t).HasQueue? || s'.At(t).Own() ==> s'.At(t).op.OnQueue()
  {
  }

  lemma OwnHandlesQueueLock(s: State, t: Activity, s': State)
    requires s.At(t).Own() && OwnStep(s, t, s')
    requires s.At(t).HasQueue? || s.At(t).Own() ==> s.At(t).op.OnQueue()
    requires s.At(t).HoldsQueue() <==> s.queueLock == Some(t)
    ensures Handled(s.queueLock, s'.queueLock, t, s.At(t).HoldsQueue(), s'.At(t).HoldsQueue())
    ensures s'.At(t).HasQueue? || s'.At(t).Own() ==> s'.At(t).op.OnQueue()
  {
  }

  lemma StepHandlesQueueLock(s: State, t: Activity, s': State)
    requires StepOf(s, t, s')
    requires s.At(t).HasQueue? || s.At(t).Own() ==> s.At(t).op.OnQueue()
    requires s.At(t).HoldsQueue() <==> s.queueLock == Some(t)
    ensures Handled(s.queueLock, s'.queueLock, t, s.At(t).HoldsQueue(), s'.At(t).HoldsQueue())
    ensures s'.At(t).HasQueue? || s'.At(t).Own() ==> s'.At(t).op.OnQueue()
  {
    if s.At(t).Operates() {
      OperationHandlesQueueLock(s, t, s');
    } else if s.At(t).Own() {
      OwnHandlesQueueLock(s, t, s');
    } else {
      RunnerLeaves(s, t, s');
      RunnerHoldsNeither(s, t, s');
    }
  }

  lemma OperationHandlesAccessLock(s: State, t: Activity, s': State)
    requires s.At(t).Operates() && OperationStep(s, t, s')
    requires s.At(t).HoldsAccess() <==> s.accessLock == Some(t)
    ensures Handled(s.accessLock, s'.accessLock, t, s.At(t).HoldsAccess(), s'.At(t).HoldsAccess())
  {
  }

  lemma OwnHandlesAccessLock(s: State, t: Activity, s': State)
    requires s.At(t).Own() && OwnStep(s, t, s')
    requires s.At(t).HoldsAccess() <==> s.accessLock == Some(t)
    ensures Handled(s.accessLock, s'.accessLock, t, s.At(t).HoldsAccess(), s'.At(t).HoldsAccess())
  {
  }

  lemma StepHandlesAccessLock(s: State, t: Activity, s': State)
    requires StepOf(s, t, s')
    requires s.At(t).HoldsAccess() <==> s.accessLock == Some(t)
    ensures Handled(s.accessLock, s'.accessLock, t, s.At(t).HoldsAccess(), s'.At(t).HoldsAccess())
  {
    if s.At(t).Operates() {
      OperationHandlesAccessLock(s, t, s');
    } else if s.At(t).Own() {
      OwnHandlesAccessLock(s, t, s');
    } else {
      RunnerLeaves(s, t, s');
      RunnerHoldsNeither(s, t, s');
    }
  }

  lemma OperationHandlesExecutionLock(s: State, t: Activity, s': State)
    requires s.At(t).Operates() && OperationStep(s, t, s')
    requires s.At(t).HoldsExecution() <==> s.executionLock == Some(t)
    ensures Handled(s.executionLock, s'.executionLock, t, s.At(t).HoldsExecution(), s'.At(t).HoldsExecution())
  {
  }

  lemma RunnerHandlesExecutionLock(s: State, t: Activity, s': State)
    requires !s.At(t).Operates() && !s.At(t).Own() && RunnerStep(s, t, s')
    requires s.At(t).HoldsExecution() <==> s.executionLock == Some(t)
    ensures Handled(s.executionLock, s'.executionLock, t, s.At(t).HoldsExecution(), s'.At(t).HoldsExecution())
  {
  }

  lemma OwnHandlesExecutionLock(s: State, t: Activity, s': State)
    requires s.At(t).Own() && OwnStep(s, t, s')
    requires s.At(t).HoldsExecution() <==> s.executionLock == Some(t)
    ensures Handled(s.executionLock, s'.executionLock, t, s.At(t).HoldsExecution(), s'.At(t).HoldsExecution())
  {
  }

  lemma StepHandlesExecutionLock(s: State, t: Activity, s': State)
    requires StepOf(s, t, s')
    requires s.At(t).HoldsExecution() <==> s.executionLock == Some(t)
    ensures Handled(s.executionLock, s'.executionLock, t, s.At(t).HoldsExecution(), s'.At(t).HoldsExecution())
  {
    if s.At(t).Operates() {
      OperationHandlesExecutionLock(s, t, s');
    } else if s.At(t).Own() {
      OwnHandlesExecutionLock(s, t, s');
    } else {
      RunnerHandlesExecutionLock(s, t, s');
    }
  }

  /** Only who holds the execution lock writes the work's fields. */
  lemma StepWrites(s: State, t: Activity, s': State)
    requires StepOf(s, t, s')
    ensures s'.work != s.work || s'.own != s.own ==> s.At(t).HoldsExecution()
    ensures s'.own && !s.own ==> s.At(t).OwnHasAll?
  {
  }

  lemma OperationKeepsAsLeft(s: State, t: Activity, s': State)
    requires s.At(t).Operates() && OperationStep(s, t, s')
    requires (s.At(t).InExecution() ==> AsLeft(s)) && (s.At(t).Own() ==> s.At(t).op.OnQueue())
    ensures s'.At(t).InExecution() ==> AsLeft(s')
    ensures s.undefined ==> s'.undefined
  {
  }

  lemma RunnerKeepsAsLeft(s: State, t: Activity, s': State)
    requires !s.At(t).Operates() && !s.At(t).Own() && RunnerStep(s, t, s')
    requires s.At(t).InExecution() ==> AsLeft(s)
    ensures s'.At(t).InExecution() ==> AsLeft(s')
    ensures s.undefined ==> s'.undefined
  {
  }

  lemma OwnKeepsAsLeft(s: State, t: Activity, s': State)
    requires s.At(t).Own() && OwnStep(s, t, s')
    requires (s.At(t).InExecution() ==> AsLeft(s)) && (s.At(t).Own() ==> s.At(t).op.OnQueue())
    ensures s'.At(t).InExecution() ==> AsLeft(s')
    ensures s.undefined ==> s'.undefined
  {
  }

  lemma StepKeepsAsLeft(s: State, t: Activity, s': State)
    requires StepOf(s, t, s')
    requires (s.At(t).InExecution() ==> AsLeft(s)) && (s.At(t).Own() ==> s.At(t).op.OnQueue())
    ensures s'.At(t).InExecution() ==> AsLeft(s')
    ensures s.undefined ==> s'.undefined
  {
    if s.At(t).Operates() {
      OperationKeepsAsLeft(s, t, s');
    } else if s.At(t).Own() {
      OwnKeepsAsLeft(s, t, s');
    } else {
      RunnerKeepsAsLeft(s, t, s');
    }
  }

  lemma StepEnds(s: State, t: Activity, s': State)
    requires StepOf(s, t, s')
    ensures s'.At(t).Ending? && !s.At(t).Ending? ==> s'.At(t).state == Finished || s'.At(t).state == Failed
    ensures s'.At(t).Ending? ==> !s.At(t).Ending?
  {
  }

  /** What the lemmas above say of a step is enough for the invariant. */
  lemma InvFollows(s: State, t: Activity, s': State)
    requires Inv(s) && forall u | u != t :: s'.At(u) == s.At(u)
    requires Handled(s.queueLock, s'.queueLock, t, s.At(t).HoldsQueue(), s'.At(t).HoldsQueue())
    requires Handled(s.accessLock, s'.accessLock, t, s.At(t).HoldsAccess(), s'.At(t).HoldsAccess())
    requires Handled(s.executionLock, s'.executionLock, t, s.At(t).HoldsExecution(), s'.At(t).HoldsExecution())
    requires s'.work != s.work || s'.own != s.own ==> s.At(t).HoldsExecution()
    requires (s.undefined ==> s'.undefined) && (s'.At(t).InExecution() ==> AsLeft(s'))
    requires s'.At(t).Ending? ==> s'.At(t).state == Finished || s'.At(t).state == Failed
    requires s'.At(t).HasQueue? || s'.At(t).Own() ==> s'.At(t).op.OnQueue()
    ensures Inv(s')
  {
  }

  lemma StepKeepsInv(s: State, t: Activity, s': State)
    requires Inv(s) && StepOf(s, t, s')
    ensures Inv(s')
  {
    StepMovesOne(s, t, s');
    StepHandlesQueueLock(s, t, s');
    StepHandlesAccessLock(s, t, s');
    StepHandlesExecutionLock(s, t, s');
    StepWrites(s, t, s');
    StepKeepsAsLeft(s, t, s');
    StepEnds(s, t, s');
    InvFollows(s, t, s');
  }

  lemma {:induction false} RunKeepsInv(states: seq<State>, i: nat)
    requires Run(states) && i < |states|
    ensures Inv(states[i])
  {
    if i > 0 {
      RunKeepsInv(states, i - 1);
      var t :| StepOf(states[i - 1], t, states[i]);
      StepKeepsInv(states[i - 1], t, states[i]);
    }
  }

  /** Mutual exclusion. In every run at most one activity is between prepare() and the end of the execution, and
      nobody else's step changes any of the work's fields. The work is EXECUTED all the while if and only if the
      executor has not itself scheduled, woken up or canceled it. */
  lemma ExecutionIsExclusive(states: seq<State>, i: nat, t: Activity)
    requires Run(states) && i < |states| && states[i].At(t).InExecution()
    ensures forall u :: states[i].At(u).InExecution() ==> u == t
    ensures forall u, s' :: u != t && StepOf(states[i], u, s') ==> s'.work == states[i].work && s'.own == states[i].own
    ensures !states[i].undefined ==> (states[i].work.state == Executed <==> !states[i].own)
    ensures forall u, s' :: StepOf(states[i], u, s') && s'.own && !states[i].own ==>
      u == t && states[i].At(t).OwnHasAll?
  {
    RunKeepsInv(states, i);
    forall u, s' | StepOf(states[i], u, s')
      ensures u != t ==> s'.work == states[i].work && s'.own == states[i].own
      ensures s'.own && !states[i].own ==> u == t && states[i].At(t).OwnHasAll?
    {
      StepWrites(states[i], u, s');
    }
  }

  // ----- what dispatch() and the runner come to

  /** dispatch() goes on with a popped work if and only if it has no finish time and is neither finished, failed nor
      canceled. */
  lemma DispatchGoesOnIff(s: State, t: Activity, s1: State, s2: State)
    requires s.At(t) == Popped && StepOf(s, t, s1)
    requires if s1.At(t) == Unfinished then StepOf(s1, t, s2) else s2 == s1
    ensures s2.work == s.work && s2.place == s.place
    ensures s2.At(t) == if s.work.finished == 0 &&
                           (s.work.state == WorkState.Idle || s.work.state == Scheduled || s.work.state == Executed)
                        then Accepted else Free
  {
  }

  ghost predicate Alone(states: seq<State>, t: Activity) {
    && states != []
    && forall i | 0 <= i < |states| - 1 :: states[i].At(t) != Free && StepOf(states[i], t, states[i + 1])
  }

  /** A runner that nobody else's locks hold up has a next step, whatever it is at. */
  lemma RunnerCanStep(s: State, t: Activity) returns (s': State)
    requires Inv(s) && !s.At(t).Operates() && !s.At(t).Own()
    requires s.accessLock.None? && (s.executionLock.None? || s.executionLock == Some(t))
    ensures StepOf(s, t, s')
  {
    match s.At(t)
    case Popped => s' := s.To(t, if s.work.finished != 0 then Free else Unfinished);
    case Unfinished => s' := s.To(t, if s.work.state.Done() then Free else Accepted);
    case Accepted => s' := s.To(t, Runner);
    case Runner => s' := s.(executionLock := Some(t)).To(t, Preparing);
    case Preparing => s' := s.(work := s.work.(state := Executed), own := false).To(t, Executing);
    case Executing => s' := s.To(t, Ending(Finished));
    case Ending(state) => s' := s.(work := s.work.(state := state, finished := 0)).To(t, Leaving);
    case Suspending(sleep) =>
      s' := if sleep.Some? && sleep.value < 0 then s.To(t, Leaving)
            else s.(work := s.work.(sleep := sleep)).To(t, Stamping);
    case Stamping => s' := s.(work := s.work.(suspended := 0)).To(t, Interrupting);
    case Interrupting => s' := s.(executionLock := None).To(t, Wants(Schedule));
    case Leaving => s' := s.(executionLock := None).To(t, Free);
  }

  /** And so has an operation. */
  lemma OperationCanStep(s: State, t: Activity) returns (s': State)
    requires Inv(s) && s.At(t).Operates() && s.At(t) != Free
    requires s.queueLock.None? || s.queueLock == Some(t)
    requires s.accessLock.None? || s.accessLock == Some(t)
    requires s.executionLock.None? || s.executionLock == Some(t)
    ensures StepOf(s, t, s')
  {
    match s.At(t)
    case Wants(op) =>
      s' := if op.OnQueue() then s.(queueLock := Some(t)).To(t, HasQueue(op))
            else s.(accessLock := Some(t)).To(t, HasAccess(op));
    case HasQueue(op) =>
      s' := if op.Wakeup? && s.place == Out then s.(queueLock := None).To(t, Free)
            else s.(accessLock := Some(t)).To(t, HasAccess(op));
    case HasAccess(op) => s' := s.(executionLock := Some(t)).To(t, HasAll(op));
    case HasAll(op) => s' := Release(Perform(s, op), op).To(t, Free);
  }

  /** An operation that nobody interleaves with takes the queue lock first, and is then over if there is nothing to
      wake up. */
  lemma OperationStarts(s: State, t: Activity, op: Operation, s1: State, s2: State)
    requires s.At(t) == Wants(op) && op.OnQueue() && StepOf(s, t, s1) && StepOf(s1, t, s2)
    ensures s2.work == s.work && s2.place == s.place && s2.undefined == s.undefined
    ensures if op.Wakeup? && s.place == Out then s2.At(t) == Free && s2.queueLock.None? else s2.At(t) == HasAccess(op)
  {
  }

  /** Otherwise it takes the other locks, does its work, and gives all locks back. */
  lemma OperationPerforms(s: State, t: Activity, op: Operation, s1: State, s2: State)
    requires s.At(t) == HasAccess(op) && StepOf(s, t, s1) && StepOf(s1, t, s2)
    ensures var end := Perform(s, op);
      s2.At(t) == Free && s2.work == end.work && s2.place == end.place && s2.undefined == end.undefined
    ensures s2.accessLock == s2.executionLock == None && (op.OnQueue() ==> s2.queueLock.None?)
  {
  }

  /** What an operation leaves behind: what it does in the queue, except that waking up a work that is not there does
      nothing. */
  function Outcome(s: State, op: Operation): State {
    if op.Wakeup? && s.place == Out then s else Perform(s, op)
  }

  /** The same for one that the executor calls on its own work, going on with the execution afterwards. */
  lemma OwnPerforms(s0: State, t: Activity, s1: State, s2: State, s3: State)
    requires s0.At(t).OwnWants? && OwnStep(s0, t, s1) && s1.At(t).Own() && OwnStep(s1, t, s2)
    requires if s2.At(t) == Executing then s3 == s2 else s2.At(t).Own() && OwnStep(s2, t, s3)
    ensures var end := Outcome(s0, s0.At(t).op);
      && s3.At(t) == Executing && s3.work == end.work && s3.place == end.place && s3.undefined == end.undefined
      && s3.queueLock.None? && s3.executionLock == s0.executionLock
  {
  }

  /** How far the end of an execution has got: the work as it was, then finished or failed with a finish time, then
      given free. */
  ghost predicate EndPhase(start: State, t: Activity, state: WorkState, s: State) {
    && s.place == start.place && s.undefined == start.undefined
    && match s.At(t)
       case Ending(outcome) => outcome == state && s.work == start.work
       case Leaving => s.work == start.work.(state := state, finished := s.work.finished)
       case Free => s.work == start.work.(state := state, finished := s.work.finished) && s.executionLock.None?
       case _ => false
  }

  lemma EndStep(start: State, t: Activity, state: WorkState, s: State, s': State)
    requires EndPhase(start, t, state, s) && s.At(t) != Free && StepOf(s, t, s')
    ensures EndPhase(start, t, state, s')
  {
  }

  /** A runner whose executor has returned or thrown ends with the work FINISHED or FAILED, nothing else changed but
      the finish time, and the execution lock free. */
  lemma {:induction false} EndsAs(states: seq<State>, t: Activity, state: WorkState, i: nat)
    requires Alone(states, t) && states[0].At(t) == Ending(state) && i < |states|
    ensures EndPhase(states[0], t, state, states[i])
  {
    if i > 0 {
      EndsAs(states, t, state, i - 1);
      EndStep(states[0], t, state, states[i - 1], states[i]);
    }
  }

  /** How far a suspension has got: the duration, then the time of suspension, then the work back in the queue. */
  ghost predicate SuspendPhase(start: State, t: Activity, sleep: Option<int>, s: State) {
    && s.undefined == start.undefined
    && match s.At(t)
       case Suspending(d) => d == sleep && s.work == start.work
       case Stamping => s.work == start.work.(sleep := sleep)
       case Interrupting => s.work == start.work.(sleep := sleep, suspended := s.work.suspended)
       case Wants(op) => op == Schedule && s.work == start.work.(sleep := sleep, suspended := s.work.suspended)
       case HasQueue(op) => op == Schedule && s.work == start.work.(sleep := sleep, suspended := s.work.suspended)
       case HasAccess(op) => op == Schedule && s.work == start.work.(sleep := sleep, suspended := s.work.suspended)
       case HasAll(op) => op == Schedule && s.work == start.work.(sleep := sleep, suspended := s.work.suspended)
       case Free =>
         && s.work == start.work.(sleep := sleep, suspended := s.work.suspended, state := Scheduled)
         && s.place == (if sleep.None? then Dormant else Active)
         && s.queueLock == s.accessLock == s.executionLock == None
       case _ => false
  }

  lemma SuspendStep(start: State, t: Activity, sleep: Option<int>, s: State, s': State)
    requires start.work.state == Executed && (sleep.Some? ==> sleep.value >= 0)
    requires SuspendPhase(start, t, sleep, s) && s.At(t) != Free && StepOf(s, t, s')
    ensures SuspendPhase(start, t, sleep, s')
  {
  }

  /** A runner whose executor suspends, left to itself, ends with the work SCHEDULED, its duration and the time of
      suspension set and nothing else changed, all locks free, and the work active, or event-waiting when it has no
      duration. */
  lemma {:induction false} SuspendsAs(states: seq<State>, t: Activity, sleep: Option<int>, i: nat)
    requires Alone(states, t) && states[0].At(t) == Suspending(sleep) && i < |states|
    requires states[0].work.state == Executed && (sleep.Some? ==> sleep.value >= 0)
    ensures SuspendPhase(states[0], t, sleep, states[i])
  {
    if i > 0 {
      SuspendsAs(states, t, sleep, i - 1);
      SuspendStep(states[0], t, sleep, states[i - 1], states[i]);
    }
  }

  /** Unless it asks for a negative duration: then the runner ends and the work stays as it was, EXECUTED. */
  lemma NegativeSuspendIsLost(s: State, t: Activity, d: int, s1: State, s2: State)
    requires s.At(t) == Suspending(Some(d)) && d < 0 && StepOf(s, t, s1) && StepOf(s1, t, s2)
    ensures s2.At(t) == Free && s2.work == s.work && s2.place == s.place && s2.executionLock.None?
  {
  }

  // ----- cancelling

  /** Canceled, in neither index, and with nobody left who would execute or refuse it all the same. */
  ghost predicate Settled(s: State) {
    s.work.state == Canceled && s.place == Out && !s.undefined && forall t :: !s.At(t).InFlight()
  }

  lemma StepKeepsSettled(s: State, t: Activity, s': State)
    requires Settled(s) && StepOf(s, t, s')
    ensures Settled(s')
  {
    StepMovesOne(s, t, s');
    assert s'.work.state == Canceled && s'.place == Out && !s'.undefined && !s'.At(t).InFlight();
  }

  lemma {:induction false} SettledForGood(states: seq<State>, i: nat, j: nat)
    requires Path(states) && i <= j < |states| && Settled(states[i])
    ensures Settled(states[j])
  {
    if i < j {
      SettledForGood(states, i, j - 1);
      var t :| StepOf(states[j - 1], t, states[j]);
      StepKeepsSettled(states[j - 1], t, states[j]);
    }
  }

  /** However a cancel interleaves with a runner that has interrupted and is rescheduling the work: once
      the cancel is through, with nothing in flight and unless the erase was undefined, the work stays
      CANCELED and in neither index for good. */
  lemma CancelOutlastsReschedule(states: seq<State>, i: nat, u: Activity, j: nat)
    requires Path(states) && i < j < |states|
    requires states[i].At(u) == HasAll(Cancel) && StepOf(states[i], u, states[i + 1])
    requires forall t :: !states[i].At(t).InFlight()
    ensures states[i].place == Dormant ==> states[i + 1].undefined
    ensures states[i].place != Dormant ==> states[j].work.state == Canceled && states[j].place == Out
  {
    StepMovesOne(states[i], u, states[i + 1]);
    assert Next(states[i], states[i + 1]);
    if states[i].place != Dormant {
      SettledForGood(states, i + 1, j);
    }
  }

  lemma Steps(s0: State, s1: State, s2: State, s3: State, t: Activity)
    requires StepOf(s0, t, s1) && StepOf(s1, t, s2) && StepOf(s2, t, s3)
    requires !s0.undefined && !s1.undefined && !s2.undefined
    ensures Path([s0, s1, s2, s3])
  {
    assert Next(s0, s1) && Next(s1, s2) && Next(s2, s3);
  }

  /** All locks free, a runner under way goes on to execute the work and a refusal to fail it. */
  lemma ExecutesAnyway(s: State, t: Activity) returns (states: seq<State>)
    requires !s.undefined && s.queueLock == s.accessLock == s.executionLock == None
    requires s.At(t) == Runner || s.At(t) == Wants(Refuse)
    ensures Path(states) && states[0] == s
    ensures states[|states| - 1].work.state == if s.At(t) == Runner then Executed else Failed
  {
    if s.At(t) == Runner {
      var s1 := s.(executionLock := Some(t)).To(t, Preparing);
      var s2 := s1.(work := s1.work.(state := Executed), own := false).To(t, Executing);
      var s3 := s2.To(t, Ending(Finished));
      Steps(s, s1, s2, s3, t);
      states := [s, s1, s2, s3];
    } else {
      var s1 := s.(accessLock := Some(t)).To(t, HasAccess(Refuse));
      var s2 := s1.(executionLock := Some(t)).To(t, HasAll(Refuse));
      var s3 := Release(Perform(s2, Refuse), Refuse).To(t, Free);
      Steps(s, s1, s2, s3, t);
      states := [s, s1, s2, s3];
    }
  }

  lemma GoesOn(s: State, t: Activity) returns (states: seq<State>)
    requires !s.undefined && s.queueLock == s.accessLock == s.executionLock == None
    requires s.At(t) == Accepted || s.At(t) == Runner || s.At(t) == Wants(Refuse)
    ensures Path(states) && states[0] == s && states[|states| - 1].work.state != Canceled
  {
    if s.At(t) == Accepted {
      var next := s.To(t, Runner);
      assert StepOf(s, t, next) && Next(s, next);
      var rest := ExecutesAnyway(next, t);
      states := [s] + rest;
    } else {
      states := ExecutesAnyway(s, t);
    }
  }

  lemma InFlightHoldsNothing(s: State, u: Activity, t: Activity)
    requires Inv(s) && s.At(u) == HasAll(Cancel) && s.At(t).InFlight()
    ensures s.At(t) == Accepted || s.At(t) == Runner || s.At(t) == Wants(Refuse)
  {
    assert u != t && s.accessLock == Some(u) && s.executionLock == Some(u);
    assert !s.At(t).HoldsExecution() && !s.At(t).HoldsAccess();
  }

  /** After a cancel has gone through, the work stays canceled on every path if and only if no runner was
      already under way for it; one that was executes the canceled work. */
  lemma CancelIsFinalIff(s: State, u: Activity, s': State)
    requires Inv(s) && !s.undefined && s.place != Dormant && s.At(u) == HasAll(Cancel) && StepOf(s, u, s')
    ensures (forall states: seq<State>, i: nat | Path(states) && states[0] == s' && i < |states|
      :: states[i].work.state == Canceled)
       <==> (forall t :: !s.At(t).InFlight())
  {
    StepMovesOne(s, u, s');
    if forall t :: !s.At(t).InFlight() {
      forall states: seq<State>, i: nat | Path(states) && states[0] == s' && i < |states|
        ensures states[i].work.state == Canceled
      {
        SettledForGood(states, 0, i);
      }
    } else {
      var t :| s.At(t).InFlight();
      InFlightHoldsNothing(s, u, t);
      var states := GoesOn(s', t);
      assert Path(states) && states[0] == s' && states[|states| - 1].work.state != Canceled;
    }
  }
}
