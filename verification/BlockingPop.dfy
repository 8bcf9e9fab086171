/** The blocking pop() of the queue against any number of producers (base/src/work/BasicQueue.cpp):
    one consumer, an auto-reset event, and a clock that never runs backward. A producer changes the
    queue and sets the event while it holds the queue lock; the consumer takes that lock only to look
    at the queue, not to wait. */
module BlockingPop {
  import opened Basics
  import opened WorkOrder
  import opened WorkQueue

  /** Where the consumer stands in pop() and block(). Deadline is the activation time that a timed wait
      was computed for, until the time before which that wait cannot run out. */
  datatype Consumer =
    | Outside
    | Reading(block: bool)
    | Popping(block: bool, now: int)
    | Missed(block: bool, now: int, at: int)
    | Waiting
    | Sleeping(until: int, deadline: int)
    | Returned(result: Option<Item>)

  /** signalling: a producer has changed the queue, holds its lock and is about to set the event. */
  datatype State = State(queue: Queue, event: bool, signalling: bool, clock: int, pc: Consumer)

  /** Microseconds to milliseconds, rounded up. */
  function Milliseconds(us: int): int {
    Quotient(us, 1000) + if us % 1000 != 0 then 1 else 0
  }

  /** The consumer's next step when it runs; none while it waits for an event that is not set, or for a
      lock that a producer holds. */
  function Consume(s: State): Option<State> {
    match s.pc
    case Outside => None
    case Returned(_) => None
    case Reading(block) => Some(s.(pc := Popping(block, s.clock)))
    case Popping(block, now) =>
      if s.signalling then None
      else
        var (popped, rest) := PopFast(s.queue, now);
        Some(s.(queue := rest, pc := match popped
          case Due(item) => Returned(Some(item))
          case TooEarly(at) => Missed(block, now, at)
          case Nothing => Missed(block, now, now - 1)))
    case Missed(block, now, at) =>
      Some(s.(pc :=
        if !block then Returned(None)
        else if at < now then Waiting
        else if at > now then Sleeping(s.clock + Milliseconds(at - now) * 1000, at)
        else Reading(false)))
    case Waiting => if s.event then Some(s.(event := false, pc := Reading(false))) else None
    case Sleeping(_, _) => if s.event then Some(s.(event := false, pc := Reading(true))) else None
  }

  predicate TimesOut(s: State, s': State) {
    s.pc.Sleeping? && s.clock >= s.pc.until && s' == s.(pc := Reading(false))
  }

  ghost predicate Changed(q: Queue, q': Queue) {
    || (exists id, time, priority :: Pushed(q, id, time, priority, q'))
    || (exists id :: Holds(q, id) && CancelDefined(q, id) && q' == AfterCancel(q, id))
  }

  ghost predicate Next(s: State, s': State) {
    || Consume(s) == Some(s')
    || TimesOut(s, s')
    || (exists block :: (s.pc.Outside? || s.pc.Returned?) && s' == s.(pc := Reading(block)))
    || (!s.signalling && Changed(s.queue, s'.queue) && s' == s.(queue := s'.queue, signalling := true))
    || (s.signalling && s' == s.(event := true, signalling := false))
    || s' == s.(event := true)  // notify(), or a push that is ignored
    || (s.clock <= s'.clock && s' == s.(clock := s'.clock))
  }

  ghost predicate Run(states: seq<State>) {
    && states != []
    && states[0] == State(EMPTY, false, false, states[0].clock, Outside)
    && forall i | 0 <= i < |states| - 1 :: Next(states[i], states[i + 1])
  }

  /** The event is unset and nobody is about to set it. */
  predicate Quiet(s: State) { !s.event && !s.signalling }

  predicate HeadAt(q: Queue, at: int) { q.active != [] && q.active[0].key.at == at }

  ghost predicate Inv(s: State) {
    match s.pc
    case Outside => true
    case Reading(_) => true
    case Popping(_, now) => now <= s.clock
    case Missed(_, now, at) =>
      && now <= s.clock && at != now
      && (Quiet(s) ==> if at < now then s.queue.active == [] else HeadAt(s.queue, at))
    case Waiting => Quiet(s) ==> s.queue.active == []
    case Sleeping(until, deadline) => until >= deadline && (Quiet(s) ==> HeadAt(s.queue, deadline))
    case Returned(result) => result.Some? ==> result.value.key.at <= s.clock
  }

  lemma RoundedUp(us: int)
    requires us > 0
    ensures us <= Milliseconds(us) * 1000 < us + 1000
  {
  }

  lemma NextKeepsInv(s: State, s': State)
    requires Inv(s) && Next(s, s')
    ensures Inv(s')
  {
    if s.pc.Missed? && s.pc.at > s.pc.now { RoundedUp(s.pc.at - s.pc.now); }
  }

  lemma {:induction false} RunKeepsInv(states: seq<State>, i: nat)
    requires Run(states) && i < |states|
    ensures Inv(states[i])
  {
    if i > 0 {
      RunKeepsInv(states, i - 1);
      NextKeepsInv(states[i - 1], states[i]);
    }
  }

  /** No wakeup is lost. In every run, while the event is unset and no producer is about to set it, a
      consumer that waits indefinitely leaves nothing active behind, and one that sleeps does so for the
      present head; the rounding to milliseconds never ends the sleep before the head is due. */
  lemma NoLostWakeup(states: seq<State>, i: nat)
    requires Run(states) && i < |states| && Quiet(states[i])
    ensures states[i].pc.Waiting? ==> states[i].queue.active == []
    ensures states[i].pc.Sleeping? ==> HeadAt(states[i].queue, states[i].pc.deadline)
    ensures states[i].pc.Sleeping? && states[i].clock >= states[i].pc.until ==>
      PopFast(states[i].queue, states[i].clock).0.Due?
  {
    RunKeepsInv(states, i);
  }

  /** In every run, a work that pop() returns is due. */
  lemma NeverEarly(states: seq<State>, i: nat)
    requires Run(states) && i < |states|
    ensures states[i].pc.Returned? && states[i].pc.result.Some? ==>
      states[i].pc.result.value.key.at <= states[i].clock
  {
    RunKeepsInv(states, i);
  }

  // ----- being notified while nothing is due

  /** Only the consumer and the clock move; the call of pop() is not followed by another. */
  ghost predicate Undisturbed(s: State, s': State) {
    Consume(s) == Some(s') || TimesOut(s, s') || (s.clock <= s'.clock && s' == s.(clock := s'.clock))
  }

  /** A waiting consumer is woken by the event; from then on nobody signals or changes the queue, and nothing ever
      comes due. */
  ghost predicate NotifiedRun(states: seq<State>) {
    && |states| >= 2
    && (states[0].pc.Waiting? || states[0].pc.Sleeping?) && states[0].event && !states[0].signalling
    && Consume(states[0]) == Some(states[1])
    && (forall i | 1 <= i < |states| - 1 :: Undisturbed(states[i], states[i + 1]))
    && forall i | 0 <= i < |states| :: NothingDue(states[i])
  }

  predicate NothingDue(s: State) { !PopFast(s.queue, s.clock).0.Due? }

  /** Where the woken consumer may be, in a pop() that does or does not block again. */
  ghost predicate Notified(s: State, again: bool) {
    && Quiet(s)
    && match s.pc
       case Outside => false
       case Reading(block) => block == again
       case Popping(block, now) => block == again && now <= s.clock
       case Missed(block, now, at) =>
         block == again && at != now && now <= s.clock && if at < now then s.queue.active == [] else HeadAt(s.queue, at)
       case Waiting => again && s.queue.active == []
       case Sleeping(until, deadline) => again && until >= deadline && HeadAt(s.queue, deadline)
       case Returned(result) => !again && result == None
  }

  lemma UndisturbedKeeps(s: State, s': State, again: bool)
    requires Notified(s, again) && NothingDue(s) && Undisturbed(s, s')
    ensures Notified(s', again) && s'.queue == s.queue
  {
    if s.pc.Missed? && s.pc.at > s.pc.now { RoundedUp(s.pc.at - s.pc.now); }
  }

  lemma {:induction false} NotifiedAll(states: seq<State>, i: nat)
    requires NotifiedRun(states) && 1 <= i < |states|
    ensures Notified(states[i], states[0].pc.Sleeping?) && states[i].queue == states[0].queue
  {
    if i > 1 {
      NotifiedAll(states, i - 1);
      UndisturbedKeeps(states[i - 1], states[i], states[0].pc.Sleeping?);
    }
  }

  /** How many steps the consumer can still take. */
  function ToGo(pc: Consumer): nat {
    if pc.Reading? then 3 else if pc.Popping? then 2 else if pc.Missed? then 1 else 0
  }

  /** A notification does not always interrupt pop(). On every path on which nothing comes due and nobody signals
      again, once the woken consumer can go no further by itself, which takes it three steps, pop() has returned no
      work if and only if it was waiting without a deadline; one that slept waits again, for the present head. */
  lemma NotifyInterruptsIff(states: seq<State>, i: nat)
    requires NotifiedRun(states) && 1 <= i < |states|
    ensures var (s, was) := (states[i], states[0].pc);
      && (if Consume(s).Some? then ToGo(Consume(s).value.pc) == ToGo(s.pc) - 1 else
            && (s.pc == Returned(None) <==> was.Waiting?)
            && (was.Sleeping? && s.queue.active == [] ==> s.pc.Waiting?)
            && (was.Sleeping? && s.queue.active != [] ==> s.pc.Sleeping? && HeadAt(s.queue, s.pc.deadline)))
      && s.queue == states[0].queue
      && (was.Sleeping? ==> !s.pc.Returned?)
      && (was.Waiting? ==> !s.pc.Waiting? && !s.pc.Sleeping?)
  {
    NotifiedAll(states, i);
  }

  /** The consumer running alone for n steps, as far as it gets. */
  function Solo(s: State, n: nat): State
    decreases n
  {
    if n == 0 || Consume(s).None? then s else Solo(Consume(s).value, n - 1)
  }

  /** When the head is due and nobody holds the queue lock, a woken consumer returns it by itself. */
  lemma WokenPopsHead(s: State)
    requires (s.pc.Waiting? || s.pc.Sleeping?) && s.event && !s.signalling
    requires PopFast(s.queue, s.clock).0.Due?
    ensures Solo(s, 3).pc == Returned(Some(s.queue.active[0]))
    ensures Solo(s, 3).queue.active == s.queue.active[1..]
  {
    var s1 := Consume(s).value;
    var s2 := Consume(s1).value;
    var s3 := Consume(s2).value;
    assert Solo(s, 3) == Solo(s1, 2) == Solo(s2, 1) == Solo(s3, 0) == s3;
  }

  // ----- when a timed wait runs out

  /** A timed wait that runs out makes pop() look once more: it returns the head if that is due. */
  lemma TimeoutPopsHead(s: State, s': State)
    requires TimesOut(s, s') && !s.signalling && PopFast(s.queue, s.clock).0.Due?
    ensures Solo(s', 2).pc == Returned(Some(s.queue.active[0]))
    ensures Solo(s', 2).queue.active == s.queue.active[1..]
  {
    var s1 := Consume(s').value;
    var s2 := Consume(s1).value;
    assert Solo(s', 2) == Solo(s1, 1) == Solo(s2, 0) == s2;
  }

  /** And no work if nothing is. */
  lemma TimeoutWithoutDue(s: State, s': State)
    requires TimesOut(s, s') && !s.signalling && !PopFast(s.queue, s.clock).0.Due?
    ensures Solo(s', 3).pc == Returned(None) && Solo(s', 3).queue == s.queue
  {
    var s1 := Consume(s').value;
    var s2 := Consume(s1).value;
    var s3 := Consume(s2).value;
    assert Solo(s', 3) == Solo(s1, 2) == Solo(s2, 1) == Solo(s3, 0) == s3;
  }

  /** In every run, a sleeper whose wait runs out with the event unset and no producer about to set it returns the
      head that it slept for. */
  lemma QuietTimeoutPopsDeadline(states: seq<State>, i: nat, s': State)
    requires Run(states) && i < |states| && Quiet(states[i]) && TimesOut(states[i], s')
    ensures var s := states[i];
      && HeadAt(s.queue, s.pc.deadline) && s.pc.deadline <= s.clock
      && Solo(s', 2).pc == Returned(Some(s.queue.active[0]))
  {
    NoLostWakeup(states, i);
    TimeoutPopsHead(states[i], s');
  }

  /** In a pop() that will not block again. */
  predicate Passing(pc: Consumer) {
    (pc.Reading? && !pc.block) || (pc.Popping? && !pc.block) || (pc.Missed? && !pc.block)
  }

  ghost predicate ReturnedBetween(states: seq<State>, i: nat, j: nat) {
    exists m | i <= m <= j && m < |states| :: states[m].pc.Returned?
  }

  /** In every interleaving: once a timed wait has run out, or the event has ended one without a deadline, that pop()
      does not block again before it returns. */
  lemma {:induction false} NoSecondBlock(states: seq<State>, i: nat, j: nat)
    requires Run(states) && i < j < |states|
    requires TimesOut(states[i], states[i + 1]) || (states[i].pc.Waiting? && Consume(states[i]) == Some(states[i + 1]))
    ensures Passing(states[j].pc) || ReturnedBetween(states, i + 1, j)
  {
    if i + 1 < j {
      NoSecondBlock(states, i, j - 1);
      assert Next(states[j - 1], states[j]);
      if ReturnedBetween(states, i + 1, j - 1) {
        var m :| i + 1 <= m <= j - 1 && states[m].pc.Returned?;
        assert ReturnedBetween(states, i + 1, j);
      } else if !Passing(states[j].pc) {
        assert states[j].pc.Returned?;
      }
    }
  }
}
