/** The asynchronous executor (src/util/AsyncExecutor.cpp): one runner at a time, started again any
    number of times, against any number of threads that invoke tasks and ask it to stop. */
module AsyncExecution {

  type Task = int

  datatype Runner =
    | Absent
    | Checking             // at the loop condition
    | Looking              // about to lock the queue and look
    | Waiting              // found it empty; in, or just before, the wait for the event
    | Executing(task: Task)
    | Leaving              // out of the loop, the stop flag not yet taken down

  /** invoking: a thread has pushed a task, holds the queue lock and is about to set the event; stopping:
      how many threads have raised the stop flag and are about to set it. The last two fields record the
      tasks invoked and executed so far. */
  datatype State = State(queue: seq<Task>, event: bool, stopRequested: bool, invoking: bool, stopping: nat,
                         runner: Runner, invoked: seq<Task>, executed: seq<Task>)

  /** One step of run(); none while it waits for the event or for the queue lock. */
  predicate RunnerSteps(s: State, s': State) {
    match s.runner
    case Absent => s' == s.(runner := Checking)
    case Checking => s' == s.(runner := if s.stopRequested then Leaving else Looking)
    case Looking => !s.invoking &&
      s' == if s.queue == [] then s.(runner := Waiting)
            else s.(queue := s.queue[1..], runner := Executing(s.queue[0]))
    case Waiting => s.event && s' == s.(event := false, runner := Checking)
    case Executing(task) => s' == s.(executed := s.executed + [task], runner := Checking)
    case Leaving => s' == s.(stopRequested := false, runner := Absent)
  }

  ghost predicate InvokeSteps(s: State, s': State) {
    || (!s.invoking && exists task ::
          s' == s.(queue := s.queue + [task], invoked := s.invoked + [task], invoking := true))
    || (s.invoking && s' == s.(event := true, invoking := false))
  }

  predicate StopSteps(s: State, s': State) {
    || s' == s.(stopRequested := true, stopping := s.stopping + 1)
    || (s.stopping > 0 && s' == s.(event := true, stopping := s.stopping - 1))
  }

  ghost predicate Next(s: State, s': State) {
    RunnerSteps(s, s') || InvokeSteps(s, s') || StopSteps(s, s')
  }

  ghost predicate Run(states: seq<State>) {
    && states != []
    && states[0] == State([], false, false, false, 0, Absent, [], [])
    && forall i | 0 <= i < |states| - 1 :: Next(states[i], states[i + 1])
  }

  function InFlight(s: State): seq<Task> { if s.runner.Executing? then [s.runner.task] else [] }

  ghost predicate Inv(s: State) {
    && s.executed + InFlight(s) + s.queue == s.invoked
    && (s.runner.Waiting? && !s.event && !s.invoking ==> s.queue == [])
    && ((s.runner.Waiting? || s.runner.Looking?) && !s.event && s.stopRequested ==> s.stopping > 0)
  }

  lemma RunnerKeepsInv(s: State, s': State)
    requires Inv(s) && RunnerSteps(s, s')
    ensures Inv(s')
  {
    if s.runner.Looking? && s.queue != [] {
      assert s.queue == [s.queue[0]] + s.queue[1..];
    }
  }

  lemma OthersKeepInv(s: State, s': State)
    requires Inv(s) && (InvokeSteps(s, s') || StopSteps(s, s'))
    ensures Inv(s')
  {
  }

  lemma NextKeepsInv(s: State, s': State)
    requires Inv(s) && Next(s, s')
    ensures Inv(s')
  {
    if RunnerSteps(s, s') { RunnerKeepsInv(s, s'); } else { OthersKeepInv(s, s'); }
  }

  lemma {:induction false} RunKeepsInv(states: seq<State>, i: nat)
    requires Run(states) && i < |states|
    ensures Inv(states[i])
  {
    if i > 0 {
      RunKeepsInv(states, i - 1);
      NextKeepsInv(states[i - 1], states[i]);
    }
  }

  /** First in, first out, nothing lost and nothing twice: in every run, however often it is stopped and run
      again, the executed tasks, the one in flight and the queue are together the invoked tasks in order. */
  lemma FirstInFirstOut(states: seq<State>, i: nat)
    requires Run(states) && i < |states|
    ensures states[i].executed + InFlight(states[i]) + states[i].queue == states[i].invoked
    ensures states[i].executed <= states[i].invoked
  {
    RunKeepsInv(states, i);
    var s := states[i];
    assert s.invoked == s.executed + (InFlight(s) + s.queue);
  }

  /** Neither a task nor a stop is slept through: while the event is unset, a waiting runner faces an empty
      queue, or one whose invoker is about to set the event, and no stop request, or one whose stopper is. */
  lemma NothingSleptThrough(states: seq<State>, i: nat)
    requires Run(states) && i < |states| && states[i].runner.Waiting? && !states[i].event
    ensures states[i].queue == [] || states[i].invoking
    ensures !states[i].stopRequested || states[i].stopping > 0
  {
    RunKeepsInv(states, i);
  }

  /** What invoke() and stop() leave behind: the task at the end of the queue, or the request raised; and the event
      set in either case. */
  lemma InvokeAndStop(s: State, t: State, u: State)
    ensures !s.invoking && InvokeSteps(s, t) && InvokeSteps(t, u) ==>
      && |u.queue| == |s.queue| + 1 && u.queue[..|s.queue|] == s.queue && u.event && !u.invoking
      && u.stopRequested == s.stopRequested && u.invoked == s.invoked + [u.queue[|s.queue|]]
    ensures StopSteps(s, t) && t.stopping > s.stopping && StopSteps(t, u) && u.stopping == s.stopping ==>
      u.stopRequested && u.event && u.queue == s.queue && u.invoked == s.invoked
  {
  }

  // ----- the runner left to itself

  ghost predicate Alone(states: seq<State>) {
    states != [] && forall i | 0 <= i < |states| - 1 :: RunnerSteps(states[i], states[i + 1])
  }

  /** It has a step unless it waits for an event that is not set, or for the queue lock. */
  lemma RunnerCanStep(s: State) returns (s': State)
    requires !(s.runner.Waiting? && !s.event) && !(s.runner.Looking? && s.invoking)
    ensures RunnerSteps(s, s')
  {
    match s.runner
    case Absent => s' := s.(runner := Checking);
    case Checking => s' := s.(runner := if s.stopRequested then Leaving else Looking);
    case Looking =>
      s' := if s.queue == [] then s.(runner := Waiting)
            else s.(queue := s.queue[1..], runner := Executing(s.queue[0]));
    case Waiting => s' := s.(event := false, runner := Checking);
    case Executing(task) => s' := s.(executed := s.executed + [task], runner := Checking);
    case Leaving => s' := s.(stopRequested := false, runner := Absent);
  }

  /** How many steps, at most, the runner can still take when nobody asks it to stop. */
  function StepsLeft(s: State): nat {
    3 * |s.queue| + (if s.event then 3 else 0) + match s.runner
      case Absent => 3
      case Checking => 2
      case Looking => 1
      case Waiting => 0
      case Executing(_) => 3
      case Leaving => 4
  }

  /** Left to itself, with no stop requested, a runner, be it started again after a stop, executes the queued tasks in
      order: it comes to wait, with all of them executed, after a bounded number of steps, and does not leave. */
  lemma {:induction false} RunnerDrains(states: seq<State>, i: nat)
    requires Alone(states) && i < |states| && Inv(states[0])
    requires !states[0].stopRequested && !states[0].invoking && !states[0].runner.Leaving?
    ensures var s, first := states[i], states[0];
      && Inv(s) && !s.stopRequested && !s.invoking && !s.runner.Leaving? && s.invoked == first.invoked
      && i + StepsLeft(s) <= StepsLeft(first)
      && (s.runner.Waiting? && !s.event ==> s.executed == first.executed + InFlight(first) + first.queue)
  {
    if i > 0 {
      RunnerDrains(states, i - 1);
      RunnerKeepsInv(states[i - 1], states[i]);
    }
  }

  function StepsToLeave(s: State): nat {
    match s.runner
    case Looking => 5
    case Waiting => 4
    case Executing(_) => 3
    case Checking => 2
    case Leaving => 1
    case Absent => 0
  }

  /** Left to itself after a stop, a runner leaves within five steps and takes the stop request back; no task is lost,
      and at most one more is executed. */
  lemma {:induction false} RunnerStops(states: seq<State>, i: nat)
    requires Alone(states) && i < |states| && Inv(states[0])
    requires states[0].stopRequested && states[0].stopping == 0 && !states[0].invoking && !states[0].runner.Absent?
    requires forall k | 0 <= k < i :: !states[k].runner.Absent?
    ensures var s, first := states[i], states[0];
      && i + StepsToLeave(s) <= StepsToLeave(first) <= 5
      && Inv(s) && !s.invoking && s.stopping == 0 && s.invoked == first.invoked
      && (s.stopRequested <==> !s.runner.Absent?)
      && (s.queue == first.queue || (first.runner.Looking? && first.queue != [] && s.queue == first.queue[1..]))
      && (s.runner.Looking? ==> s == first)
      && (s.runner.Absent? ==> s.executed + s.queue == first.executed + InFlight(first) + first.queue)
  {
    if i > 0 {
      RunnerStops(states, i - 1);
      RunnerKeepsInv(states[i - 1], states[i]);
    }
  }
}
