/** One dispatch of a command to any number of handlers, and the handlers at work
    (src/core/CommandDispatcher.cpp, Answer.cpp, CommandRunner.cpp): when the answer stops being pending. */
module CommandCounting {
  import opened Answers

  /** Each accepting handler adds exactly one result when it runs; its place in the results is kept. */
  datatype Handler = Counted | Running | Reported(result: nat)

  datatype Dispatcher = Counting(next: nat) | Dispatched

  datatype State = State(commands: nat, results: seq<Status>, handlers: map<nat, Handler>,
                         dirty: bool, dispatcher: Dispatcher)

  function IsPending(s: State): bool { Pending(s.commands, s.results) }

  /** addCommand, or the handler does not accept; the decision of dispatch() when all have been asked. */
  ghost predicate DispatcherSteps(accepts: seq<bool>, s: State, s': State) {
    && s.dispatcher.Counting? && s.dispatcher.next <= |accepts|
    && var k := s.dispatcher.next;
    && s' == if k < |accepts| then
               if accepts[k] then
                 s.(commands := s.commands + 1, handlers := s.handlers[k := Counted], dispatcher := Counting(k + 1))
               else s.(dispatcher := Counting(k + 1))
             else if !IsPending(s) then s.(dirty := true, dispatcher := Dispatched)
             else s.(handlers := (map h | h in s.handlers :: Running), dispatcher := Dispatched)
  }

  /** A running handler creates its result, PENDING at first. */
  ghost predicate Reports(s: State, h: nat, s': State) {
    && h in s.handlers && s.handlers[h] == Running
    && s' == s.(results := s.results + [PENDING], handlers := s.handlers[h := Reported(|s.results|)])
  }

  /** A result's status rises. */
  ghost predicate Rises(s: State, r: nat, to: Status, s': State) {
    && r < |s.results| && s.results[r].Rank() < to.Rank()
    && s' == s.(results := s.results[r := to], dirty := true)
  }

  /** A listing of the answer queue takes the mark off. */
  predicate Listed(s: State, s': State) { s' == s.(dirty := false) }

  ghost predicate Next(accepts: seq<bool>, s: State, s': State) {
    || DispatcherSteps(accepts, s, s')
    || (exists h :: Reports(s, h, s'))
    || (exists r, to :: Rises(s, r, to, s'))
    || Listed(s, s')
  }

  ghost predicate Run(accepts: seq<bool>, states: seq<State>) {
    && states != []
    && states[0] == State(0, [], map[], false, Counting(0))
    && forall i | 0 <= i < |states| - 1 :: Next(accepts, states[i], states[i + 1])
  }

  function AcceptingBelow(accepts: seq<bool>, k: nat): set<nat> {
    set h: nat | h < k && h < |accepts| && accepts[h]
  }

  ghost function Reporters(s: State): set<nat> { set h | h in s.handlers && s.handlers[h].Reported? }

  ghost predicate Inv(accepts: seq<bool>, s: State) {
    && (s.dispatcher.Counting? ==>
          && s.dispatcher.next <= |accepts| && s.results == []
          && s.handlers.Keys == AcceptingBelow(accepts, s.dispatcher.next)
          && forall h | h in s.handlers :: s.handlers[h] == Counted)
    && (s.dispatcher.Dispatched? ==>
          && s.handlers.Keys == AcceptingBelow(accepts, |accepts|)
          && forall h | h in s.handlers :: s.handlers[h] != Counted)
    && s.commands == |s.handlers|
    && |s.results| == |Reporters(s)|
  }

  lemma DispatcherKeepsInv(accepts: seq<bool>, s: State, s': State)
    requires Inv(accepts, s) && DispatcherSteps(accepts, s, s')
    ensures Inv(accepts, s')
  {
    assert Reporters(s') == {};
    if s.dispatcher.next < |accepts| {
      CountKeepsInv(accepts, s, s');
    } else if !IsPending(s) {
      assert |s.handlers| == 0;
      assert s.handlers == map[];
    } else {
      assert s'.handlers.Keys == s.handlers.Keys;
      assert |s'.handlers| == |s'.handlers.Keys| == |s.handlers.Keys| == |s.handlers|;
    }
  }

  lemma AddedKey<K, V>(m: map<K, V>, k: K, v: V)
    requires k !in m
    ensures m[k := v].Keys == m.Keys + {k} && |m[k := v]| == |m| + 1
  {
  }

  lemma NextAccepting(accepts: seq<bool>, k: nat)
    requires k < |accepts|
    ensures AcceptingBelow(accepts, k + 1) ==
      if accepts[k] then AcceptingBelow(accepts, k) + {k} else AcceptingBelow(accepts, k)
  {
  }

  lemma CountKeepsInv(accepts: seq<bool>, s: State, s': State)
    requires Inv(accepts, s) && DispatcherSteps(accepts, s, s') && s.dispatcher.next < |accepts|
    ensures s'.handlers.Keys == AcceptingBelow(accepts, s'.dispatcher.next)
    ensures s'.commands == |s'.handlers|
  {
    var k := s.dispatcher.next;
    NextAccepting(accepts, k);
    if accepts[k] { AddedKey(s.handlers, k, Counted); }
  }

  lemma ReportKeepsInv(accepts: seq<bool>, s: State, h: nat, s': State)
    requires Inv(accepts, s) && Reports(s, h, s')
    ensures Inv(accepts, s')
  {
    assert Reporters(s') == Reporters(s) + {h};
    assert s'.handlers.Keys == s.handlers.Keys;
  }

  lemma {:induction false} RunKeepsInv(accepts: seq<bool>, states: seq<State>, i: nat)
    requires Run(accepts, states) && i < |states|
    ensures Inv(accepts, states[i])
  {
    if i > 0 {
      var s, s' := states[i - 1], states[i];
      RunKeepsInv(accepts, states, i - 1);
      if DispatcherSteps(accepts, s, s') {
        DispatcherKeepsInv(accepts, s, s');
      } else if h :| Reports(s, h, s') {
        ReportKeepsInv(accepts, s, h, s');
      } else {
        OthersKeepInv(accepts, s, s');
      }
    }
  }

  lemma OthersKeepInv(accepts: seq<bool>, s: State, s': State)
    requires Inv(accepts, s) && (Listed(s, s') || exists r, to :: Rises(s, r, to, s'))
    ensures Inv(accepts, s')
  {
    assert Reporters(s') == Reporters(s);
  }

  lemma {:induction false} EqualSize<T>(a: set<T>, b: set<T>)
    requires a <= b && |a| == |b|
    ensures a == b
  {
    assert b == a + (b - a);
  }

  ghost predicate HasReported(s: State, h: nat) { h in s.handlers && s.handlers[h].Reported? }

  /** Once the command is dispatched, in every interleaving, the answer is not pending if and only if every
      accepting handler has added its result and no result is PENDING. */
  lemma NotPendingIff(accepts: seq<bool>, states: seq<State>, i: nat)
    requires Run(accepts, states) && i < |states| && states[i].dispatcher.Dispatched?
    ensures !IsPending(states[i]) <==>
      && (forall h: nat | h < |accepts| && accepts[h] :: HasReported(states[i], h))
      && PENDING !in states[i].results
  {
    var s := states[i];
    RunKeepsInv(accepts, states, i);
    assert Reporters(s) <= s.handlers.Keys;
    assert |s.handlers.Keys| == |s.handlers|;
    if s.commands == |s.results| {
      EqualSize(Reporters(s), s.handlers.Keys);
      forall h: nat | h < |accepts| && accepts[h]
        ensures HasReported(s, h)
      {
        assert h in s.handlers.Keys;
      }
    }
    if forall h: nat | h < |accepts| && accepts[h] :: HasReported(s, h) {
      assert Reporters(s) == s.handlers.Keys;
    }
  }

  /** While handlers are still being asked, nothing has run and no result is there. */
  lemma NothingRunsWhileCounting(accepts: seq<bool>, states: seq<State>, i: nat)
    requires Run(accepts, states) && i < |states| && states[i].dispatcher.Counting?
    ensures states[i].results == [] && forall h | h in states[i].handlers :: states[i].handlers[h] == Counted
    ensures states[i].commands == |AcceptingBelow(accepts, states[i].dispatcher.next)|
  {
    RunKeepsInv(accepts, states, i);
  }

  /** With no accepting handler the dispatch itself marks the answer dirty, and otherwise leaves it alone. */
  lemma DispatchMarksIffNoneAccepts(accepts: seq<bool>, states: seq<State>, i: nat)
    requires Run(accepts, states) && i + 1 < |states| && DispatcherSteps(accepts, states[i], states[i + 1])
    requires states[i + 1].dispatcher.Dispatched?
    ensures if exists h: nat :: h < |accepts| && accepts[h]
            then states[i + 1].dirty == states[i].dirty && IsPending(states[i + 1])
            else states[i + 1].dirty && !IsPending(states[i + 1])
  {
    RunKeepsInv(accepts, states, i);
    if h: nat :| h < |accepts| && accepts[h] {
      assert h in AcceptingBelow(accepts, |accepts|) && h in states[i].handlers;
      assert |states[i].handlers| > 0;
    } else {
      assert AcceptingBelow(accepts, |accepts|) == {};
    }
  }

  /** Once it has stopped being pending, an answer never is again. */
  lemma {:induction false} SettledForGood(accepts: seq<bool>, states: seq<State>, i: nat, j: nat)
    requires Run(accepts, states) && i <= j < |states|
    requires states[i].dispatcher.Dispatched? && !IsPending(states[i])
    ensures states[j].dispatcher.Dispatched? && !IsPending(states[j])
  {
    if i < j {
      SettledForGood(accepts, states, i, j - 1);
      var s, s' := states[j - 1], states[j];
      NotPendingIff(accepts, states, j - 1);
      RunKeepsInv(accepts, states, j - 1);
      assert forall h | h in s.handlers :: h in AcceptingBelow(accepts, |accepts|) && HasReported(s, h);
    }
  }

  /** Dispatched, and not pending. */
  predicate Complete(s: State) { s.dispatcher.Dispatched? && !IsPending(s) }

  /** The step with which the answer stops being pending leaves it dirty, whoever takes it: so its completion is
      among the changes that are reported. */
  lemma CompletionMarks(accepts: seq<bool>, states: seq<State>, i: nat)
    requires Run(accepts, states) && i + 1 < |states|
    requires !Complete(states[i]) && Complete(states[i + 1])
    ensures states[i + 1].dirty
  {
    var s, s' := states[i], states[i + 1];
    RunKeepsInv(accepts, states, i);
    assert (s.results + [PENDING])[|s.results|] == PENDING;
  }
}
