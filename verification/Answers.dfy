/** Answers, their results and the dispatcher that fills them (src/core/Answer.cpp, Result.cpp,
    AnswerQueue.cpp, CommandDispatcher.cpp), each method with the locks held that its source takes. */
module Answers {

  datatype Status = PENDING | SUCCESS | FAILED
  {
    function Rank(): int {
      match this case PENDING => 0 case SUCCESS => 1 case FAILED => 2
    }
  }

  /** The list of the dirty answers has just the dirty ones. */
  lemma {:induction false} DirtyAre(answers: seq<Answer>, a: Answer)
    ensures a in AnswerQueue.Dirty(answers) <==> a in answers && a.dirty
  {
    if answers != [] { DirtyAre(answers[1..], a); }
  }

  /** And has them in order. */
  lemma {:induction false} DirtyInOrder(first: seq<Answer>, rest: seq<Answer>)
    ensures AnswerQueue.Dirty(first + rest) == AnswerQueue.Dirty(first) + AnswerQueue.Dirty(rest)
  {
    if first == [] {
      assert first + rest == rest;
    } else {
      assert (first + rest)[1..] == first[1..] + rest;
      DirtyInOrder(first[1..], rest);
    }
  }

  /** The accepting handlers are the registered ones that accept, each as often as it is registered. */
  lemma {:induction false} AcceptingAre(handlers: seq<nat>, accepts: set<nat>, h: nat)
    ensures multiset(CommandDispatcher.Accepting(handlers, accepts))[h] ==
      if h in accepts then multiset(handlers)[h] else 0
    decreases |handlers|
  {
    if handlers != [] {
      var front, end := handlers[..|handlers| - 1], handlers[|handlers| - 1];
      assert handlers == front + [end];
      AcceptingAre(front, accepts, h);
    }
  }

  /** They are in the order of registration. */
  lemma {:induction false} AcceptingInOrder(first: seq<nat>, rest: seq<nat>, accepts: set<nat>)
    ensures CommandDispatcher.Accepting(first + rest, accepts)
         == CommandDispatcher.Accepting(first, accepts) + CommandDispatcher.Accepting(rest, accepts)
    decreases |rest|
  {
    if rest == [] {
      assert first + rest == first;
    } else {
      assert (first + rest)[..|first + rest| - 1] == first + rest[..|rest| - 1];
      AcceptingInOrder(first, rest[..|rest| - 1], accepts);
    }
  }

  class AnswerQueue {
    var answers: seq<Answer>  // m_answerList
    var event: bool           // m_event

    constructor ()
      ensures answers == [] && !event
    {
      answers, event := [], false;
    }

    /** The dirty answers of a list, in its order. */
    static function Dirty(answers: seq<Answer>): seq<Answer>
      reads answers
    {
      if answers == [] then []
      else (if answers[0].dirty then [answers[0]] else []) + Dirty(answers[1..])
    }

    /** listDirty: reports the dirty answers and takes the mark off them. An answer adds itself to the list
        once, when it is made. */
    method ListDirty() returns (dirtyList: seq<Answer>)
      requires forall i, j | 0 <= i < j < |answers| :: answers[i] != answers[j]
      modifies set a | a in answers :: a`dirty
      ensures dirtyList == old(Dirty(answers))
      ensures forall a | a in answers :: !a.dirty
    {
      dirtyList := [];
      var i := 0;
      while i < |answers|
        invariant i <= |answers| && answers == old(answers)
        invariant forall k | 0 <= k < i :: !answers[k].dirty
        invariant forall k | i <= k < |answers| :: answers[k].dirty == old(answers[k].dirty)
        invariant dirtyList + old(Dirty(answers[i..])) == old(Dirty(answers))
      {
        var answer := answers[i];
        assert answer in old(answers);
        assert answers[i..][0] == answer && answers[i..][1..] == answers[i + 1..];
        if answer.dirty {
          dirtyList := dirtyList + [answer];
          answer.dirty := false;
        }
        i := i + 1;
      }
    }

    method Remove(answer: Answer)
      modifies this`answers
      ensures answer !in old(answers) ==> answers == old(answers)
      ensures answer in old(answers) ==> exists k | 0 <= k < |old(answers)| ::
        && old(answers)[k] == answer && answer !in old(answers)[..k]
        && answers == old(answers)[..k] + old(answers)[k + 1..]
    {
      var k := 0;
      while k < |answers| && answers[k] != answer
        invariant k <= |answers| && answer !in answers[..k]
      {
        k := k + 1;
      }
      if k < |answers| { answers := answers[..k] + answers[k + 1..]; }
    }
  }

  class Answer {
    const queue: AnswerQueue
    var dirty: bool
    var results: seq<Result>
    var commands: nat           // m_commands
    var commandList: seq<nat>   // m_commandList, by handler
    var started: seq<nat>       // what the task manager was told to start

    constructor (queue: AnswerQueue)
      modifies queue`answers
      ensures this.queue == queue && !dirty && results == [] && commands == 0 && commandList == [] && started == []
      ensures queue.answers == old(queue.answers) + [this]
    {
      this.queue := queue;
      dirty, results, commands, commandList, started := false, [], 0, [], [];
      new;
      queue.answers := queue.answers + [this];
    }

    function Statuses(): (s: seq<Status>)
      reads this, results
      ensures |s| == |results| && forall i | 0 <= i < |s| :: s[i] == results[i].status
    {
      seq(|results|, i requires 0 <= i < |results| reads this, results => results[i].status)
    }

    /** isPendingUnlocked */
    method IsPending() returns (pending: bool)
      ensures pending <==> Pending(commands, Statuses())
    {
      if commands != |results| { return true; }
      if commands == 0 { return false; }
      var i := 0;
      while i < |results|
        invariant i <= |results| && forall k | 0 <= k < i :: results[k].status != PENDING
      {
        if results[i].status == PENDING {
          assert Statuses()[i] == PENDING;
          return true;
        }
        i := i + 1;
      }
      assert forall k | 0 <= k < |results| :: Statuses()[k] != PENDING;
      pending := false;
    }

    method AddCommand(handler: nat)
      modifies this`commandList, this`commands
      ensures commandList == old(commandList) + [handler] && commands == old(commands) + 1
    {
      commandList := commandList + [handler];
      commands := commands + 1;
    }

    method RunCommands()
      modifies this`commandList, this`started
      ensures started == old(started) + old(commandList) && commandList == []
    {
      started := started + commandList;
      commandList := [];
    }

    method NotifyUpdated()
      modifies this`dirty, queue`event
      ensures dirty && queue.event
    {
      dirty := true;
      queue.event := true;
    }
  }

  /** What an answer with so many commands and such results counts as. */
  predicate Pending(commands: nat, results: seq<Status>) {
    commands != |results| || PENDING in results
  }

  class Result {
    const answer: Answer
    var status: Status

    constructor (answer: Answer)
      modifies answer`results
      ensures this.answer == answer && status == PENDING
      ensures answer.results == old(answer.results) + [this]
    {
      this.answer := answer;
      status := PENDING;
      new;
      answer.results := answer.results + [this];
    }

    /** setStatusUnlocked: a status only ever rises; each rise marks the answer and sets the event. */
    method SetStatus(to: Status) returns (ok: bool)
      modifies this`status, answer`dirty, answer.queue`event
      ensures ok <==> to == old(status) || old(status) == PENDING || (old(status) == SUCCESS && to == FAILED)
      ensures status == if ok then to else old(status)
      ensures status != old(status) ==> answer.dirty && answer.queue.event
      ensures status == old(status) ==>
        answer.dirty == old(answer.dirty) && answer.queue.event == old(answer.queue.event)
    {
      if status == to { return true; }
      if to.Rank() < status.Rank() { return false; }
      status := to;
      answer.NotifyUpdated();
      ok := true;
    }
  }

  class CommandDispatcher {
    var handlers: seq<nat>

    constructor ()
      ensures handlers == []
    {
      handlers := [];
    }

    /** registerHandler: refuses a handler that is registered already. */
    method RegisterHandler(handler: nat) returns (ok: bool)
      requires forall i, j | 0 <= i < j < |handlers| :: handlers[i] != handlers[j]
      modifies this
      ensures ok <==> handler !in old(handlers)
      ensures handlers == if ok then old(handlers) + [handler] else old(handlers)
      ensures forall i, j | 0 <= i < j < |handlers| :: handlers[i] != handlers[j]
    {
      for i := 0 to |handlers|
        invariant handler !in handlers[..i]
        invariant handlers == old(handlers)
      {
        if handlers[i] == handler { return false; }
      }
      handlers := handlers + [handler];
      ok := true;
    }

    /** The handlers that accept a command, in order of registration. */
    static function Accepting(handlers: seq<nat>, accepts: set<nat>): seq<nat> {
      if handlers == [] then []
      else
        var last := |handlers| - 1;
        Accepting(handlers[..last], accepts) + (if handlers[last] in accepts then [handlers[last]] else [])
    }

    /** dispatch(): all commands are counted before the first is started; when nothing is pending the
        answer is marked dirty at once instead. */
    method Dispatch(accepts: set<nat>, answer: Answer)
      modifies answer`commandList, answer`commands, answer`started, answer`dirty, answer.queue`event
      ensures answer.commands == old(answer.commands) + |Accepting(handlers, accepts)|
      ensures Pending(answer.commands, answer.Statuses()) ==>
        && answer.started == old(answer.started) + old(answer.commandList) + Accepting(handlers, accepts)
        && answer.commandList == []
        && answer.dirty == old(answer.dirty) && answer.queue.event == old(answer.queue.event)
      ensures !Pending(answer.commands, answer.Statuses()) ==>
        && answer.dirty && answer.queue.event && answer.started == old(answer.started)
        && answer.commandList == old(answer.commandList) + Accepting(handlers, accepts)
      ensures answer.Statuses() == old(answer.Statuses())
    {
      var i := 0;
      while i < |handlers|
        invariant i <= |handlers|
        invariant answer.commandList == old(answer.commandList) + Accepting(handlers[..i], accepts)
        invariant answer.commands == old(answer.commands) + |Accepting(handlers[..i], accepts)|
        invariant answer.started == old(answer.started) && answer.dirty == old(answer.dirty)
        invariant answer.queue.event == old(answer.queue.event)
      {
        assert handlers[..i + 1][..i] == handlers[..i];
        if handlers[i] in accepts { answer.AddCommand(handlers[i]); }
        i := i + 1;
      }
      assert handlers[..i] == handlers;
      assert answer.Statuses() == old(answer.Statuses());
      var pending := answer.IsPending();
      if !pending {
        answer.NotifyUpdated();
      } else {
        answer.RunCommands();
      }
    }
  }
}
