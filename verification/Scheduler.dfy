/** The work queue and the processor around it (base/src/work/BasicQueue.cpp, BasicProcessor.cpp).
    Every method runs with the locks held that its source names; what threads do to each other
    between the methods is in BlockingPop and WorkExecution. */
module Scheduler {
  import opened Basics
  import opened WorkOrder
  import opened WorkQueue
  import opened QueueIndex

  class BasicQueue {
    var waiting: map<WorkID, Record>  // m_queue
    var active: seq<Entry>            // m_active, in its order
    var nodes: nat                    // nodes ever allocated by m_active
    var wakeup: bool                  // m_wakeup

    ghost function Indexes(): Index
      reads this
    {
      Index(waiting, active, nodes)
    }

    ghost predicate Valid()
      reads this
    {
      Linked(Indexes())
    }

    ghost function View(): Queue
      reads this
    {
      Abs(Indexes())
    }

    constructor ()
      ensures Valid() && View() == EMPTY && waiting == map[] && !wakeup
    {
      waiting, active, nodes, wakeup := map[], [], 0, false;
    }

    /** The node an iterator of the active index stands for. */
    method Locate(node: nat) returns (k: nat)
      requires exists k | 0 <= k < |active| :: active[k].node == node
      ensures k < |active| && active[k].node == node
    {
      k := 0;
      while active[k].node != node
        invariant k < |active|
        invariant exists j | k <= j < |active| :: active[j].node == node
        decreases |active| - k
      {
        k := k + 1;
      }
    }

    /** Gives a work that has no node one under the key. The multimap attaches it wherever a
        search tree may: at a slot of the key. */
    method Activate(key: Key, work: Work) returns (ghost p: nat)
      requires Valid() && (work.id in waiting ==> waiting[work.id] == Record(work, None))
      modifies this`waiting, this`active, this`nodes
      ensures Valid() && waiting == old(waiting)[work.id := Record(work, Some(old(nodes)))]
      ensures p <= |old(View()).active| && Slot(Keys(old(View()).active), key, p)
      ensures View() == Queue(Insert(old(View()).active, p, Item(key, work.id, old(nodes))),
                old(View()).dormant - {work.id}, old(nodes) + 1)
    {
      SlotExists(Keys(Items(active)), key);
      var q: nat :| q <= |active| && Slot(Keys(Items(active)), key, q);
      p := q;
      Emplaced(Indexes(), key, work, q);
      active := Insert(active, q, Entry(key, work, nodes));
      waiting := waiting[work.id := Record(work, Some(nodes))];
      nodes := nodes + 1;
    }

    /** Erases the node of an active record, which then refers to the end. */
    method Deactivate(id: WorkID)
      requires Valid() && id in waiting && waiting[id].ref.Some?
      modifies this`waiting, this`active
      ensures Valid() && waiting == old(waiting)[id := Record(old(waiting)[id].work, None)]
      ensures View() == Queue(Without(old(View()).active, id), old(View()).dormant + {id}, nodes)
    {
      var k := Locate(waiting[id].ref.value);
      OneRecordPerNode(Indexes(), k, id);
      Erased(Indexes(), k, waiting[id := Record(waiting[id].work, None)]);
      active := Cut(active, k);
      waiting := waiting[id := Record(waiting[id].work, None)];
    }

    /** The key of an active record's node. */
    method KeyOf(id: WorkID) returns (key: Key)
      requires Valid() && id in waiting && waiting[id].ref.Some?
      ensures forall k :: IsActive(View(), id, k) <==> k == key
      ensures IsActive(View(), id, key)
    {
      var k := Locate(waiting[id].ref.value);
      OneRecordPerNode(Indexes(), k, id);
      LinkedIsWf(Indexes());
      ActiveKey(View(), k);
      key := active[k].key;
    }

    /** An event-waiting or unknown work has no node. */
    lemma NoNode(id: WorkID)
      requires Valid() && (id in waiting ==> waiting[id].ref.None?)
      ensures Without(View().active, id) == View().active
      ensures forall key :: !IsActive(View(), id, key)
    {
      WithoutAbsent(View().active, id);
    }

    /** The branch of doPushUnfinishedUnlocked for a work that has a record. */
    method Reschedule(id: WorkID, time: Option<int>, priority: int)
      requires Valid() && id in waiting
      modifies this`waiting, this`active, this`nodes
      ensures Valid() && Pushed(old(View()), id, time, priority, View())
      ensures id in waiting && waiting == old(waiting)[id := Record(old(waiting)[id].work, waiting[id].ref)]
    {
      ghost var before, records := View(), waiting;
      if waiting[id].ref.Some? {
        var key := KeyOf(id);
        if time.None? || time.value != key.at || priority != key.priority {
          Deactivate(id);
        } else {
          assert Key(time.value, priority) == key;
          return;  // the record still refers to its node
        }
      } else {
        NoNode(id);
      }
      if time.Some? {
        ghost var p := Activate(Key(time.value, priority), waiting[id].work);
        ActivatedNow(before, id, Key(time.value, priority), p, View());
      }
      OverrideAgain(records, id, Record(records[id].work, None), waiting[id]);
    }

    /** The branch for a work that has none. */
    method Enlist(work: Work, time: Option<int>, priority: int)
      requires Valid() && work.id !in waiting
      modifies this`waiting, this`active, this`nodes
      ensures Valid() && Pushed(old(View()), work.id, time, priority, View())
      ensures work.id in waiting && waiting == old(waiting)[work.id := Record(work, waiting[work.id].ref)]
    {
      ghost var before := View();
      NoNode(work.id);
      if time.Some? {
        ghost var p := Activate(Key(time.value, priority), work);
        ActivatedNow(before, work.id, Key(time.value, priority), p, View());
      } else {
        Recorded(Indexes(), work);
        waiting := waiting[work.id := Record(work, None)];
      }
    }

    /** doPushUnfinishedUnlocked: a known work keeps its record, and with it the work object it was first
        pushed as. */
    method DoPushUnfinished(work: Work)
      requires Valid()
      modifies this`waiting, this`active, this`nodes, work`state
      ensures Valid() && work.state == Scheduled
      ensures Placed(View(), work.id, work.sleepDuration,
                if work.suspended > 0 then work.suspended else work.created, work.priority)
      ensures Pushed(old(View()), work.id, old(work.ActivationTime()), old(work.priority), View())
      ensures waiting.Keys == old(waiting).Keys + {work.id}
      ensures forall id | id in waiting ::
        waiting[id].work == if id in old(waiting) then old(waiting)[id].work else work
    {
      if work.id in waiting {
        Reschedule(work.id, work.ActivationTime(), work.priority);
      } else {
        Enlist(work, work.ActivationTime(), work.priority);
      }
      LinkedIsWf(old(Indexes()));
      PushPlaces(old(View()), work.id, work.sleepDuration, work.suspended, work.created, work.priority, View());
      work.state := Scheduled;
    }

    method DoPush(work: Work)
      requires Valid()
      modifies this`waiting, this`active, this`nodes, work`state
      ensures Valid()
      ensures old(work.state).Done() ==>
        View() == old(View()) && waiting == old(waiting) && work.state == old(work.state)
      ensures !old(work.state).Done() ==>
        && work.state == Scheduled
        && Placed(View(), work.id, work.sleepDuration,
             if work.suspended > 0 then work.suspended else work.created, work.priority)
        && Pushed(old(View()), work.id, old(work.ActivationTime()), old(work.priority), View())
        && waiting.Keys == old(waiting).Keys + {work.id}
        && forall id | id in waiting ::
             waiting[id].work == if id in old(waiting) then old(waiting)[id].work else work
    {
      if work.state.Done() { return; }
      DoPushUnfinished(work);
    }

    /** pushUnlocked: a work that is done is ignored, but the event is set all the same. */
    method Push(work: Work)
      requires Valid()
      modifies this, work`state
      ensures Valid() && wakeup
      ensures old(work.state).Done() ==>
        View() == old(View()) && waiting == old(waiting) && work.state == old(work.state)
      ensures !old(work.state).Done() ==>
        && work.state == Scheduled
        && Placed(View(), work.id, work.sleepDuration,
             if work.suspended > 0 then work.suspended else work.created, work.priority)
        && Pushed(old(View()), work.id, old(work.ActivationTime()), old(work.priority), View())
        && waiting.Keys == old(waiting).Keys + {work.id}
        && forall id | id in waiting ::
             waiting[id].work == if id in old(waiting) then old(waiting)[id].work else work
    {
      DoPush(work);
      wakeup := true;
    }

    /** wakeupUnlocked: a work that is held becomes due at once, unless it is done. */
    method Wakeup(work: Work)
      requires Valid()
      modifies this, work`state, work`sleepDuration
      ensures Valid() && waiting.Keys == old(waiting).Keys
      ensures work.id !in old(waiting) ==>
        View() == old(View()) && wakeup == old(wakeup) && work.state == old(work.state) &&
        work.sleepDuration == old(work.sleepDuration)
      ensures work.id in old(waiting) ==> wakeup && work.sleepDuration == Some(0)
      ensures work.id in old(waiting) && old(work.state).Done() ==>
        View() == old(View()) && work.state == old(work.state)
      ensures work.id in old(waiting) && !old(work.state).Done() ==>
        && work.state == Scheduled
        && Pushed(old(View()), work.id,
             Some(if work.suspended > 0 then work.suspended else work.created), work.priority, View())
    {
      if work.id !in waiting { return; }
      work.sleepDuration := Some(0);
      DoPush(work);
      wakeup := true;
    }

    /** cancelUnlocked. Erasing the end of the active index is undefined, so for a record that refers to
        it the method says so and promises nothing about the queue. */
    method Cancel(work: Work) returns (defined: bool)
      requires Valid()
      modifies this
      ensures defined <==> CancelDefined(old(View()), work.id)
      ensures defined ==> Valid() && View() == AfterCancel(old(View()), work.id)
      ensures defined ==> wakeup == (old(wakeup) || work.id in old(waiting))
      ensures defined ==> waiting == old(waiting) - {work.id}
    {
      if work.id in waiting {
        if waiting[work.id].ref.None? { return false; }
        var k := Locate(waiting[work.id].ref.value);
        OneRecordPerNode(Indexes(), k, work.id);
        Erased(Indexes(), k, waiting - {work.id});
        active := Cut(active, k);
        waiting := waiting - {work.id};
        wakeup := true;
      } else {
        NoNode(work.id);
      }
      defined := true;
    }

    method PopFast(now: int) returns (at: int, work: Work?)
      requires Valid()
      modifies this`waiting, this`active
      ensures Valid() && View() == WorkQueue.PopFast(old(View()), now).1
      ensures match WorkQueue.PopFast(old(View()), now).0
        case Nothing => at == now - 1 && work == null
        case TooEarly(next) => at == next && work == null
        case Due(item) =>
          at == item.key.at && work != null && item.id in old(waiting) && work == old(waiting)[item.id].work
      ensures waiting == if work == null then old(waiting) else old(waiting) - {work.id}
    {
      if active == [] { return now - 1, null; }
      var key := active[0].key;
      if key.at > now { return key.at, null; }
      at, work := key.at, active[0].work;
      HeadErased(Indexes());
      waiting := waiting - {work.id};
      active := active[1..];
    }

    /** pop(false) */
    method PopReady(now: int) returns (work: Work?)
      requires Valid()
      modifies this`waiting, this`active
      ensures Valid() && View() == WorkQueue.PopFast(old(View()), now).1
      ensures work == null <==> !WorkQueue.PopFast(old(View()), now).0.Due?
      ensures work != null ==>
        && work.id == WorkQueue.PopFast(old(View()), now).0.item.id
        && work.id in old(waiting) && work == old(waiting)[work.id].work
      ensures waiting == if work == null then old(waiting) else old(waiting) - {work.id}
    {
      var at;
      at, work := PopFast(now);
    }
  }

  datatype Dispatched = NoWork | Skipped(id: WorkID) | Refused(id: WorkID) | Run(id: WorkID, executor: nat)

  /** base/src/work/BasicProcessor.cpp, without its repository and its thread pool. */
  class BasicProcessor {
    const queue: BasicQueue

    constructor ()
      ensures fresh(queue) && queue.Valid() && queue.View() == EMPTY
    {
      queue := new BasicQueue();
    }

    method Cancel(work: Work) returns (defined: bool)
      requires queue.Valid()
      modifies queue, work`state
      ensures defined <==> CancelDefined(old(queue.View()), work.id)
      ensures defined ==> queue.Valid() && queue.View() == AfterCancel(old(queue.View()), work.id)
      ensures defined ==> work.state == Canceled && work.id !in queue.waiting
    {
      defined := queue.Cancel(work);
      if defined { work.state := Canceled; }
    }

    /** What loading does to a work: one that was being executed when the process ended has failed, one
        that is done is left alone, any other is scheduled. */
    function Loaded(state: WorkState): WorkState {
      if state == Executed then Failed else if state.Done() then state else Scheduled
    }

    ghost predicate Resumes(state: WorkState) { state == Idle || state == Scheduled }

    method Load(work: Work)
      requires queue.Valid()
      modifies queue, work`state
      ensures queue.Valid() && work.state == Loaded(old(work.state))
      ensures queue.waiting.Keys == old(queue.waiting).Keys + if Resumes(old(work.state)) then {work.id} else {}
    {
      if work.state == Executed {
        work.state := Failed;
      } else if !work.state.Done() {
        queue.Push(work);
      }
    }

    /** initQueue: exactly the loaded works that were idle or scheduled are held afterwards. */
    method InitQueue(loaded: seq<Work>)
      requires queue.Valid()
      modifies queue, set work | work in loaded :: work`state
      ensures queue.Valid()
      ensures forall work | work in loaded ::
        match old(work.state)
        case Executed => work.state == Failed
        case Finished => work.state == Finished
        case Failed => work.state == Failed
        case Canceled => work.state == Canceled
        case Idle => work.state == Scheduled
        case Scheduled => work.state == Scheduled
      ensures forall id :: id in queue.waiting <==>
        id in old(queue.waiting) ||
        exists work | work in loaded :: work.id == id && Resumes(old(work.state))
    {
      for i := 0 to |loaded|
        invariant queue.Valid()
        invariant forall work | work in loaded ::
          work.state == if work in loaded[..i] then Loaded(old(work.state)) else old(work.state)
        invariant forall id :: id in queue.waiting <==>
          id in old(queue.waiting) || exists work | work in loaded[..i] :: work.id == id && Resumes(old(work.state))
      {
        var work := loaded[i];
        assert loaded[..i + 1] == loaded[..i] + [work];
        assert work in loaded && work in (set w | w in loaded);
        Load(work);
      }
      assert loaded[..|loaded|] == loaded;
    }

    /** dispatch(), given which executors accept the popped work. Whatever is executed was not done when
        it was popped, and goes to the first executor that accepts it. */
    method Dispatch(now: int, accepts: seq<bool>) returns (result: Dispatched)
      requires queue.Valid()
      modifies queue, set id | id in queue.waiting :: queue.waiting[id].work`state
      ensures queue.Valid() && queue.View() == WorkQueue.PopFast(old(queue.View()), now).1
      ensures result.NoWork? <==> !WorkQueue.PopFast(old(queue.View()), now).0.Due?
      ensures !result.NoWork? ==>
        && result.id == WorkQueue.PopFast(old(queue.View()), now).0.item.id
        && result.id in old(queue.waiting) && result.id !in queue.waiting
      ensures result.Run? ==> var work := old(queue.waiting)[result.id].work;
        && !old(queue.waiting[result.id].work.state).Done() && work.finished == 0
        && result.executor < |accepts| && accepts[result.executor]
        && forall k | 0 <= k < result.executor :: !accepts[k]
      ensures result.Refused? ==> var work := old(queue.waiting)[result.id].work;
        && !old(queue.waiting[result.id].work.state).Done() && work.finished == 0
        && work.state == Failed && true !in accepts
      ensures result.Skipped? ==> var work := old(queue.waiting)[result.id].work;
        old(queue.waiting[result.id].work.state).Done() || work.finished != 0
    {
      var work := queue.PopReady(now);
      if work == null { return NoWork; }
      if work.finished != 0 || work.state.Done() { return Skipped(work.id); }
      var k := 0;
      while k < |accepts| && !accepts[k]
        invariant k <= |accepts| && forall j | 0 <= j < k :: !accepts[j]
      {
        k := k + 1;
      }
      if k == |accepts| {
        work.state := Failed;
        return Refused(work.id);
      }
      result := Run(work.id, k);
    }
  }

  lemma HeadErased(ix: Index)
    requires Linked(ix) && ix.active != []
    ensures var work := ix.active[0].work; var ix' := Index(ix.waiting - {work.id}, ix.active[1..], ix.nodes);
      && Linked(ix') && Abs(ix') == Abs(ix).(active := Abs(ix).active[1..])
      && work.id in ix.waiting && ix.waiting[work.id].work == work
  {
    var work := ix.active[0].work;
    LinkedIsWf(ix);
    WithoutAt(Abs(ix).active, 0);
    Erased(ix, 0, ix.waiting - {work.id});
    assert Cut(ix.active, 0) == ix.active[1..];
    assert Cut(Abs(ix).active, 0) == Abs(ix).active[1..];
  }

  lemma ActivatedNow(q: Queue, id: WorkID, key: Key, p: nat, q': Queue)
    requires !IsActive(q, id, key) && p <= |Without(q.active, id)| && Slot(Keys(Without(q.active, id)), key, p)
    requires q'.active == Insert(Without(q.active, id), p, Item(key, id, q.stamps))
    requires q'.stamps == q.stamps + 1
    requires q'.dormant == q.dormant - {id} || q'.dormant == q.dormant + {id} - {id}
    ensures Pushed(q, id, Some(key.at), key.priority, q')
  {
    assert key == Key(key.at, key.priority);
    assert q'.dormant == q.dormant - {id};
    assert Activated(q, id, key, p, q');
  }

  lemma OverrideAgain<K, V>(m: map<K, V>, k: K, v: V, w: V)
    requires k in m
    ensures m[k := m[k]] == m && m[k := v][k := w] == m[k := w]
  {
  }
}
