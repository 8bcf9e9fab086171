/** The two linked indexes of the queue (base/src/work/BasicQueue.h) and what the operations on them
    do to the queue they represent. */
module QueueIndex {
  import opened Basics
  import opened WorkOrder
  import opened WorkQueue

  datatype WorkState = Idle | Scheduled | Executed | Finished | Failed | Canceled
  {
    /** state >= STATE_FINISHED */
    predicate Done() { Finished? || Failed? || Canceled? }
  }

  /** base/src/work/Work.h, without its locks. */
  class Work {
    const id: WorkID
    var state: WorkState
    var priority: int
    var sleepDuration: Option<int>
    var created: int
    var suspended: int
    var finished: int

    constructor (id: WorkID, created: int)
      ensures this.id == id && state == Idle && priority == 0 && sleepDuration == Some(0)
      ensures this.created == created && suspended == 0 && finished == 0
    {
      this.id, state, priority, sleepDuration := id, Idle, 0, Some(0);
      this.created, suspended, finished := created, 0, 0;
    }

    function ActivationTime(): Option<int>
      reads this
    {
      ActivationAt(sleepDuration, suspended, created)
    }
  }

  /** activationTimeUnlocked */
  function ActivationAt(sleep: Option<int>, suspended: int, created: int): Option<int> {
    if sleep.None? then None
    else if suspended > 0 then Some(suspended + sleep.value)
    else Some(created + sleep.value)
  }

  /** Where the queue has a work that is to sleep so long since a time: event-waiting when it has no duration, and
      otherwise active under just the one key of its time and priority. */
  ghost predicate Placed(q: Queue, id: WorkID, sleep: Option<int>, since: int, priority: int) {
    && (sleep.None? <==> id in q.dormant)
    && forall key :: IsActive(q, id, key) <==> sleep.Some? && key.at == since + sleep.value && key.priority == priority
  }

  lemma PushPlaces(q: Queue, id: WorkID, sleep: Option<int>, suspended: int, created: int, priority: int, q': Queue)
    requires Wf(q) && Pushed(q, id, ActivationAt(sleep, suspended, created), priority, q')
    ensures Placed(q', id, sleep, if suspended > 0 then suspended else created, priority)
  {
    PushMeaning(q, id, ActivationAt(sleep, suspended, created), priority, q');
  }

  /** A work that is popped has slept for its whole duration. */
  lemma PoppedHasSlept(q: Queue, id: WorkID, sleep: Option<int>, since: int, priority: int, now: int)
    requires Placed(q, id, sleep, since, priority)
    requires PopFast(q, now).0.Due? && PopFast(q, now).0.item.id == id
    ensures sleep.Some? && since + sleep.value <= now
  {
    assert IsActive(q, id, q.active[0].key);
  }

  /** A queue record; ref is the node of the active index it refers to, None its end. */
  datatype Record = Record(work: Work, ref: Option<nat>)

  /** A node of the active index. */
  datatype Entry = Entry(key: Key, work: Work, node: nat)

  datatype Index = Index(waiting: map<WorkID, Record>, active: seq<Entry>, nodes: nat)

  /** The node that the record refers to, if any, holds its work. */
  ghost predicate HasNode(active: seq<Entry>, record: Record) {
    record.ref.Some? ==>
      exists k | 0 <= k < |active| :: active[k].node == record.ref.value && active[k].work == record.work
  }

  /** The two indexes agree: each record is kept under its work's id; a record that refers to a node
      refers to one that holds its work; and each node is the one its work's record refers to. */
  ghost predicate Linked(ix: Index) {
    && (forall id | id in ix.waiting :: ix.waiting[id].work.id == id)
    && (forall id | id in ix.waiting :: HasNode(ix.active, ix.waiting[id]))
    && (forall k | 0 <= k < |ix.active| ::
          && ix.active[k].work.id in ix.waiting
          && ix.waiting[ix.active[k].work.id] == Record(ix.active[k].work, Some(ix.active[k].node))
          && ix.active[k].node < ix.nodes)
    && (forall j, k | 0 <= j < k < |ix.active| :: ix.active[j].node != ix.active[k].node)
  }

  function Items(active: seq<Entry>): (items: seq<Item>)
    ensures |items| == |active|
    ensures forall k | 0 <= k < |active| :: items[k] == Item(active[k].key, active[k].work.id, active[k].node)
  {
    seq(|active|, k requires 0 <= k < |active| => Item(active[k].key, active[k].work.id, active[k].node))
  }

  ghost function Abs(ix: Index): Queue {
    Queue(Items(ix.active), (set id | id in ix.waiting && ix.waiting[id].ref.None?), ix.nodes)
  }

  /** Every node is referred to by just one record, the one of its work. */
  lemma OneRecordPerNode(ix: Index, k: nat, id: WorkID)
    requires Linked(ix) && k < |ix.active| && id in ix.waiting
    ensures ix.waiting[id].ref == Some(ix.active[k].node) <==> id == ix.active[k].work.id
  {
  }

  lemma LinkedIsWf(ix: Index)
    requires Linked(ix)
    ensures Wf(Abs(ix))
    ensures forall id :: Holds(Abs(ix), id) <==> id in ix.waiting
  {
    forall id | id in ix.waiting
      ensures Holds(Abs(ix), id)
    {
      if ix.waiting[id].ref.Some? {
        var k :| 0 <= k < |ix.active| && ix.active[k].node == ix.waiting[id].ref.value;
        OneRecordPerNode(ix, k, id);
        assert Abs(ix).active[k].id == id;
      }
    }
  }

  // ----- what the index operations do to the queue

  lemma CutKeepsNode(active: seq<Entry>, k: nat, record: Record)
    requires k < |active| && HasNode(active, record) && record.ref != Some(active[k].node)
    ensures HasNode(Cut(active, k), record)
  {
    if record.ref.Some? {
      var j :| 0 <= j < |active| && active[j].node == record.ref.value && active[j].work == record.work;
      assert Cut(active, k)[if j < k then j else j - 1] == active[j];
    }
  }

  lemma AttachKeepsNode(active: seq<Entry>, p: nat, entry: Entry, record: Record)
    requires p <= |active| && HasNode(active, record)
    ensures HasNode(Insert(active, p, entry), record)
  {
    if record.ref.Some? {
      var j :| 0 <= j < |active| && active[j].node == record.ref.value && active[j].work == record.work;
      assert Insert(active, p, entry)[if j < p then j else j + 1] == active[j];
    }
  }

  /** m_active.erase(record.ref), with the record left in place or removed. */
  lemma ErasedLinked(ix: Index, k: nat, waiting: map<WorkID, Record>)
    requires Linked(ix) && k < |ix.active|
    requires var work := ix.active[k].work;
      waiting == ix.waiting[work.id := Record(work, None)] || waiting == ix.waiting - {work.id}
    ensures Linked(Index(waiting, Cut(ix.active, k), ix.nodes))
  {
    var id := ix.active[k].work.id;
    var active := Cut(ix.active, k);
    forall other | other in waiting
      ensures waiting[other].work.id == other && HasNode(active, waiting[other])
    {
      if other != id {
        OneRecordPerNode(ix, k, other);
        CutKeepsNode(ix.active, k, ix.waiting[other]);
      }
    }
    forall j | 0 <= j < |active|
      ensures active[j].work.id != id
    {
      OneRecordPerNode(ix, if j < k then j else j + 1, id);
      OneRecordPerNode(ix, k, id);
    }
  }

  lemma Erased(ix: Index, k: nat, waiting: map<WorkID, Record>)
    requires Linked(ix) && k < |ix.active|
    requires var work := ix.active[k].work;
      waiting == ix.waiting[work.id := Record(work, None)] || waiting == ix.waiting - {work.id}
    ensures var ix' := Index(waiting, Cut(ix.active, k), ix.nodes); var id := ix.active[k].work.id;
      Linked(ix') && Abs(ix') == Queue(Without(Abs(ix).active, id),
        if id in waiting then Abs(ix).dormant + {id} else Abs(ix).dormant, ix.nodes)
  {
    ErasedLinked(ix, k, waiting);
    ErasedItems(ix, k);
    var id := ix.active[k].work.id;
    assert ix.waiting[id].ref.Some?;
    assert (set i | i in waiting && waiting[i].ref.None?)
      == if id in waiting then Abs(ix).dormant + {id} else Abs(ix).dormant;
  }

  lemma ItemsCut(active: seq<Entry>, k: nat)
    requires k < |active|
    ensures Items(Cut(active, k)) == Cut(Items(active), k)
  {
  }

  lemma ErasedItems(ix: Index, k: nat)
    requires Linked(ix) && k < |ix.active|
    ensures Items(Cut(ix.active, k)) == Without(Items(ix.active), ix.active[k].work.id)
  {
    var items := Items(ix.active);
    forall i | 0 <= i < |items| && i != k
      ensures items[i].id != items[k].id
    {
      OneRecordPerNode(ix, i, ix.active[k].work.id);
      OneRecordPerNode(ix, k, ix.active[k].work.id);
    }
    WithoutAt(items, k);
    ItemsCut(ix.active, k);
  }

  /** m_active.emplace for a work that has no node, its record then referring to the new one. */
  lemma EmplacedLinked(ix: Index, key: Key, work: Work, p: nat)
    requires Linked(ix) && p <= |ix.active|
    requires work.id in ix.waiting ==> ix.waiting[work.id] == Record(work, None)
    ensures Linked(Index(ix.waiting[work.id := Record(work, Some(ix.nodes))],
              Insert(ix.active, p, Entry(key, work, ix.nodes)), ix.nodes + 1))
  {
    var entry := Entry(key, work, ix.nodes);
    var waiting := ix.waiting[work.id := Record(work, Some(ix.nodes))];
    var active := Insert(ix.active, p, entry);
    assert active[p] == entry;
    forall other | other in waiting
      ensures waiting[other].work.id == other && HasNode(active, waiting[other])
    {
      if other != work.id {
        AttachKeepsNode(ix.active, p, entry, ix.waiting[other]);
      }
    }
    forall j | 0 <= j < |active| && j != p
      ensures active[j] == ix.active[Before(j, p)] && active[j].work.id != work.id && active[j].node < ix.nodes
    {
    }
  }

  lemma Emplaced(ix: Index, key: Key, work: Work, p: nat)
    requires Linked(ix) && p <= |ix.active|
    requires work.id in ix.waiting ==> ix.waiting[work.id] == Record(work, None)
    ensures var ix' := Index(ix.waiting[work.id := Record(work, Some(ix.nodes))],
                Insert(ix.active, p, Entry(key, work, ix.nodes)), ix.nodes + 1);
      Linked(ix') && Abs(ix') == Queue(
        Insert(Abs(ix).active, p, Item(key, work.id, ix.nodes)), Abs(ix).dormant - {work.id}, ix.nodes + 1)
  {
    EmplacedLinked(ix, key, work, p);
    var all := Insert(ix.active, p, Entry(key, work, ix.nodes));
    assert Items(all) == Insert(Items(ix.active), p, Item(key, work.id, ix.nodes));
  }

  /** A new record without a node. */
  lemma Recorded(ix: Index, work: Work)
    requires Linked(ix) && work.id !in ix.waiting
    ensures Linked(Index(ix.waiting[work.id := Record(work, None)], ix.active, ix.nodes))
    ensures Abs(Index(ix.waiting[work.id := Record(work, None)], ix.active, ix.nodes))
         == Queue(Abs(ix).active, Abs(ix).dormant + {work.id}, ix.nodes)
  {
  }
}
