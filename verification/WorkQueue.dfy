/** What the work queue is, apart from how it is indexed: the active works in the order of the
    active index, and the works that only wait for an event. */
module WorkQueue {
  import opened Basics
  import opened WorkOrder

  type WorkID = int

  /** An active work. The stamp counts activations: a later one is larger. */
  datatype Item = Item(key: Key, id: WorkID, stamp: nat)

  datatype Queue = Queue(active: seq<Item>, dormant: set<WorkID>, stamps: nat)

  const EMPTY := Queue([], {}, 0)

  function Keys(items: seq<Item>): (keys: seq<Key>)
    ensures |keys| == |items|
    ensures forall i | 0 <= i < |items| :: keys[i] == items[i].key
  {
    seq(|items|, i requires 0 <= i < |items| => items[i].key)
  }

  /** The items of all other works, in their order. */
  function Without(items: seq<Item>, id: WorkID): seq<Item> {
    if items == [] then []
    else if items[0].id == id then Without(items[1..], id)
    else [items[0]] + Without(items[1..], id)
  }

  ghost predicate Wf(q: Queue) {
    && (forall i, j | 0 <= i < j < |q.active| ::
          q.active[i].id != q.active[j].id && q.active[i].stamp != q.active[j].stamp)
    && (forall i | 0 <= i < |q.active| :: q.active[i].id !in q.dormant && q.active[i].stamp < q.stamps)
  }

  ghost predicate IsActive(q: Queue, id: WorkID, key: Key) {
    exists i | 0 <= i < |q.active| :: q.active[i].id == id && q.active[i].key == key
  }

  ghost predicate Holds(q: Queue, id: WorkID) {
    id in q.dormant || exists i | 0 <= i < |q.active| :: q.active[i].id == id
  }

  // ----- the operations

  /** Pushing a work that is not done: it becomes active under its activation time, or dormant when it
      has none. A work that is active under the same key already keeps its place. */
  ghost predicate Pushed(q: Queue, id: WorkID, time: Option<int>, priority: int, q': Queue) {
    match time
    case None =>
      q' == Queue(Without(q.active, id), q.dormant + {id}, q.stamps)
    case Some(at) =>
      var key := Key(at, priority);
      if IsActive(q, id, key) then q' == q
      else exists p: nat | p <= |Without(q.active, id)| :: Activated(q, id, key, p, q')
  }

  /** The work's old entry, if any, is gone and a new one stands at a slot for the key. */
  ghost predicate Activated(q: Queue, id: WorkID, key: Key, p: nat, q': Queue)
    requires p <= |Without(q.active, id)|
  {
    var others := Without(q.active, id);
    && Slot(Keys(others), key, p)
    && q' == Queue(Insert(others, p, Item(key, id, q.stamps)), q.dormant - {id}, q.stamps + 1)
  }

  /** Cancelling erases the record's entry of the active index; a dormant record refers to none,
      and erasing the end of a multimap is undefined. */
  predicate CancelDefined(q: Queue, id: WorkID) { id !in q.dormant }

  function AfterCancel(q: Queue, id: WorkID): Queue { q.(active := Without(q.active, id)) }

  datatype Popped = Nothing | TooEarly(at: int) | Due(item: Item)

  function PopFast(q: Queue, now: int): (Popped, Queue) {
    if q.active == [] then (Nothing, q)
    else if q.active[0].key.at > now then (TooEarly(q.active[0].key.at), q)
    else (Due(q.active[0]), q.(active := q.active[1..]))
  }

  ghost predicate Step(q: Queue, q': Queue) {
    || (exists id, time, priority :: Pushed(q, id, time, priority, q'))
    || (exists id :: CancelDefined(q, id) && q' == AfterCancel(q, id))
    || (exists now :: q' == PopFast(q, now).1)
  }

  ghost predicate Run(states: seq<Queue>) {
    && states != []
    && states[0] == EMPTY
    && forall i | 0 <= i < |states| - 1 :: Step(states[i], states[i + 1])
  }

  // ----- filtering

  lemma {:induction false} WithoutAbsent(items: seq<Item>, id: WorkID)
    requires forall i | 0 <= i < |items| :: items[i].id != id
    ensures Without(items, id) == items
  {
    if items != [] { WithoutAbsent(items[1..], id); }
  }

  /** An item whose work no other item has: leaving the work out removes just that item. */
  lemma {:induction false} WithoutAt(items: seq<Item>, k: nat)
    requires k < |items| && forall i | 0 <= i < |items| && i != k :: items[i].id != items[k].id
    ensures Without(items, items[k].id) == items[..k] + items[k + 1..]
  {
    if k == 0 {
      WithoutAbsent(items[1..], items[0].id);
    } else {
      WithoutAt(items[1..], k - 1);
      assert items[1..][..k - 1] == items[1..k] && items[1..][k..] == items[k + 1..];
      assert [items[0]] + items[1..k] == items[..k];
    }
  }

  lemma WithoutInsert(items: seq<Item>, p: nat, item: Item)
    requires p <= |items| && forall i | 0 <= i < |items| :: items[i].id != item.id
    ensures Without(Insert(items, p, item), item.id) == items
  {
    var all := Insert(items, p, item);
    assert forall i | 0 <= i < |all| && i != p :: all[i] == items[if i < p then i else i - 1];
    WithoutAt(all, p);
    assert all[..p] == items[..p] && all[p + 1..] == items[p..];
  }

  /** Leaving a work out of well-formed items: either it was not there, or one position goes. */
  lemma WithoutCases(items: seq<Item>, id: WorkID) returns (k: nat)
    requires forall i, j | 0 <= i < j < |items| :: items[i].id != items[j].id
    ensures k <= |items|
    ensures k < |items| ==> items[k].id == id && Without(items, id) == items[..k] + items[k + 1..]
    ensures k == |items| ==> Without(items, id) == items
    ensures forall i | 0 <= i < |Without(items, id)| :: Without(items, id)[i].id != id
  {
    k := 0;
    while k < |items| && items[k].id != id
      invariant k <= |items| && forall i | 0 <= i < k :: items[i].id != id
    {
      k := k + 1;
    }
    if k < |items| { WithoutAt(items, k); } else { WithoutAbsent(items, id); }
  }

  // ----- what every operation keeps

  /** Where the items of a queue without some work stood before. */
  lemma WithoutFrom(q: Queue, id: WorkID, i: nat) returns (j: nat)
    requires Wf(q) && i < |Without(q.active, id)|
    ensures i <= j <= i + 1 && j < |q.active| && q.active[j] == Without(q.active, id)[i] && q.active[j].id != id
    ensures j == i ==> forall h | 0 <= h <= i :: Without(q.active, id)[h] == q.active[h]
  {
    var k := WithoutCases(q.active, id);
    j := if i < k then i else i + 1;
  }

  lemma WithoutKeepsWf(q: Queue, id: WorkID, dormant: set<WorkID>)
    requires Wf(q) && dormant <= q.dormant + {id}
    ensures Wf(Queue(Without(q.active, id), dormant, q.stamps))
  {
    var others := Without(q.active, id);
    forall i | 0 <= i < |others|
      ensures others[i].id !in dormant && others[i].stamp < q.stamps
    {
      var j := WithoutFrom(q, id, i);
    }
    forall h, i | 0 <= h < i < |others|
      ensures others[h].id != others[i].id && others[h].stamp != others[i].stamp
    {
      var g := WithoutFrom(q, id, h);
      var j := WithoutFrom(q, id, i);
      assert g < j;
    }
  }

  lemma ActivatedOther(q: Queue, id: WorkID, key: Key, p: nat, q': Queue, i: nat)
    requires Wf(q) && p <= |Without(q.active, id)| && Activated(q, id, key, p, q')
    requires i < |q'.active| && i != p
    ensures q'.active[i] == Without(q.active, id)[Before(i, p)]
    ensures q'.active[i].id != id && q'.active[i].id !in q.dormant && q'.active[i].stamp < q.stamps
  {
    WithoutKeepsWf(q, id, q.dormant);
    var j := WithoutFrom(q, id, Before(i, p));
  }

  lemma ActivatedKeepsWf(q: Queue, id: WorkID, key: Key, p: nat, q': Queue)
    requires Wf(q) && p <= |Without(q.active, id)| && Activated(q, id, key, p, q')
    ensures Wf(q')
    ensures forall i | 0 <= i < |q'.active| && i != p :: q'.active[i].id != id
  {
    WithoutKeepsWf(q, id, q.dormant);
    forall i | 0 <= i < |q'.active| && i != p
      ensures q'.active[i] == Without(q.active, id)[Before(i, p)]
      ensures q'.active[i].id != id && q'.active[i].id !in q.dormant && q'.active[i].stamp < q.stamps
    {
      ActivatedOther(q, id, key, p, q', i);
    }
  }

  lemma PushKeepsWf(q: Queue, id: WorkID, time: Option<int>, priority: int, q': Queue)
    requires Wf(q) && Pushed(q, id, time, priority, q')
    ensures Wf(q')
  {
    if time.None? {
      WithoutKeepsWf(q, id, q'.dormant);
      var k := WithoutCases(q.active, id);
    } else if !IsActive(q, id, Key(time.value, priority)) {
      var p: nat :| p <= |Without(q.active, id)| && Activated(q, id, Key(time.value, priority), p, q');
      ActivatedKeepsWf(q, id, Key(time.value, priority), p, q');
    }
  }

  lemma ActiveKey(q: Queue, i: nat)
    requires Wf(q) && i < |q.active|
    ensures forall key :: IsActive(q, q.active[i].id, key) <==> key == q.active[i].key
  {
  }

  /** What a push means: afterwards the work is held exactly once, active under its activation time and
      priority if it has a time and dormant if not, and all other works stay as and in the order they were. */
  lemma PushMeaning(q: Queue, id: WorkID, time: Option<int>, priority: int, q': Queue)
    requires Wf(q) && Pushed(q, id, time, priority, q')
    ensures forall key :: IsActive(q', id, key) <==> time == Some(key.at) && priority == key.priority
    ensures id in q'.dormant <==> time.None?
    ensures Without(q'.active, id) == Without(q.active, id)
    ensures forall other | other != id :: other in q'.dormant <==> other in q.dormant
  {
    var k := WithoutCases(q.active, id);
    var others := Without(q.active, id);
    if time.None? {
      WithoutAbsent(others, id);
    } else {
      var key := Key(time.value, priority);
      if IsActive(q, id, key) {
        ActiveKey(q, k);
      } else {
        var p: nat :| p <= |others| && Activated(q, id, key, p, q');
        ActivatedKeepsWf(q, id, key, p, q');
        WithoutInsert(others, p, Item(key, id, q.stamps));
        ActiveKey(q', p);
      }
    }
  }

  lemma CancelMeaning(q: Queue, id: WorkID)
    requires Wf(q) && CancelDefined(q, id)
    ensures Wf(AfterCancel(q, id)) && !Holds(AfterCancel(q, id), id)
    ensures forall other, key :: other != id ==>
      (IsActive(AfterCancel(q, id), other, key) <==> IsActive(q, other, key))
  {
    WithoutKeepsWf(q, id, q.dormant);
    var k := WithoutCases(q.active, id);
    forall other, key | other != id
      ensures IsActive(AfterCancel(q, id), other, key) <==> IsActive(q, other, key)
    {
      if IsActive(q, other, key) {
        var i :| 0 <= i < |q.active| && q.active[i].id == other && q.active[i].key == key;
        assert AfterCancel(q, id).active[if i < k then i else i - 1] == q.active[i];
      }
    }
  }

  /** Right after a push, cancelling the work is defined if and only if it has an activation time: one that
      waits for an event cannot be cancelled. */
  lemma CancelAfterPushIff(q: Queue, id: WorkID, time: Option<int>, priority: int, q': Queue)
    requires Wf(q) && Pushed(q, id, time, priority, q')
    ensures CancelDefined(q', id) <==> time.Some?
    ensures time.Some? ==>
      AfterCancel(q', id).active == Without(q.active, id) && AfterCancel(q', id).dormant == q.dormant - {id}
  {
    PushMeaning(q, id, time, priority, q');
  }

  /** Active works in the documented order, and in the order of activation among equal keys. */
  ghost predicate InOrder(items: seq<Item>) {
    forall i, j | 0 <= i < j < |items| :: Precedes(items[i], items[j])
  }

  predicate Precedes(a: Item, b: Item) {
    DocLess(a.key, b.key) || (a.key == b.key && a.stamp < b.stamp)
  }

  /** Items of keys neither of which is below the other have the same key. */
  lemma PrecedesTotal(a: Item, b: Item)
    requires a.stamp < b.stamp
    ensures Precedes(a, b) || DocLess(b.key, a.key)
  {
  }

  lemma PrecedesAsymmetric(a: Item, b: Item)
    ensures !(Precedes(a, b) && Precedes(b, a))
  {
  }

  lemma InOrderSorted(items: seq<Item>)
    requires InOrder(items)
    ensures DocSorted(Keys(items))
  {
    forall i, j | 0 <= i < j < |items|
      ensures !DocLess(Keys(items)[j], Keys(items)[i])
    {
      assert Precedes(items[i], items[j]);
    }
  }

  lemma InsertKeySet(items: seq<Item>, item: Item, p: nat)
    requires p <= |items|
    ensures KeySet(Keys(items)) + {item.key} == KeySet(Keys(Insert(items, p, item)))
  {
    var all := Insert(items, p, item);
    assert Keys(all) == Keys(items)[..p] + [item.key] + Keys(items)[p..];
    assert Keys(items) == Keys(items)[..p] + Keys(items)[p..];
  }

  ghost predicate Consistent(q: Queue) { NoInversion(KeySet(Keys(q.active))) }

  lemma InsertInOrder(items: seq<Item>, item: Item, p: nat)
    requires InOrder(items) && forall i | 0 <= i < |items| :: items[i].stamp < item.stamp
    requires p <= |items| && Slot(Keys(items), item.key, p)
    requires NoInversion(KeySet(Keys(Insert(items, p, item))))
    ensures InOrder(Insert(items, p, item))
  {
    var all := Insert(items, p, item);
    InsertKeySet(items, item, p);
    InOrderSorted(items);
    SlotIsUpperBound(Keys(items), item.key, p);
    forall i, j | 0 <= i < j < |all|
      ensures Precedes(all[i], all[j])
    {
      if i == p {
        assert DocLess(item.key, Keys(items)[Before(j, p)]);
      } else if j == p {
        assert !DocLess(item.key, Keys(items)[Before(i, p)]) && all[i] == items[Before(i, p)];
        PrecedesTotal(all[i], item);
      } else {
        assert all[i] == items[Before(i, p)] && all[j] == items[Before(j, p)];
      }
    }
  }

  lemma StepKeepsWf(q: Queue, q': Queue)
    requires Wf(q) && Step(q, q')
    ensures Wf(q')
  {
    if id, time, priority :| Pushed(q, id, time, priority, q') {
      PushKeepsWf(q, id, time, priority, q');
    } else if id :| CancelDefined(q, id) && q' == AfterCancel(q, id) {
      CancelMeaning(q, id);
    }
  }

  lemma WithoutInOrder(q: Queue, id: WorkID)
    requires Wf(q) && InOrder(q.active)
    ensures InOrder(Without(q.active, id))
    ensures forall i | 0 <= i < |Without(q.active, id)| :: Without(q.active, id)[i].stamp < q.stamps
  {
    var k := WithoutCases(q.active, id);
  }

  lemma StepKeepsOrder(q: Queue, q': Queue)
    requires Wf(q) && InOrder(q.active) && Step(q, q') && Consistent(q')
    ensures InOrder(q'.active)
  {
    if id, time, priority :| Pushed(q, id, time, priority, q') {
      WithoutInOrder(q, id);
      if time.Some? && !IsActive(q, id, Key(time.value, priority)) {
        var key := Key(time.value, priority);
        var p: nat :| p <= |Without(q.active, id)| && Activated(q, id, key, p, q');
        InsertInOrder(Without(q.active, id), Item(key, id, q.stamps), p);
      }
    } else if id :| CancelDefined(q, id) && q' == AfterCancel(q, id) {
      WithoutInOrder(q, id);
    }
  }

  /** In every run each work is held at most once. */
  lemma {:induction false} RunKeepsWf(states: seq<Queue>, i: nat)
    requires Run(states) && i < |states|
    ensures Wf(states[i])
  {
    if i > 0 {
      RunKeepsWf(states, i - 1);
      StepKeepsWf(states[i - 1], states[i]);
    }
  }

  /** In every run where no two keys that are active together invert, the active works stand in the
      documented order, first activated first among equal keys. */
  lemma {:induction false} RunKeepsOrder(states: seq<Queue>, i: nat)
    requires Run(states) && i < |states| && ConsistentUpTo(states, i)
    ensures InOrder(states[i].active)
  {
    if i > 0 {
      ConsistentBefore(states, i);
      RunKeepsOrder(states, i - 1);
      RunKeepsWf(states, i - 1);
      StepKeepsOrder(states[i - 1], states[i]);
    }
  }

  ghost predicate ConsistentUpTo(states: seq<Queue>, i: nat) {
    forall j | 0 <= j <= i && j < |states| :: Consistent(states[j])
  }

  lemma ConsistentBefore(states: seq<Queue>, i: nat)
    requires 0 < i < |states| && ConsistentUpTo(states, i)
    ensures ConsistentUpTo(states, i - 1) && Consistent(states[i])
  {
  }

  // ----- popping

  /** Popping without blocking until nothing is returned. */
  function Drain(q: Queue, now: int): (seq<Item>, Queue)
    decreases |q.active|
  {
    var (popped, rest) := PopFast(q, now);
    if popped.Due? then
      var (items, last) := Drain(rest, now);
      ([popped.item] + items, last)
    else ([], q)
  }

  /** When all active works are due, draining returns exactly them, in the order of the active index,
      leaves that index empty and the event-waiting works alone. */
  lemma {:induction false} DrainAllDue(q: Queue, now: int)
    requires forall i | 0 <= i < |q.active| :: q.active[i].key.at <= now
    ensures Drain(q, now) == (q.active, q.(active := []))
    decreases |q.active|
  {
    if q.active != [] {
      var rest := q.(active := q.active[1..]);
      DrainAllDue(rest, now);
      assert PopFast(q, now) == (Due(q.active[0]), rest);
      assert [q.active[0]] + rest.active == q.active;
    }
  }

  /** Popping at a time when all active works are due, after any run in which no two keys that were active
      together invert: every active work comes out, once, in the documented order, the first activated first
      among equal keys. */
  lemma RunDrainsInOrder(states: seq<Queue>, i: nat, now: int)
    requires Run(states) && i < |states| && ConsistentUpTo(states, i)
    requires forall k | 0 <= k < |states[i].active| :: states[i].active[k].key.at <= now
    ensures var (items, rest) := Drain(states[i], now);
      && multiset(items) == multiset(states[i].active) && InOrder(items)
      && rest.active == [] && rest.dormant == states[i].dormant
      && forall j, k | 0 <= j < k < |items| :: items[j].id != items[k].id
  {
    RunKeepsWf(states, i);
    RunKeepsOrder(states, i);
    DrainAllDue(states[i], now);
  }

  /** There is just one way to order given items, so the drained sequence is determined. */
  lemma {:induction false} InOrderUnique(s: seq<Item>, t: seq<Item>)
    requires InOrder(s) && InOrder(t) && multiset(s) == multiset(t)
    ensures s == t
    decreases |s|
  {
    if s == [] {
      assert |multiset(t)| == 0;
    } else {
      assert s[0] in multiset(s) && |multiset(t)| > 0;
      HeadsEqual(s, t);
      TailItems(s);
      TailItems(t);
      InOrderUnique(s[1..], t[1..]);
    }
  }

  lemma TailItems(s: seq<Item>)
    requires s != []
    ensures s == [s[0]] + s[1..] && multiset(s[1..]) == multiset(s) - multiset{s[0]}
  {
    assert s == [s[0]] + s[1..];
  }

  lemma HeadsEqual(s: seq<Item>, t: seq<Item>)
    requires InOrder(s) && InOrder(t) && multiset(s) == multiset(t) && s != [] && t != []
    ensures s[0] == t[0]
  {
    assert s[0] in multiset(t) && t[0] in multiset(s);
    var i :| 0 <= i < |t| && t[i] == s[0];
    var j :| 0 <= j < |s| && s[j] == t[0];
    PrecedesAsymmetric(s[0], t[0]);
  }

  /** Bounded inversion: when the active works are in order and something is due although the head is
      not, the head lies in the same interval as every due work and comes due within that interval. */
  lemma BoundedInversion(q: Queue, now: int, i: nat)
    requires InOrder(q.active) && i < |q.active| && q.active[i].key.at <= now
    requires PopFast(q, now).0.TooEarly?
    ensures var head := PopFast(q, now).0.at;
      && now < head
      && Period(head) == Period(q.active[i].key.at)
      && q.active[0].key.priority >= q.active[i].key.priority
      && head - now < 10_000_000
      && (0 <= now ==> head - now < 5_000_000)
  {
    var head := q.active[0].key.at;
    PeriodMonotone(q.active[i].key.at, now);
    PeriodMonotone(now, head);
    PeriodSpan(now, head);
  }

  /** Without that order there is no bound: of two works whose keys invert, pushed in the right order,
      the one that is due waits behind the other until that one is due. */
  lemma UnboundedInversion(due: Key, far: Key, q: Queue, q': Queue)
    requires Inverted(far, due)
    requires Pushed(EMPTY, 0, Some(due.at), due.priority, q) && Pushed(q, 1, Some(far.at), far.priority, q')
    ensures forall now | due.at <= now < far.at :: PopFast(q', now) == (TooEarly(far.at), q')
  {
    assert due == Key(due.at, due.priority) && far == Key(far.at, far.priority);
    PushFirst(due, q);
    LessIsDocLessUnlessInverted(far, due);
    PushInFront(far, due, q, q');
  }

  lemma PushFirst(key: Key, q: Queue)
    requires Pushed(EMPTY, 0, Some(key.at), key.priority, q)
    ensures q == Queue([Item(key, 0, 0)], {}, 1)
  {
    assert key == Key(key.at, key.priority);
    assert Without(EMPTY.active, 0) == [] && !IsActive(EMPTY, 0, key);
    var p: nat :| p <= |Without(EMPTY.active, 0)| && Activated(EMPTY, 0, key, p, q);
    assert Insert([], 0, Item(key, 0, 0)) == [Item(key, 0, 0)];
  }

  lemma PushInFront(key: Key, other: Key, q: Queue, q': Queue)
    requires q == Queue([Item(other, 0, 0)], {}, 1) && Less(key, other)
    requires Pushed(q, 1, Some(key.at), key.priority, q')
    ensures q' == Queue([Item(key, 1, 1), Item(other, 0, 0)], {}, 2)
  {
    assert key == Key(key.at, key.priority);
    WithoutAbsent(q.active, 1);
    assert !IsActive(q, 1, key);
    var p: nat :| p <= |Without(q.active, 1)| && Activated(q, 1, key, p, q');
    assert Keys(q.active)[0] == other;
    assert p == 0 && Insert(q.active, 0, Item(key, 1, 1)) == [Item(key, 1, 1), Item(other, 0, 0)];
  }
}
