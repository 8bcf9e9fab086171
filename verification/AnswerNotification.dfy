/** One waiter of an answer queue against any number of threads that change results
    (src/core/AnswerQueue.cpp, src/core/Result.cpp). A change marks its answer dirty and then sets the
    auto-reset event, all under that answer's lock; the waiter looks at one answer at a time. */
module AnswerNotification {

  type Id = int

  datatype Waiter =
    | Away
    | Listing(next: nat, found: seq<Id>, atStart: set<Id>)  // atStart: the dirty answers when this listing began
    | Blocking
    | Returned(ok: bool, found: seq<Id>)

  /** notifying: answers whose lock is held by a thread that has marked them and has yet to set the event. */
  datatype State = State(queued: seq<Id>, dirty: set<Id>, notifying: set<Id>, event: bool, waiter: Waiter)

  /** A result of the answer changes its status. */
  predicate Changes(s: State, id: Id, s': State) {
    id !in s.notifying && s' == s.(dirty := s.dirty + {id}, notifying := s.notifying + {id})
  }

  predicate Notifies(s: State, id: Id, s': State) {
    id in s.notifying && s' == s.(event := true, notifying := s.notifying - {id})
  }

  /** wait() is called, or block() has returned true. */
  function StartListing(s: State): State {
    s.(waiter := Listing(0, [], s.dirty))
  }

  /** The listing looks at its next answer, which nobody has locked; a dirty one is found and loses its mark. */
  function Scan(s: State): State
    requires s.waiter.Listing? && s.waiter.next < |s.queued|
  {
    var id, w := s.queued[s.waiter.next], s.waiter;
    if id in s.dirty then s.(dirty := s.dirty - {id}, waiter := w.(next := w.next + 1, found := w.found + [id]))
    else s.(waiter := w.(next := w.next + 1))
  }

  predicate Scans(s: State, s': State) {
    && s.waiter.Listing? && s.waiter.next < |s.queued|
    && s.queued[s.waiter.next] !in s.notifying
    && s' == Scan(s)
  }

  function EndListing(s: State): State
    requires s.waiter.Listing?
  {
    s.(waiter := if s.waiter.found != [] then Returned(true, s.waiter.found) else Blocking)
  }

  predicate EndsListing(s: State, s': State) {
    s.waiter.Listing? && s.waiter.next == |s.queued| && s' == EndListing(s)
  }

  /** The event ends the wait; so does a timeout, zero or not. */
  predicate Unblocks(s: State, s': State) {
    && s.waiter.Blocking?
    && ((s.event && s' == StartListing(s.(event := false))) || s' == s.(waiter := Returned(false, [])))
  }

  /** The queue's own lock is held throughout a listing. */
  ghost predicate Edits(s: State, s': State) {
    && !s.waiter.Listing?
    && ((exists id :: id !in s.queued && id !in s.dirty && s' == s.(queued := s.queued + [id]))
        || (exists k | 0 <= k < |s.queued| :: s' == s.(queued := s.queued[..k] + s.queued[k + 1..])))
  }

  ghost predicate Next(s: State, s': State) {
    || (exists id :: Changes(s, id, s') || Notifies(s, id, s'))
    || ((s.waiter.Away? || s.waiter.Returned?) && s' == StartListing(s))
    || Scans(s, s') || EndsListing(s, s') || Unblocks(s, s') || Edits(s, s')
  }

  ghost predicate Run(states: seq<State>) {
    && states != []
    && states[0] == State([], {}, {}, false, Away)
    && forall i | 0 <= i < |states| - 1 :: Next(states[i], states[i + 1])
  }

  /** Dirty answers before the given position are still being notified about. */
  ghost predicate Attended(s: State, n: nat) {
    forall k | 0 <= k < n && k < |s.queued| :: s.queued[k] in s.dirty ==> s.queued[k] in s.notifying
  }

  ghost predicate Inv(s: State) {
    && (forall j, k | 0 <= j < k < |s.queued| :: s.queued[j] != s.queued[k])
    && match s.waiter
       case Away => true
       case Listing(next, found, atStart) =>
         && next <= |s.queued|
         && (!s.event ==> Attended(s, next))
         && (forall k | 0 <= k < |s.queued| && s.queued[k] in atStart ::
               if k < next then s.queued[k] in found else s.queued[k] in s.dirty)
       case Blocking => !s.event ==> Attended(s, |s.queued|)
       case Returned(ok, found) => ok ==> found != []
  }

  lemma ScanKeepsInv(s: State, s': State)
    requires Inv(s) && Scans(s, s')
    ensures Inv(s')
  {
  }

  lemma EditKeepsInv(s: State, s': State)
    requires Inv(s) && Edits(s, s')
    ensures Inv(s')
  {
  }

  /** Every step but a look at an answer and a change of the queue keeps the invariant. */
  lemma OtherKeepsInv(s: State, s': State)
    requires Inv(s) && Next(s, s')
    ensures Scans(s, s') || Edits(s, s') || Inv(s')
  {
  }

  lemma {:induction false} RunKeepsInv(states: seq<State>, i: nat)
    requires Run(states) && i < |states|
    ensures Inv(states[i])
  {
    if i > 0 {
      var s, s' := states[i - 1], states[i];
      RunKeepsInv(states, i - 1);
      OtherKeepsInv(s, s');
      if Scans(s, s') { ScanKeepsInv(s, s'); } else if Edits(s, s') { EditKeepsInv(s, s'); }
    }
  }

  /** No notification is lost: in every run, a waiter that is blocked with the event unset leaves no queued
      answer dirty except those whose notification is under way. */
  lemma BlockedMeansClean(states: seq<State>, i: nat, id: Id)
    requires Run(states) && i < |states| && states[i].waiter.Blocking? && !states[i].event
    requires id in states[i].queued && id in states[i].dirty
    ensures id in states[i].notifying
  {
    RunKeepsInv(states, i);
  }

  ghost predicate Reported(s: State, id: Id) { s.waiter.Listing? && id in s.waiter.found }

  /** A change is not forgotten: from then on the answer is dirty until a listing reports it. */
  lemma {:induction false} DirtyUntilReported(states: seq<State>, i: nat, j: nat, id: Id)
    requires Run(states) && i <= j < |states| && id in states[i].dirty
    ensures id in states[j].dirty || exists m | i <= m <= j :: Reported(states[m], id)
  {
    if i < j {
      DirtyUntilReported(states, i, j - 1, id);
      if id in states[j - 1].dirty && id !in states[j].dirty {
        assert Scans(states[j - 1], states[j]) && Reported(states[j], id);
      }
    }
  }

  lemma {:induction false} SameListing(states: seq<State>, j: nat, k: nat)
    requires Run(states) && j <= k < |states|
    requires states[j].waiter.Listing? && forall m | j <= m <= k :: states[m].waiter.Listing?
    ensures states[k].queued == states[j].queued && states[k].waiter.atStart == states[j].waiter.atStart
  {
    if j < k { SameListing(states, j, k - 1); }
  }

  /** Every change of a queued answer is reported: by the first full listing that begins after it, if not before. */
  lemma ChangeIsReported(states: seq<State>, i: nat, id: Id, j: nat, k: nat)
    requires Run(states) && i < j <= k < |states| && Changes(states[i], id, states[i + 1])
    requires states[j].waiter == Listing(0, [], states[j].dirty)
    requires forall m | j <= m <= k :: states[m].waiter.Listing?
    requires states[k].waiter.next == |states[k].queued| && id in states[k].queued
    ensures exists m | i < m <= k :: Reported(states[m], id)
  {
    DirtyUntilReported(states, i + 1, j, id);
    if id in states[j].dirty {
      SameListing(states, j, k);
      RunKeepsInv(states, k);
      assert Reported(states[k], id);
    }
  }

  // ----- what wait() returns

  /** The listing finds the answer dirty and takes the mark off it. */
  predicate Takes(s: State, id: Id, s': State) {
    && Scans(s, s') && s.queued[s.waiter.next] == id
    && id in s.dirty && id !in s'.dirty && s'.waiter.found == s.waiter.found + [id]
  }

  predicate TakesAt(states: seq<State>, m: nat, id: Id) {
    m + 1 < |states| && Takes(states[m], id, states[m + 1])
  }

  ghost predicate TakenBetween(states: seq<State>, j: nat, k: nat, id: Id) {
    exists m: nat | j <= m < k :: TakesAt(states, m, id)
  }

  /** One listing from its start in states[j] up to states[k]. */
  ghost predicate OneListing(states: seq<State>, j: nat, k: nat) {
    && j <= k < |states|
    && states[j].waiter == Listing(0, [], states[j].dirty)
    && forall m | j <= m <= k :: states[m].waiter.Listing?
  }

  lemma OneListingBefore(states: seq<State>, j: nat, k: nat)
    requires OneListing(states, j, k) && j < k
    ensures OneListing(states, j, k - 1)
  {
  }

  /** What a step does to the answers found while a listing goes on: it finds one more or leaves them. */
  lemma FoundGrows(s: State, s': State)
    requires Next(s, s') && s.waiter.Listing? && s'.waiter.Listing?
    ensures s'.waiter.found == s.waiter.found || exists id :: Takes(s, id, s')
    ensures forall id :: Takes(s, id, s') ==> s'.waiter.found == s.waiter.found + [id]
  {
    if Scans(s, s') && s.queued[s.waiter.next] in s.dirty {
      assert Takes(s, s.queued[s.waiter.next], s');
    }
  }

  /** An answer is listed if and only if, during that listing, it was found dirty and lost its mark. */
  lemma {:induction false} ListedIffTaken(states: seq<State>, j: nat, k: nat, id: Id)
    requires Run(states) && OneListing(states, j, k)
    ensures id in states[k].waiter.found <==> TakenBetween(states, j, k, id)
  {
    if j < k {
      OneListingBefore(states, j, k);
      ListedIffTaken(states, j, k - 1, id);
      FoundGrows(states[k - 1], states[k]);
      TakenLater(states, j, k, id);
    }
  }

  lemma TakenLater(states: seq<State>, j: nat, k: nat, id: Id)
    requires j < k
    ensures TakenBetween(states, j, k, id) <==> TakenBetween(states, j, k - 1, id) || TakesAt(states, k - 1, id)
  {
    if TakenBetween(states, j, k - 1, id) {
      var m: nat :| j <= m < k - 1 && TakesAt(states, m, id);
      assert TakesAt(states, m, id) && j <= m < k;
    }
  }

  /** wait() returns true at the end of a listing, with the answers listed, if and only if the listing took some
      mark; the event has no part in it. */
  lemma ReturnsTrueIff(states: seq<State>, j: nat, k: nat)
    requires Run(states) && OneListing(states, j, k) && k + 1 < |states|
    requires EndsListing(states[k], states[k + 1])
    ensures states[k + 1].waiter == Returned(true, states[k].waiter.found)
       <==> exists id :: TakenBetween(states, j, k, id)
    ensures states[k + 1].waiter == Blocking <==> !exists id :: TakenBetween(states, j, k, id)
  {
    if states[k].waiter.found != [] {
      ListedIffTaken(states, j, k, states[k].waiter.found[0]);
    }
    if id :| TakenBetween(states, j, k, id) {
      ListedIffTaken(states, j, k, id);
    }
  }

  /** The answers that the waiter has found, in a listing or in the list that wait() has returned. */
  function Found(w: Waiter): seq<Id> { if w.Listing? || w.Returned? then w.found else [] }

  /** In every run: wait() returns true only with a list that is not empty, and every answer on it was found dirty
      and lost its mark. */
  lemma {:induction false} TrueMeansTaken(states: seq<State>, i: nat)
    requires Run(states) && i < |states|
    ensures states[i].waiter.Returned? && states[i].waiter.ok ==> states[i].waiter.found != []
    ensures forall id | id in Found(states[i].waiter) :: TakenBetween(states, 0, i, id)
  {
    RunKeepsInv(states, i);
    if i > 0 {
      TrueMeansTaken(states, i - 1);
      var s, s' := states[i - 1], states[i];
      forall id | id in Found(s'.waiter)
        ensures TakenBetween(states, 0, i, id)
      {
        TakenLater(states, 0, i, id);
        assert id in Found(s.waiter) || TakesAt(states, i - 1, id);
      }
    }
  }

  /** The dirty ones of some answers, in order. */
  function Marked(ids: seq<Id>, dirty: set<Id>): seq<Id> {
    if ids == [] then []
    else
      var last := |ids| - 1;
      Marked(ids[..last], dirty) + if ids[last] in dirty then [ids[last]] else []
  }

  lemma {:induction false} MarkedAre(ids: seq<Id>, dirty: set<Id>, id: Id)
    ensures id in Marked(ids, dirty) <==> id in ids && id in dirty
    decreases |ids|
  {
    if ids != [] {
      var front, last := ids[..|ids| - 1], ids[|ids| - 1];
      assert ids == front + [last];
      MarkedAre(front, dirty, id);
    }
  }

  predicate ChangesAt(states: seq<State>, m: nat, id: Id) {
    m + 1 < |states| && Changes(states[m], id, states[m + 1])
  }

  ghost predicate NoChange(states: seq<State>, j: nat, k: nat) {
    forall m: nat, id | j <= m < k :: !ChangesAt(states, m, id)
  }

  /** Without a change a listing either looks at an answer or is left alone. */
  predicate ListingStep(s: State, s': State) {
    Scans(s, s') || (s'.queued == s.queued && s'.dirty == s.dirty && s'.waiter == s.waiter)
  }

  lemma LastListingStep(states: seq<State>, j: nat, k: nat)
    requires Run(states) && OneListing(states, j, k) && NoChange(states, j, k) && j < k
    ensures OneListing(states, j, k - 1) && NoChange(states, j, k - 1)
    ensures Inv(states[k - 1]) && ListingStep(states[k - 1], states[k])
  {
    var s, s' := states[k - 1], states[k];
    RunKeepsInv(states, k - 1);
    assert Next(s, s') && s.waiter.Listing? && s'.waiter.Listing?;
    forall id
      ensures !Changes(s, id, s')
    {
      assert !ChangesAt(states, k - 1, id);
    }
  }

  /** The marks of these answers are off, all others as they were. */
  ghost predicate Cleared(before: set<Id>, after: set<Id>, ids: seq<Id>) {
    forall id :: id in after <==> id in before && id !in ids
  }

  /** So far the listing has found just the answers dirty at its start, in order, and has taken their marks. */
  ghost predicate ListedSoFar(s: State, start: State) {
    && s.waiter.Listing? && s.waiter.next <= |s.queued| && s.queued == start.queued
    && s.waiter.found == Marked(s.queued[..s.waiter.next], start.dirty)
    && Cleared(start.dirty, s.dirty, s.queued[..s.waiter.next])
  }

  lemma ScanLists(s: State, s': State, start: State)
    requires Inv(s) && Scans(s, s') && ListedSoFar(s, start)
    ensures ListedSoFar(s', start)
  {
    var n, id := s.waiter.next, s.queued[s.waiter.next];
    assert s.queued[..n + 1] == s.queued[..n] + [id] && s.queued[..n + 1][..n] == s.queued[..n];
    assert id !in s.queued[..n];
    assert id in s.dirty <==> id in start.dirty;
  }

  /** Without a change meanwhile, a listing finds just the queued answers that were dirty at its start, in the order
      of the queue, and takes their marks. */
  lemma {:induction false} ListsTheDirty(states: seq<State>, j: nat, k: nat)
    requires Run(states) && OneListing(states, j, k) && NoChange(states, j, k)
    ensures ListedSoFar(states[k], states[j])
  {
    if j == k {
      NothingListed(states[j]);
    } else {
      LastListingStep(states, j, k);
      ListsTheDirty(states, j, k - 1);
      StepLists(states[k - 1], states[k], states[j]);
    }
  }

  lemma StepLists(s: State, s': State, start: State)
    requires Inv(s) && ListedSoFar(s, start) && ListingStep(s, s')
    ensures ListedSoFar(s', start)
  {
    if Scans(s, s') { ScanLists(s, s', start); }
  }

  lemma NothingListed(s: State)
    requires s.waiter == Listing(0, [], s.dirty)
    ensures ListedSoFar(s, s)
  {
  }

  /** Some queued answer is dirty. */
  ghost predicate SomeDirty(s: State) { exists id | id in s.queued :: id in s.dirty }

  lemma NoneMarkedIff(s: State)
    ensures Marked(s.queued, s.dirty) != [] <==> SomeDirty(s)
  {
    var marked := Marked(s.queued, s.dirty);
    if marked != [] { MarkedAre(s.queued, s.dirty, marked[0]); }
    if id :| id in s.queued && id in s.dirty { MarkedAre(s.queued, s.dirty, id); }
  }

  /** A listing that runs its course without a change meanwhile makes wait() return true, with those answers, if and
      only if some queued answer was dirty when it began, whatever the event is. */
  lemma TrueIffDirtyAtStart(states: seq<State>, j: nat, k: nat)
    requires Run(states) && OneListing(states, j, k) && NoChange(states, j, k) && k + 1 < |states|
    requires EndsListing(states[k], states[k + 1])
    ensures states[k + 1].waiter ==
      if SomeDirty(states[j]) then Returned(true, Marked(states[j].queued, states[j].dirty)) else Blocking
  {
    ListsTheDirty(states, j, k);
    assert states[j].queued[..states[k].waiter.next] == states[j].queued;
    NoneMarkedIff(states[j]);
  }

  function Last(states: seq<State>): State
    requires states != []
  {
    states[|states| - 1]
  }

  lemma RunExtends(states: seq<State>, next: State)
    requires Run(states) && Next(Last(states), next)
    ensures Run(states + [next])
  {
    var all := states + [next];
    forall i | 0 <= i < |all| - 1
      ensures Next(all[i], all[i + 1])
    {
      if i < |states| - 1 { assert all[i] == states[i] && all[i + 1] == states[i + 1]; }
    }
  }

  /** A run goes on with a whole listing, of one answer. */
  lemma ListsOne(states: seq<State>, t: State, id: Id) returns (all: seq<State>)
    requires Run(states) && t.queued == [id] && t.notifying == {} && Next(Last(states), StartListing(t))
    ensures Run(all) && |all| == |states| + 3 && all[..|states|] == states
    ensures all[|states|] == StartListing(t)
    ensures forall k | |states| <= k < |all| :: all[k].notifying == {}
    ensures Last(all) == State([id], t.dirty - {id}, {}, t.event,
                               if id in t.dirty then Returned(true, [id]) else Blocking)
  {
    var start := StartListing(t);
    var scanned := Scan(start);
    assert [] + [id] == [id] && (id !in t.dirty ==> t.dirty - {id} == t.dirty);
    assert Scans(start, scanned) && EndsListing(scanned, EndListing(scanned));
    RunExtends(states, start);
    RunExtends(states + [start], scanned);
    RunExtends(states + [start] + [scanned], EndListing(scanned));
    all := states + [start] + [scanned] + [EndListing(scanned)];
  }

  /** A run that leaves one answer dirty and the event set, before any wait(). */
  lemma OneChanged() returns (states: seq<State>)
    ensures Run(states) && |states| == 4 && Last(states) == State([1], {1}, {}, true, Away)
  {
    var s0 := State([], {}, {}, false, Away);
    var s1 := State([1], {}, {}, false, Away);
    var s2 := State([1], {1}, {1}, false, Away);
    var s3 := State([1], {1}, {}, true, Away);
    assert s0.queued + [1] == [1] && Edits(s0, s1);
    assert {} + {1} == {1} && Changes(s1, 1, s2);
    assert {1} - {1} == {} && Notifies(s2, 1, s3);
    assert Next(s0, s1) && Next(s1, s2) && Next(s2, s3);
    states := [s0, s1, s2, s3];
  }

  /** True without an event: a wait() that starts in states[4] and returns true, while nothing is signalled and the
      event is left as it was. */
  lemma TrueWithoutEvent() returns (states: seq<State>)
    ensures Run(states) && |states| == 7 && states[4] == State([1], {1}, {}, true, Listing(0, [], {1}))
    ensures forall k | 4 <= k < 7 :: states[k].notifying == {}
    ensures Last(states) == State([1], {}, {}, true, Returned(true, [1]))
  {
    var before := OneChanged();
    states := ListsOne(before, Last(before), 1);
    assert {1} - {1} == {};
  }

  /** An event without true: the wait() that starts in states[7] finds nothing, consumes the event, finds nothing
      again, and is left to its timeout. */
  lemma EventWithoutTrue() returns (states: seq<State>)
    ensures Run(states) && |states| == 14 && states[7] == State([1], {}, {}, true, Listing(0, [], {}))
    ensures states[9] == State([1], {}, {}, true, Blocking)
    ensures states[10] == State([1], {}, {}, false, Listing(0, [], {}))
    ensures Last(states) == State([1], {}, {}, false, Returned(false, []))
  {
    var first := TrueWithoutEvent();
    var second := ListsOne(first, Last(first), 1);
    var third := ListsOne(second, Last(second).(event := false), 1);
    assert {} - {1} == {};
    RunExtends(third, Last(third).(waiter := Returned(false, [])));
    states := third + [Last(third).(waiter := Returned(false, []))];
    assert states[7] == second[7] && states[9] == second[9] && states[10] == third[10];
  }
}
