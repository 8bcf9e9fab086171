/** When the done hooks of the created objects run. */
module InjectionOrder {
  import opened Injection
  import opened InjectionProofs

  // ----- each exactly once

  ghost predicate Finishes(log: seq<Event>, from: nat, w: Wrapper) {
    exists i | from <= i < |log| :: log[i] == Done(w)
  }

  /** From the given position on, done runs for each wrapper of the range and for the extra ones, for no
      other, for none twice, and no wrapper gets anything injected after it. */
  ghost predicate OnceEach(log: seq<Event>, from: nat, lo: nat, hi: nat, extra: set<Wrapper>) {
    && from <= |log|
    && (forall w: Wrapper | lo <= w < hi || w in extra :: Finishes(log, from, w))
    && (forall i | from <= i < |log| :: lo <= log[i].target < hi || log[i].target in extra)
    && (forall i, j | from <= i < j < |log| && log[i].Done? :: log[i].target != log[j].target)
  }

  lemma OnceEachThen(l1: seq<Event>, l2: seq<Event>, from: nat, lo: nat, mid: nat, hi: nat, w: Wrapper)
    requires l1 <= l2 && w < lo <= mid <= hi
    requires NoneYet(l1, from, lo, mid, w)
    requires OnceEach(l2, |l1|, mid, hi, {w})
    ensures OnceEach(l2, from, lo, hi, {w})
  {
    forall v: Wrapper | lo <= v < hi || v in {w}
      ensures Finishes(l2, from, v)
    {
      if lo <= v < mid {
        assert Finishes(l1, from, v);
        var i :| from <= i < |l1| && l1[i] == Done(v);
        assert l2[i] == Done(v);
      } else {
        assert Finishes(l2, |l1|, v);
      }
    }
    assert forall i | 0 <= i < |l1| :: l2[i] == l1[i];
  }

  /** As OnceEach, but with the extra wrapper injected into and not finished. */
  ghost predicate NoneYet(log: seq<Event>, from: nat, lo: nat, hi: nat, w: Wrapper) {
    && from <= |log|
    && (forall v: Wrapper | lo <= v < hi :: Finishes(log, from, v))
    && (forall i | from <= i < |log| :: lo <= log[i].target < hi || log[i].target == w)
    && (forall i | from <= i < |log| && log[i].Done? :: log[i].target != w)
    && (forall i, j | from <= i < j < |log| && log[i].Done? :: log[i].target != log[j].target)
  }

  lemma {:induction false} CreateFinishes(c: Config, st: Injector, name: string)
    requires Create(c, st, name, false).0.Created?
    ensures var after := Create(c, st, name, false).1; OnceEach(after.log, |st.log|, st.wrappers, after.wrappers, {})
    decreases 0, |Missing(c, st)|, 1
  {
    if name !in st.named {
      var ref := AliasOf(c, name);
      if ref == "" {
        NoAliasFinishes(c, st, name);
      } else if ref !in st.named {
        NoAliasFinishes(c, st, ref);
      }
    }
  }

  lemma {:induction false} NoAliasFinishes(c: Config, st: Injector, name: string)
    requires name !in st.named && CreateNoAlias(c, st, name, false).0.Created?
    ensures var after := CreateNoAlias(c, st, name, false).1;
      OnceEach(after.log, |st.log|, st.wrappers, after.wrappers, {})
    decreases 0, |Missing(c, st)|, 0
  {
    var registered := Register(st, name, false);
    assert name in Missing(c, st) && name in registered.named;
    MissingShrinks(c, st, registered);
    FromFinishes(c, registered, name, st.wrappers, 0);
  }

  lemma {:induction false} SetterFinishes(c: Config, st: Injector, name: string, w: Wrapper, k: nat)
    requires name in c.instances && k < |c.instances[name].setters| && w < st.wrappers
    requires InjectSetter(c, st, name, w, k).0.None?
    ensures var after := InjectSetter(c, st, name, w, k).1; NoneYet(after.log, |st.log|, st.wrappers, after.wrappers, w)
    decreases 0, |Missing(c, st)|, 2
  {
    var s := c.instances[name].setters[k];
    if Enabled(s) && s.ref.Some? {
      var (made, after) := Create(c, st, s.ref.value, false);
      CreateFinishes(c, st, s.ref.value);
      InjectedAfterwards(after.log, |st.log|, st.wrappers, after.wrappers,
        Injected(w, s.name.value, RefTo(made.wrapper)));
    }
  }

  lemma InjectedAfterwards(log: seq<Event>, from: nat, lo: nat, hi: nat, e: Event)
    requires OnceEach(log, from, lo, hi, {}) && e.Injected? && e.target < lo
    ensures NoneYet(log + [e], from, lo, hi, e.target)
  {
    forall v: Wrapper | lo <= v < hi
      ensures Finishes(log + [e], from, v)
    {
      assert Finishes(log, from, v);
      var i :| from <= i < |log| && log[i] == Done(v);
      assert (log + [e])[i] == Done(v);
    }
  }

  lemma {:induction false} FromFinishes(c: Config, st: Injector, name: string, w: Wrapper, k: nat)
    requires name in c.instances && k <= |c.instances[name].setters| && w < st.wrappers
    requires InjectFrom(c, st, name, w, k).0.Created?
    ensures var after := InjectFrom(c, st, name, w, k).1;
      OnceEach(after.log, |st.log|, st.wrappers, after.wrappers, {w})
    decreases 0, |Missing(c, st)|, 3, |c.instances[name].setters| - k
  {
    if k < |c.instances[name].setters| {
      var after := InjectSetter(c, st, name, w, k).1;
      var last := InjectFrom(c, after, name, w, k + 1).1;
      assert InjectFrom(c, st, name, w, k).1 == last;
      SetterFinishes(c, st, name, w, k);
      MissingShrinks(c, st, after);
      FromFinishes(c, after, name, w, k + 1);
      OnceEachThen(after.log, last.log, |st.log|, st.wrappers, after.wrappers, last.wrappers, w);
    } else {
      JustDone(st.log, w, st.wrappers);
    }
  }

  lemma JustDone(log: seq<Event>, w: Wrapper, lo: nat)
    ensures OnceEach(log + [Done(w)], |log|, lo, lo, {w})
  {
    assert (log + [Done(w)])[|log|] == Done(w);
  }

  // ----- after those of everything referred to

  predicate DoneBefore(log: seq<Event>, i: nat, w: Wrapper)
    requires i <= |log|
  {
    Done(w) in log[..i]
  }

  /** Whatever is injected by reference from the given position on is done by then. */
  ghost predicate InjectedDone(log: seq<Event>, from: nat) {
    forall i: nat | from <= i < |log| && IsRef(log[i]) :: DoneBefore(log, i, log[i].value.wrapper)
  }

  predicate IsRef(e: Event) { e.Injected? && e.value.RefTo? }

  /** The injected references never lead from a wrapper to one of the same or a higher rank. */
  ghost predicate Ranked(log: seq<Event>, from: nat, rank: Wrapper -> nat) {
    forall i | from <= i < |log| && IsRef(log[i]) :: rank(log[i].value.wrapper) < rank(log[i].target)
  }

  /** Registered wrappers are done, except those that are still being made. */
  ghost predicate AllDone(st: Injector, open: set<Wrapper>) {
    forall n | n in st.named :: st.named[n] in open || Done(st.named[n]) in st.log
  }

  ghost predicate Above(rank: Wrapper -> nat, w: Wrapper, open: set<Wrapper>) {
    forall o | o in open :: rank(w) <= rank(o)
  }

  lemma InjectedDoneThen(l1: seq<Event>, l2: seq<Event>, from: nat)
    requires l1 <= l2 && InjectedDone(l1, from) && InjectedDone(l2, |l1|)
    ensures InjectedDone(l2, from)
  {
    forall i: nat | from <= i < |l2| && IsRef(l2[i])
      ensures DoneBefore(l2, i, l2[i].value.wrapper)
    {
      if i < |l1| {
        assert l2[i] == l1[i] && DoneBefore(l1, i, l1[i].value.wrapper);
        assert l1[..i] == l2[..i];
      }
    }
  }

  lemma RankedPrefix(l1: seq<Event>, l2: seq<Event>, from: nat, rank: Wrapper -> nat)
    requires l1 <= l2 && Ranked(l2, from, rank)
    ensures Ranked(l1, from, rank) && (from <= |l1| ==> Ranked(l2, |l1|, rank))
  {
    assert forall i | 0 <= i < |l1| :: l1[i] == l2[i];
  }

  lemma AllDoneLater(st: Injector, st': Injector, open: set<Wrapper>)
    requires AllDone(st, open) && st'.named == st.named && st.log <= st'.log
    ensures AllDone(st', open)
  {
    forall n | n in st.named && st.named[n] !in open
      ensures Done(st.named[n]) in st'.log
    {
      assert Done(st.named[n]) in st.log;
    }
  }

  lemma {:induction false} CreateOrders(c: Config, st: Injector, name: string, open: set<Wrapper>, rank: Wrapper -> nat)
    requires Create(c, st, name, false).0.Created? && AllDone(st, open)
    requires forall o | o in open :: rank(Create(c, st, name, false).0.wrapper) < rank(o)
    requires Ranked(Create(c, st, name, false).1.log, |st.log|, rank)
    ensures var (made, after) := Create(c, st, name, false);
      InjectedDone(after.log, |st.log|) && AllDone(after, open) && Done(made.wrapper) in after.log
    decreases 0, |Missing(c, st)|, 1
  {
    if name !in st.named {
      var ref := AliasOf(c, name);
      if ref == "" {
        NoAliasOrders(c, st, name, open, rank);
      } else if ref !in st.named {
        NoAliasOrders(c, st, ref, open, rank);
      }
    }
  }

  lemma {:induction false} NoAliasOrders(c: Config, st: Injector, name: string,
                                       open: set<Wrapper>, rank: Wrapper -> nat)
    requires name !in st.named && CreateNoAlias(c, st, name, false).0.Created? && AllDone(st, open)
    requires forall o | o in open :: rank(CreateNoAlias(c, st, name, false).0.wrapper) < rank(o)
    requires Ranked(CreateNoAlias(c, st, name, false).1.log, |st.log|, rank)
    ensures var (made, after) := CreateNoAlias(c, st, name, false);
      InjectedDone(after.log, |st.log|) && AllDone(after, open) && Done(made.wrapper) in after.log
    decreases 0, |Missing(c, st)|, 0
  {
    var registered := Register(st, name, false);
    assert name in Missing(c, st) && name in registered.named;
    MissingShrinks(c, st, registered);
    NoAliasWrapper(c, st, name);
    FromOrders(c, registered, name, st.wrappers, 0, open + {st.wrappers}, rank);
  }

  lemma {:induction false} FromOrders(c: Config, st: Injector, name: string, w: Wrapper, k: nat,
                                    open: set<Wrapper>, rank: Wrapper -> nat)
    requires name in c.instances && k <= |c.instances[name].setters|
    requires InjectFrom(c, st, name, w, k).0.Created? && AllDone(st, open)
    requires w in open && Above(rank, w, open)
    requires Ranked(InjectFrom(c, st, name, w, k).1.log, |st.log|, rank)
    ensures var (made, after) := InjectFrom(c, st, name, w, k);
      InjectedDone(after.log, |st.log|) && AllDone(after, open - {w}) && Done(w) in after.log
    decreases 0, |Missing(c, st)|, 3, |c.instances[name].setters| - k
  {
    if k < |c.instances[name].setters| {
      var after := InjectSetter(c, st, name, w, k).1;
      var last := InjectFrom(c, after, name, w, k + 1).1;
      assert InjectFrom(c, st, name, w, k).1 == last;
      RankedPrefix(after.log, last.log, |st.log|, rank);
      SetterOrders(c, st, name, w, k, open, rank);
      MissingShrinks(c, st, after);
      FromOrders(c, after, name, w, k + 1, open, rank);
      InjectedDoneThen(after.log, last.log, |st.log|);
    } else {
      var last := InjectFrom(c, st, name, w, k).1;
      assert last.log[|st.log|] == Done(w);
      AllDoneLater(st, last, open);
    }
  }

  lemma {:induction false} SetterOrders(c: Config, st: Injector, name: string, w: Wrapper, k: nat,
                                      open: set<Wrapper>, rank: Wrapper -> nat)
    requires name in c.instances && k < |c.instances[name].setters|
    requires InjectSetter(c, st, name, w, k).0.None? && AllDone(st, open)
    requires w in open && Above(rank, w, open)
    requires Ranked(InjectSetter(c, st, name, w, k).1.log, |st.log|, rank)
    ensures var after := InjectSetter(c, st, name, w, k).1;
      InjectedDone(after.log, |st.log|) && AllDone(after, open)
    decreases 0, |Missing(c, st)|, 2
  {
    var s := c.instances[name].setters[k];
    var last := InjectSetter(c, st, name, w, k).1;
    if Enabled(s) && s.ref.Some? {
      var (made, after) := Create(c, st, s.ref.value, false);
      assert last.log == after.log + [Injected(w, s.name.value, RefTo(made.wrapper))];
      assert IsRef(last.log[|after.log|]) && rank(made.wrapper) < rank(w);
      RankedPrefix(after.log, last.log, |st.log|, rank);
      CreateOrders(c, st, s.ref.value, open, rank);
      assert last.log[..|after.log|] == after.log;
      InjectedDoneThen(after.log, last.log, |st.log|);
      AllDoneLater(after, last, open);
    } else {
      AllDoneLater(st, last, open);
    }
  }

  // ----- the main results about the done hooks

  /** A state that successful calls lead to: whatever is registered is done. */
  ghost predicate Ready(c: Config, st: Injector) {
    && Sound(c, st) && AllDone(st, {})
    && forall i | 0 <= i < |st.log| && st.log[i].Done? :: st.log[i].target < st.wrappers
  }

  lemma CreateKeepsReady(c: Config, st: Injector, name: string)
    requires Ready(c, st) && Create(c, st, name, false).0.Created?
    ensures Ready(c, Create(c, st, name, false).1)
  {
    CreateAllocates(c, st, name);
    CreateFinishes(c, st, name);
    StaysReady(c, st, Create(c, st, name, false).1, {});
  }

  /** The same without looking the name up first, as early creation does. */
  lemma NoAliasKeepsReady(c: Config, st: Injector, name: string)
    requires Ready(c, st) && CreateNoAlias(c, st, name, false).0.Created?
    ensures Ready(c, CreateNoAlias(c, st, name, false).1)
  {
    var after := CreateNoAlias(c, st, name, false).1;
    if name in st.named {
      var registered := Register(st, name, false);
      FromAllocates(c, registered, name, st.wrappers, 0);
      FromFinishes(c, registered, name, st.wrappers, 0);
      StaysReady(c, registered, after, {st.wrappers});
    } else {
      NoAliasAllocates(c, st, name);
      NoAliasFinishes(c, st, name);
      StaysReady(c, st, after, {});
    }
  }

  lemma StaysReady(c: Config, st: Injector, after: Injector, extra: set<Wrapper>)
    requires Ready(c, st) && Allocated(c, st, after)
    requires OnceEach(after.log, |st.log|, st.wrappers, after.wrappers, extra)
    requires forall w | w in extra :: w < after.wrappers
    ensures Ready(c, after)
  {
    forall i | 0 <= i < |after.log| && after.log[i].Done?
      ensures after.log[i].target < after.wrappers
    {
      if i < |st.log| { assert after.log[i] == st.log[i]; }
    }
    forall n | n in after.named
      ensures Done(after.named[n]) in after.log
    {
      if n in st.named {
        assert Done(st.named[n]) in st.log;
      } else {
        assert NewName(st.named, after.named, n) && Finishes(after.log, |st.log|, after.named[n]);
      }
    }
    AllocatedKeepsSound(c, st, after);
  }

  /** A successful create() with disown keeps it too. */
  lemma DisownKeepsReady(c: Config, st: Injector, name: string)
    requires Ready(c, st) && Create(c, st, name, true).0.Created?
    ensures Ready(c, Create(c, st, name, true).1)
  {
    var target := Target(c, name);
    if name !in st.named && target !in st.named {
      var registered := Register(st, target, true);
      FromAllocates(c, registered, target, st.wrappers, 0);
      FromFinishes(c, registered, target, st.wrappers, 0);
      StaysReady(c, registered, Create(c, st, name, true).1, {st.wrappers});
    }
  }

  ghost predicate DoneOnce(log: seq<Event>, from: nat, w: Wrapper) {
    && Finishes(log, from, w)
    && forall i, j | 0 <= i < j < |log| && log[i] == Done(w) :: log[j] != Done(w)
  }

  /** Every successful create() runs the done hook of each instance it newly creates exactly once, whatever
      the shape of the reference graph, and leaves everything registered done. */
  lemma DoneExactlyOnce(c: Config, st: Injector, name: string)
    requires Ready(c, st) && Create(c, st, name, false).0.Created?
    ensures var after := Create(c, st, name, false).1;
      Ready(c, after) && forall n | NewName(st.named, after.named, n) :: DoneOnce(after.log, |st.log|, after.named[n])
  {
    var after := Create(c, st, name, false).1;
    CreateKeepsReady(c, st, name);
    CreateAllocates(c, st, name);
    CreateFinishes(c, st, name);
    forall n | NewName(st.named, after.named, n)
      ensures DoneOnce(after.log, |st.log|, after.named[n])
    {
      NewIsDoneOnce(st, after, after.named[n]);
    }
  }

  lemma NewIsDoneOnce(st: Injector, after: Injector, w: Wrapper)
    requires st.log <= after.log && OnceEach(after.log, |st.log|, st.wrappers, after.wrappers, {})
    requires forall i | 0 <= i < |st.log| && st.log[i].Done? :: st.log[i].target < st.wrappers
    requires st.wrappers <= w < after.wrappers
    ensures DoneOnce(after.log, |st.log|, w)
  {
    assert Finishes(after.log, |st.log|, w);
    assert forall i | 0 <= i < |st.log| :: after.log[i] == st.log[i];
  }

  // ----- what a failed call leaves behind

  /** From the given position on, done runs only for wrappers from lo on. */
  ghost predicate DoneFrom(log: seq<Event>, from: nat, lo: nat) {
    forall i | from <= i < |log| && log[i].Done? :: lo <= log[i].target
  }

  lemma {:induction false} CreateDoneFrom(c: Config, st: Injector, name: string)
    ensures DoneFrom(Create(c, st, name, false).1.log, |st.log|, st.wrappers)
    decreases 0, |Missing(c, st)|, 1
  {
    if name !in st.named {
      var ref := AliasOf(c, name);
      if ref == "" {
        if name != "" { NoAliasDoneFrom(c, st, name); }
      } else if ref !in st.named {
        NoAliasDoneFrom(c, st, ref);
      }
    }
  }

  lemma {:induction false} NoAliasDoneFrom(c: Config, st: Injector, name: string)
    requires name !in st.named
    ensures DoneFrom(CreateNoAlias(c, st, name, false).1.log, |st.log|, st.wrappers)
    decreases 0, |Missing(c, st)|, 0
  {
    if Constructs(c, name) {
      var registered := Register(st, name, false);
      assert name in Missing(c, st) && name in registered.named;
      MissingShrinks(c, st, registered);
      FromDoneFrom(c, registered, name, st.wrappers, 0);
    }
  }

  /** Until the call succeeds, done runs for objects that are newer than the present one only. */
  lemma {:induction false} FromDoneFrom(c: Config, st: Injector, name: string, w: Wrapper, k: nat)
    requires name in c.instances && k <= |c.instances[name].setters| && w < st.wrappers
    ensures var (made, after) := InjectFrom(c, st, name, w, k);
      DoneFrom(after.log, |st.log|, if made.Created? then w else st.wrappers)
    decreases 0, |Missing(c, st)|, 3, |c.instances[name].setters| - k
  {
    if k < |c.instances[name].setters| {
      var after := InjectSetter(c, st, name, w, k).1;
      FromNext(c, st, name, w, k);
      SetterDoneFrom(c, st, name, w, k);
      if InjectSetter(c, st, name, w, k).0.None? {
        FromDoneFrom(c, after, name, w, k + 1);
        var last := InjectFrom(c, after, name, w, k + 1).1;
        assert forall i | 0 <= i < |after.log| :: last.log[i] == after.log[i];
      }
    }
  }

  lemma {:induction false} SetterDoneFrom(c: Config, st: Injector, name: string, w: Wrapper, k: nat)
    requires name in c.instances && k < |c.instances[name].setters|
    ensures DoneFrom(InjectSetter(c, st, name, w, k).1.log, |st.log|, st.wrappers)
    decreases 0, |Missing(c, st)|, 2
  {
    var s := c.instances[name].setters[k];
    if Enabled(s) && s.ref.Some? { CreateDoneFrom(c, st, s.ref.value); }
  }

  lemma FailedIsUndone(c: Config, st: Injector, name: string)
    requires Ready(c, st) && name !in st.named && CreateNoAlias(c, st, name, false).0.Throws?
    ensures var after := CreateNoAlias(c, st, name, false).1;
      if Constructs(c, name) then name in after.named && Done(after.named[name]) !in after.log else after == st
  {
    if Constructs(c, name) {
      var registered := Register(st, name, false);
      var after := InjectFrom(c, registered, name, st.wrappers, 0).1;
      FromDoneFrom(c, registered, name, st.wrappers, 0);
      assert forall i | 0 <= i < |st.log| :: after.log[i] == st.log[i];
      assert after.named[name] == registered.named[name] == st.wrappers;
    }
  }

  /** A failed create() leaves something registered that is not done if and only if the failure came after the
      object itself was made: what the name stands for is an instance of a known class. That object is then
      found, undone, by the next create() of the name. */
  lemma FailureLeavesUndoneIff(c: Config, st: Injector, name: string)
    requires Ready(c, st) && Create(c, st, name, false).0.Throws?
    ensures var t, after := Target(c, name), Create(c, st, name, false).1;
      && (!AllDone(after, {}) <==> AliasOf(c, name) != name && Constructs(c, t))
      && (AllDone(after, {}) ==> after == st)
      && (!AllDone(after, {}) ==> t in after.named && Done(after.named[t]) !in after.log)
      && (!AllDone(after, {}) && (name == t || name !in after.named) ==>
            Create(c, after, name, false) == (Created(after.named[t]), after))
  {
    if AliasOf(c, name) != name { FailedIsUndone(c, st, Target(c, name)); }
  }

  function First(log: seq<Event>, w: Wrapper): (i: nat)
    ensures i <= |log| && (i < |log| ==> log[i] == Done(w)) && !DoneBefore(log, i, w)
    ensures forall j: nat | j < |log| && log[j] == Done(w) :: i <= j
  {
    if log == [] || log[0] == Done(w) then 0
    else
      var i := First(log[1..], w);
      assert log[1..][..i] == log[1..i + 1];
      assert log[..i + 1] == [log[0]] + log[1..i + 1];
      i + 1
  }

  /** The instance n has a reference that t may have been injected for. */
  ghost predicate Points(c: Config, n: string, t: string) {
    exists k: nat, r :: Refers(c, n, k, r) && Candidate(c, r, t)
  }

  /** Each injected reference is one that is configured. */
  ghost predicate Backed(c: Config, log: seq<Event>, from: nat, named: map<string, Wrapper>) {
    forall i | from <= i < |log| && IsRef(log[i]) :: Along(c, named, log[i].target, log[i].value.wrapper)
  }

  ghost predicate Along(c: Config, named: map<string, Wrapper>, w: Wrapper, v: Wrapper) {
    exists n, t :: n in named && t in named && named[n] == w && named[t] == v && Points(c, n, t)
  }

  lemma BackedThen(c: Config, l1: seq<Event>, l2: seq<Event>, from: nat,
                   m1: map<string, Wrapper>, m2: map<string, Wrapper>)
    requires l1 <= l2 && Backed(c, l1, from, m1) && Backed(c, l2, |l1|, m2)
    requires forall n | n in m1 :: n in m2 && m2[n] == m1[n]
    ensures Backed(c, l2, from, m2)
  {
    forall i | from <= i < |l2| && IsRef(l2[i])
      ensures Along(c, m2, l2[i].target, l2[i].value.wrapper)
    {
      if i < |l1| {
        assert l1[i] == l2[i] && Along(c, m1, l1[i].target, l1[i].value.wrapper);
        var n, t :| n in m1 && t in m1 && m1[n] == l1[i].target && m1[t] == l1[i].value.wrapper && Points(c, n, t);
        assert n in m2 && t in m2;
      }
    }
  }

  lemma CreatedName(c: Config, st: Injector, name: string) returns (t: string)
    requires Create(c, st, name, false).0.Created?
    ensures var (made, after) := Create(c, st, name, false);
      t in after.named && after.named[t] == made.wrapper && Candidate(c, name, t)
  {
    t := if name in st.named || AliasOf(c, name) == "" then name else AliasOf(c, name);
    if t !in st.named { NoAliasWrapper(c, st, t); }
  }

  lemma {:induction false} CreateBacked(c: Config, st: Injector, name: string)
    requires Create(c, st, name, false).0.Created? && st.named.Keys <= c.instances.Keys
    ensures Backed(c, Create(c, st, name, false).1.log, |st.log|, Create(c, st, name, false).1.named)
    decreases 0, |Missing(c, st)|, 1
  {
    if name !in st.named {
      var ref := AliasOf(c, name);
      if ref == "" {
        NoAliasBacked(c, st, name);
      } else if ref !in st.named {
        NoAliasBacked(c, st, ref);
      }
    }
  }

  lemma {:induction false} NoAliasBacked(c: Config, st: Injector, name: string)
    requires name !in st.named && CreateNoAlias(c, st, name, false).0.Created? && st.named.Keys <= c.instances.Keys
    ensures Backed(c, CreateNoAlias(c, st, name, false).1.log, |st.log|, CreateNoAlias(c, st, name, false).1.named)
    decreases 0, |Missing(c, st)|, 0
  {
    var registered := Register(st, name, false);
    assert name in Missing(c, st) && name in registered.named;
    MissingShrinks(c, st, registered);
    FromBacked(c, registered, name, st.wrappers, 0);
  }

  lemma {:induction false} SetterBacked(c: Config, st: Injector, name: string, w: Wrapper, k: nat)
    requires name in c.instances && k < |c.instances[name].setters|
    requires InjectSetter(c, st, name, w, k).0.None? && st.named.Keys <= c.instances.Keys
    requires name in st.named && st.named[name] == w
    ensures Backed(c, InjectSetter(c, st, name, w, k).1.log, |st.log|, InjectSetter(c, st, name, w, k).1.named)
    ensures InjectSetter(c, st, name, w, k).1.named.Keys <= c.instances.Keys
    decreases 0, |Missing(c, st)|, 2
  {
    var s := c.instances[name].setters[k];
    var last := InjectSetter(c, st, name, w, k).1;
    if Enabled(s) && s.ref.Some? {
      var (made, after) := Create(c, st, s.ref.value, false);
      CreateBacked(c, st, s.ref.value);
      KeysConfigured(c, st, s.ref.value);
      var t := CreatedName(c, st, s.ref.value);
      assert Refers(c, name, k, s.ref.value);
      assert Points(c, name, t) && Along(c, after.named, w, made.wrapper);
      BackedThen(c, after.log, last.log, |st.log|, after.named, last.named);
    }
  }

  lemma KeysConfigured(c: Config, st: Injector, name: string)
    requires st.named.Keys <= c.instances.Keys
    ensures Create(c, st, name, false).1.named.Keys <= c.instances.Keys
  {
    CreateAllocates(c, st, name);
    var after := Create(c, st, name, false).1;
    forall n | n in after.named
      ensures n in c.instances
    {
      if n !in st.named { assert NewName(st.named, after.named, n); }
    }
  }

  lemma {:induction false} FromBacked(c: Config, st: Injector, name: string, w: Wrapper, k: nat)
    requires name in c.instances && k <= |c.instances[name].setters|
    requires InjectFrom(c, st, name, w, k).0.Created? && st.named.Keys <= c.instances.Keys
    requires name in st.named && st.named[name] == w
    ensures Backed(c, InjectFrom(c, st, name, w, k).1.log, |st.log|, InjectFrom(c, st, name, w, k).1.named)
    decreases 0, |Missing(c, st)|, 3, |c.instances[name].setters| - k
  {
    if k < |c.instances[name].setters| {
      var after := InjectSetter(c, st, name, w, k).1;
      var last := InjectFrom(c, after, name, w, k + 1).1;
      assert InjectFrom(c, st, name, w, k).1 == last;
      SetterBacked(c, st, name, w, k);
      MissingShrinks(c, st, after);
      FromBacked(c, after, name, w, k + 1);
      BackedThen(c, after.log, last.log, |st.log|, after.named, last.named);
    }
  }

  ghost function NameOf(named: map<string, Wrapper>, w: Wrapper): string {
    if n :| n in named && named[n] == w then n else ""
  }

  lemma NameOfNamed(c: Config, st: Injector, n: string)
    requires Sound(c, st) && n in st.named
    ensures NameOf(st.named, st.named[n]) == n
  {
  }
}
