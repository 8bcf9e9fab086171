/** Which calls each created object gets, and in what order the done hooks run as far as the configuration
    decides it. */
module InjectionCalls {
  import opened Injection
  import opened InjectionProofs
  import opened InjectionOrder

  // ----- the calls to one object

  function CallsTo(log: seq<Event>, w: Wrapper): seq<Event> {
    if log == [] then []
    else
      var last := |log| - 1;
      CallsTo(log[..last], w) + if log[last].target == w then [log[last]] else []
  }

  lemma {:induction false} CallsToSplit(a: seq<Event>, b: seq<Event>, w: Wrapper)
    ensures CallsTo(a + b, w) == CallsTo(a, w) + CallsTo(b, w)
    decreases |b|
  {
    if b == [] {
      assert a + b == a;
    } else {
      assert (a + b)[..|a + b| - 1] == a + b[..|b| - 1];
      CallsToSplit(a, b[..|b| - 1], w);
    }
  }

  lemma {:induction false} NoCallsTo(log: seq<Event>, w: Wrapper)
    requires forall i | 0 <= i < |log| :: log[i].target != w
    ensures CallsTo(log, w) == []
    decreases |log|
  {
    if log != [] { NoCallsTo(log[..|log| - 1], w); }
  }

  lemma {:induction false} CallIsInLog(log: seq<Event>, w: Wrapper, e: Event)
    requires e in CallsTo(log, w)
    ensures e in log
    decreases |log|
  {
    if log != [] && e != log[|log| - 1] { CallIsInLog(log[..|log| - 1], w, e); }
  }

  // ----- the calls that the configuration asks for

  /** The setters from the k-th on that take effect. */
  function Effective(setters: seq<Setter>, k: nat): (some: seq<Setter>)
    requires k <= |setters|
    ensures forall s | s in some :: TakesEffect(s)
    decreases |setters| - k
  {
    if k == |setters| then []
    else (if TakesEffect(setters[k]) then [setters[k]] else []) + Effective(setters, k + 1)
  }

  lemma {:induction false} EffectiveHas(setters: seq<Setter>, from: nat, k: nat)
    requires from <= k < |setters| && TakesEffect(setters[k])
    ensures setters[k] in Effective(setters, from)
    decreases k - from
  {
    if from < k { EffectiveHas(setters, from + 1, k); }
  }

  /** The call that the setter asks for, a reference before a number before a text. */
  ghost predicate CallFor(c: Config, named: map<string, Wrapper>, w: Wrapper, s: Setter, e: Event)
    requires TakesEffect(s)
  {
    && e.Injected? && e.target == w && e.property == s.name.value
    && if s.ref.Some? then exists t :: t in named && Candidate(c, s.ref.value, t) && e.value == RefTo(named[t])
       else e.value == if s.number.Some? then NumberOf(s.number.value) else TextOf(s.text.value)
  }

  /** One call for each of the setters, in their order, and then done. */
  ghost predicate Configured(c: Config, named: map<string, Wrapper>, w: Wrapper,
                             setters: seq<Setter>, calls: seq<Event>)
    requires forall s | s in setters :: TakesEffect(s)
  {
    && |calls| == |setters| + 1
    && (forall i | 0 <= i < |setters| :: CallFor(c, named, w, setters[i], calls[i]))
    && calls[|setters|] == Done(w)
  }

  /** The objects of all new names got exactly the calls that are configured for them. */
  ghost predicate Fulfilled(c: Config, before: map<string, Wrapper>, after: map<string, Wrapper>, log: seq<Event>) {
    forall n | NewName(before, after, n) ::
      n in c.instances && Configured(c, after, after[n], Effective(c.instances[n].setters, 0), CallsTo(log, after[n]))
  }

  lemma CallForLater(c: Config, m1: map<string, Wrapper>, m2: map<string, Wrapper>, w: Wrapper, s: Setter, e: Event)
    requires TakesEffect(s) && CallFor(c, m1, w, s, e) && forall n | n in m1 :: n in m2 && m2[n] == m1[n]
    ensures CallFor(c, m2, w, s, e)
  {
    if s.ref.Some? {
      var t :| t in m1 && Candidate(c, s.ref.value, t) && e.value == RefTo(m1[t]);
      assert t in m2;
    }
  }

  lemma ConfiguredLater(c: Config, m1: map<string, Wrapper>, m2: map<string, Wrapper>, w: Wrapper,
                        setters: seq<Setter>, calls: seq<Event>)
    requires forall s | s in setters :: TakesEffect(s)
    requires Configured(c, m1, w, setters, calls) && forall n | n in m1 :: n in m2 && m2[n] == m1[n]
    ensures Configured(c, m2, w, setters, calls)
  {
    forall i | 0 <= i < |setters|
      ensures CallFor(c, m2, w, setters[i], calls[i])
    {
      CallForLater(c, m1, m2, w, setters[i], calls[i]);
    }
  }

  // ----- along the recursion

  /** The calls of a part of the log go to wrappers of the range or to w. */
  ghost predicate Within(log: seq<Event>, lo: nat, hi: nat, w: Wrapper) {
    forall i | 0 <= i < |log| :: lo <= log[i].target < hi || log[i].target == w
  }

  /** Fulfilled by a first part of the log, then by a second one, whose calls go to other objects. */
  lemma FulfilledThen(c: Config, s0: Injector, s1: Injector, s2: Injector,
                      first: seq<Event>, second: seq<Event>, w: Wrapper)
    requires Allocated(c, s0, s1) && Allocated(c, s1, s2) && w < s0.wrappers
    requires Within(first, s0.wrappers, s1.wrappers, w) && Within(second, s1.wrappers, s2.wrappers, w)
    requires Fulfilled(c, s0.named, s1.named, first) && Fulfilled(c, s1.named, s2.named, second)
    ensures Fulfilled(c, s0.named, s2.named, first + second)
  {
    forall n | NewName(s0.named, s2.named, n)
      ensures n in c.instances
      ensures Configured(c, s2.named, s2.named[n], Effective(c.instances[n].setters, 0),
        CallsTo(first + second, s2.named[n]))
    {
      if n in s1.named {
        assert NewName(s0.named, s1.named, n);
        CalledFirst(c, s1, s2, first, second, w, n);
      } else {
        assert NewName(s1.named, s2.named, n);
        CalledSecond(c, s0, s1, s2, first, second, w, n);
      }
    }
  }

  lemma CalledFirst(c: Config, s1: Injector, s2: Injector, first: seq<Event>, second: seq<Event>, w: Wrapper, n: string)
    requires Grows(s1, s2) && n in s1.named && n in c.instances && s1.named[n] < s1.wrappers && s1.named[n] != w
    requires Within(second, s1.wrappers, s2.wrappers, w)
    requires Configured(c, s1.named, s1.named[n], Effective(c.instances[n].setters, 0), CallsTo(first, s1.named[n]))
    ensures Configured(c, s2.named, s2.named[n], Effective(c.instances[n].setters, 0),
      CallsTo(first + second, s2.named[n]))
  {
    var v := s2.named[n];
    CallsToSplit(first, second, v);
    NoCallsTo(second, v);
    ConfiguredLater(c, s1.named, s2.named, v, Effective(c.instances[n].setters, 0), CallsTo(first, v));
  }

  lemma CalledSecond(c: Config, s0: Injector, s1: Injector, s2: Injector, first: seq<Event>, second: seq<Event>,
                     w: Wrapper, n: string)
    requires n in s2.named && n in c.instances && s1.wrappers <= s2.named[n] && s2.named[n] != w
    requires Within(first, s0.wrappers, s1.wrappers, w)
    requires Configured(c, s2.named, s2.named[n], Effective(c.instances[n].setters, 0), CallsTo(second, s2.named[n]))
    ensures Configured(c, s2.named, s2.named[n], Effective(c.instances[n].setters, 0),
      CallsTo(first + second, s2.named[n]))
  {
    CallsToSplit(first, second, s2.named[n]);
    NoCallsTo(first, s2.named[n]);
  }

  lemma {:induction false} CreateCalls(c: Config, st: Injector, name: string)
    requires Create(c, st, name, false).0.Created?
    ensures var after := Create(c, st, name, false).1;
      Fulfilled(c, st.named, after.named, after.log[|st.log|..])
    decreases 0, |Missing(c, st)|, 1
  {
    if name !in st.named {
      var ref := AliasOf(c, name);
      if ref == "" {
        NoAliasCalls(c, st, name);
      } else if ref !in st.named {
        NoAliasCalls(c, st, ref);
      }
    }
  }

  lemma {:induction false} NoAliasCalls(c: Config, st: Injector, name: string)
    requires name !in st.named && CreateNoAlias(c, st, name, false).0.Created?
    ensures var after := CreateNoAlias(c, st, name, false).1;
      Fulfilled(c, st.named, after.named, after.log[|st.log|..])
    decreases 0, |Missing(c, st)|, 0
  {
    var registered := Register(st, name, false);
    assert name in Missing(c, st) && name in registered.named;
    MissingShrinks(c, st, registered);
    FromCalls(c, registered, name, st.wrappers, 0);
    var after := InjectFrom(c, registered, name, st.wrappers, 0).1;
    assert after == CreateNoAlias(c, st, name, false).1 && after.named[name] == registered.named[name];
    forall n | NewName(st.named, after.named, n) && n != name
      ensures NewName(registered.named, after.named, n)
    {
    }
  }

  lemma {:induction false} SetterCalls(c: Config, st: Injector, name: string, w: Wrapper, k: nat)
    requires name in c.instances && k < |c.instances[name].setters| && w < st.wrappers
    requires InjectSetter(c, st, name, w, k).0.None?
    ensures var (s, after) := (c.instances[name].setters[k], InjectSetter(c, st, name, w, k).1);
      var calls := CallsTo(after.log[|st.log|..], w);
      && Fulfilled(c, st.named, after.named, after.log[|st.log|..])
      && if TakesEffect(s) then |calls| == 1 && CallFor(c, after.named, w, s, calls[0]) else calls == []
    decreases 0, |Missing(c, st)|, 2
  {
    var s := c.instances[name].setters[k];
    if Enabled(s) && s.ref.Some? {
      CreateCalls(c, st, s.ref.value);
      ReferenceCall(c, st, name, w, k);
    } else {
      ValueCall(c, st, name, w, k);
    }
  }

  lemma ValueCall(c: Config, st: Injector, name: string, w: Wrapper, k: nat)
    requires name in c.instances && k < |c.instances[name].setters| && w < st.wrappers
    requires InjectSetter(c, st, name, w, k).0.None?
    requires !(Enabled(c.instances[name].setters[k]) && c.instances[name].setters[k].ref.Some?)
    ensures var (s, after) := (c.instances[name].setters[k], InjectSetter(c, st, name, w, k).1);
      var calls := CallsTo(after.log[|st.log|..], w);
      && after.named == st.named
      && if TakesEffect(s) then |calls| == 1 && CallFor(c, after.named, w, s, calls[0]) else calls == []
  {
    var s, last := c.instances[name].setters[k], InjectSetter(c, st, name, w, k).1;
    if TakesEffect(s) {
      assert last.log[|st.log|..] == [last.log[|st.log|]];
      assert CallsTo(last.log[|st.log|..], w) == [last.log[|st.log|]];
    } else {
      assert last.log[|st.log|..] == [];
    }
  }

  lemma ReferenceCall(c: Config, st: Injector, name: string, w: Wrapper, k: nat)
    requires name in c.instances && k < |c.instances[name].setters| && w < st.wrappers
    requires InjectSetter(c, st, name, w, k).0.None?
    requires Enabled(c.instances[name].setters[k]) && c.instances[name].setters[k].ref.Some?
    requires var after := Create(c, st, c.instances[name].setters[k].ref.value, false).1;
      Fulfilled(c, st.named, after.named, after.log[|st.log|..])
    ensures var (s, after) := (c.instances[name].setters[k], InjectSetter(c, st, name, w, k).1);
      var calls := CallsTo(after.log[|st.log|..], w);
      && Fulfilled(c, st.named, after.named, after.log[|st.log|..])
      && |calls| == 1 && CallFor(c, after.named, w, s, calls[0])
  {
    var s, last := c.instances[name].setters[k], InjectSetter(c, st, name, w, k).1;
    var (made, after) := Create(c, st, s.ref.value, false);
    var e := Injected(w, s.name.value, RefTo(made.wrapper));
    NotCalledMeanwhile(c, st, s.ref.value, w);
    CreateAllocates(c, st, s.ref.value);
    assert last.log[|st.log|..] == after.log[|st.log|..] + [e];
    OneMoreCall(c, st, after, after.log[|st.log|..], e);
    var t := CreatedName(c, st, s.ref.value);
    assert CallFor(c, after.named, w, s, e);
  }

  lemma NotCalledMeanwhile(c: Config, st: Injector, name: string, w: Wrapper)
    requires Create(c, st, name, false).0.Created? && w < st.wrappers
    ensures CallsTo(Create(c, st, name, false).1.log[|st.log|..], w) == []
  {
    CreateFinishes(c, st, name);
    NoCallsTo(Create(c, st, name, false).1.log[|st.log|..], w);
  }

  /** A call to an object that was there before changes nothing for the new ones. */
  lemma OneMoreCall(c: Config, st: Injector, after: Injector, log: seq<Event>, e: Event)
    requires Allocated(c, st, after) && e.target < st.wrappers && Fulfilled(c, st.named, after.named, log)
    ensures Fulfilled(c, st.named, after.named, log + [e])
    ensures CallsTo(log + [e], e.target) == CallsTo(log, e.target) + [e]
  {
    assert (log + [e])[..|log|] == log;
    assert forall n | NewName(st.named, after.named, n) ::
      CallsTo(log + [e], after.named[n]) == CallsTo(log, after.named[n]);
  }

  lemma {:induction false} FromCalls(c: Config, st: Injector, name: string, w: Wrapper, k: nat)
    requires name in c.instances && k <= |c.instances[name].setters| && w < st.wrappers
    requires InjectFrom(c, st, name, w, k).0.Created?
    ensures var after := InjectFrom(c, st, name, w, k).1;
      && Fulfilled(c, st.named, after.named, after.log[|st.log|..])
      && Configured(c, after.named, w, Effective(c.instances[name].setters, k), CallsTo(after.log[|st.log|..], w))
    decreases 0, |Missing(c, st)|, 3, |c.instances[name].setters| - k
  {
    if k < |c.instances[name].setters| {
      FromNext(c, st, name, w, k);
      var after := InjectSetter(c, st, name, w, k).1;
      SetterCalls(c, st, name, w, k);
      FromCalls(c, after, name, w, k + 1);
      FulfilledByBoth(c, st, name, w, k);
      CallsThen(c, st, after, InjectFrom(c, after, name, w, k + 1).1, c.instances[name].setters, w, k);
    } else {
      var last := InjectFrom(c, st, name, w, k).1;
      assert last.log[|st.log|..] == [Done(w)];
      assert CallsTo([Done(w)], w) == [Done(w)];
    }
  }

  /** The calls for one setter, then those for the rest. */
  lemma ConfiguredThen(c: Config, m1: map<string, Wrapper>, m2: map<string, Wrapper>, w: Wrapper,
                       setters: seq<Setter>, k: nat, head: seq<Event>, rest: seq<Event>)
    requires k < |setters| && forall n | n in m1 :: n in m2 && m2[n] == m1[n]
    requires if TakesEffect(setters[k]) then |head| == 1 && CallFor(c, m1, w, setters[k], head[0]) else head == []
    requires Configured(c, m2, w, Effective(setters, k + 1), rest)
    ensures Configured(c, m2, w, Effective(setters, k), head + rest)
  {
    if TakesEffect(setters[k]) {
      CallForLater(c, m1, m2, w, setters[k], head[0]);
      assert Effective(setters, k) == [setters[k]] + Effective(setters, k + 1);
    } else {
      assert head + rest == rest;
    }
  }

  lemma CallsThen(c: Config, s0: Injector, s1: Injector, s2: Injector, setters: seq<Setter>, w: Wrapper, k: nat)
    requires Grows(s0, s1) && Grows(s1, s2) && k < |setters|
    requires var (first, second) := (s1.log[|s0.log|..], s2.log[|s1.log|..]);
      && Fulfilled(c, s0.named, s2.named, first + second)
      && (if TakesEffect(setters[k]) then
            |CallsTo(first, w)| == 1 && CallFor(c, s1.named, w, setters[k], CallsTo(first, w)[0])
          else CallsTo(first, w) == [])
      && Configured(c, s2.named, w, Effective(setters, k + 1), CallsTo(second, w))
    ensures Fulfilled(c, s0.named, s2.named, s2.log[|s0.log|..])
    ensures Configured(c, s2.named, w, Effective(setters, k), CallsTo(s2.log[|s0.log|..], w))
  {
    var first, second := s1.log[|s0.log|..], s2.log[|s1.log|..];
    assert s2.log[|s0.log|..] == first + second;
    CallsToSplit(first, second, w);
    ConfiguredThen(c, s1.named, s2.named, w, setters, k, CallsTo(first, w), CallsTo(second, w));
  }

  lemma FulfilledByBoth(c: Config, st: Injector, name: string, w: Wrapper, k: nat)
    requires name in c.instances && k < |c.instances[name].setters| && w < st.wrappers
    requires InjectFrom(c, st, name, w, k).0.Created?
    requires var (after, last) := (InjectSetter(c, st, name, w, k).1, InjectFrom(c, st, name, w, k).1);
      && Fulfilled(c, st.named, after.named, after.log[|st.log|..])
      && |after.log| <= |last.log| && Fulfilled(c, after.named, last.named, last.log[|after.log|..])
    ensures var (after, last) := (InjectSetter(c, st, name, w, k).1, InjectFrom(c, st, name, w, k).1);
      Fulfilled(c, st.named, last.named, after.log[|st.log|..] + last.log[|after.log|..])
  {
    var after, last := InjectSetter(c, st, name, w, k).1, InjectFrom(c, st, name, w, k).1;
    FromNext(c, st, name, w, k);
    SetterAllocates(c, st, name, w, k);
    FromAllocates(c, after, name, w, k + 1);
    PartsAreWithin(c, st, name, w, k);
    FulfilledThen(c, st, after, last, after.log[|st.log|..], last.log[|after.log|..], w);
  }

  lemma PartsAreWithin(c: Config, st: Injector, name: string, w: Wrapper, k: nat)
    requires name in c.instances && k < |c.instances[name].setters| && w < st.wrappers
    requires InjectFrom(c, st, name, w, k).0.Created?
    ensures var (after, last) := (InjectSetter(c, st, name, w, k).1, InjectFrom(c, st, name, w, k).1);
      && Within(after.log[|st.log|..], st.wrappers, after.wrappers, w)
      && after.log <= last.log && Within(last.log[|after.log|..], after.wrappers, last.wrappers, w)
  {
    FromNext(c, st, name, w, k);
    SetterFinishes(c, st, name, w, k);
    FromFinishes(c, InjectSetter(c, st, name, w, k).1, name, w, k + 1);
  }

  // ----- the references of every new instance

  /** During the call, the reference of the k-th setter of n was injected as the object named t. */
  ghost predicate Given(c: Config, st: Injector, after: Injector, n: string, k: nat, r: string, t: string)
    requires Refers(c, n, k, r) && n in after.named
  {
    && t in after.named && Candidate(c, r, t) && |st.log| <= |after.log|
    && Injected(after.named[n], c.instances[n].setters[k].name.value, RefTo(after.named[t])) in after.log[|st.log|..]
  }

  /** After a successful create() the object of every new name has got exactly the calls that its setters ask
      for, one each and in the order of the configuration, and then done, and no other call. */
  lemma CallsAreConfigured(c: Config, st: Injector, name: string)
    requires Create(c, st, name, false).0.Created?
    ensures var after := Create(c, st, name, false).1;
      forall n | NewName(st.named, after.named, n) ::
        && n in c.instances
        && Configured(c, after.named, after.named[n], Effective(c.instances[n].setters, 0),
             CallsTo(after.log[|st.log|..], after.named[n]))
  {
    CreateCalls(c, st, name);
  }

  /** In particular every reference that is configured for a new instance and takes effect is injected. */
  lemma ReferencesAreInjected(c: Config, st: Injector, name: string, n: string, k: nat, r: string) returns (t: string)
    requires Create(c, st, name, false).0.Created?
    requires NewName(st.named, Create(c, st, name, false).1.named, n) && Refers(c, n, k, r)
    ensures Given(c, st, Create(c, st, name, false).1, n, k, r, t)
  {
    var after := Create(c, st, name, false).1;
    var w, s, log := after.named[n], c.instances[n].setters[k], after.log[|st.log|..];
    CreateCalls(c, st, name);
    EffectiveHas(c.instances[n].setters, 0, k);
    var setters := Effective(c.instances[n].setters, 0);
    var i :| 0 <= i < |setters| && setters[i] == s;
    var e := CallsTo(log, w)[i];
    assert CallFor(c, after.named, w, s, e);
    t :| t in after.named && Candidate(c, r, t) && e.value == RefTo(after.named[t]);
    CallIsInLog(log, w, e);
  }

  // ----- the order of the done hooks

  predicate DoneFirst(log: seq<Event>, v: Wrapper, w: Wrapper) {
    exists i, j | 0 <= i < j < |log| :: log[i] == Done(v) && log[j] == Done(w)
  }

  /** The done hook of every new instance runs after the done hooks of all it refers to. */
  ghost predicate HooksInOrder(c: Config, st: Injector, after: Injector) {
    forall n, k: nat, r | NewName(st.named, after.named, n) && Refers(c, n, k, r) ::
      exists t :: Given(c, st, after, n, k, r, t) && DoneFirst(after.log, after.named[t], after.named[n])
  }

  /** Unless it is known, no name reached from what the given one stands for, through names that are not known, is
      on a cycle of such names. */
  ghost predicate NoCycle(c: Config, known: set<string>, name: string, also: set<string> := {}) {
    name !in known ==>
      forall n | Reaches(c, known, Target(c, name), n, also) :: !NextReaches(c, known, n, n, also)
  }

  /** A name that the call has newly registered and that an instance refers to is no alias of another, or is one of
      the given ones. */
  ghost predicate Covers(c: Config, st: Injector, after: Injector, also: set<string>) {
    forall n, k: nat, r | Refers(c, n, k, r) && NewName(st.named, after.named, r) :: Clear(c, r) || r in also
  }

  /** Done before the injection of the reference, and so before the done of what the reference is injected into. */
  lemma InjectedThenDone(st: Injector, after: Injector, w: Wrapper, v: Wrapper, property: string)
    requires st.log <= after.log && InjectedDone(after.log, |st.log|)
    requires OnceEach(after.log, |st.log|, st.wrappers, after.wrappers, {})
    requires Injected(w, property, RefTo(v)) in after.log[|st.log|..]
    ensures DoneFirst(after.log, v, w)
  {
    var i := InTail(after.log, |st.log|, Injected(w, property, RefTo(v)));
    var h := DoneEarlier(after.log, |st.log|, i);
    var j := DoneLater(after.log, |st.log|, st.wrappers, after.wrappers, i);
    assert after.log[h] == Done(v) && after.log[j] == Done(w);
  }

  lemma InTail(log: seq<Event>, from: nat, e: Event) returns (i: nat)
    requires from <= |log| && e in log[from..]
    ensures from <= i < |log| && log[i] == e
  {
    var g :| 0 <= g < |log| - from && log[from..][g] == e;
    i := from + g;
  }

  lemma DoneEarlier(log: seq<Event>, from: nat, i: nat) returns (h: nat)
    requires from <= i < |log| && InjectedDone(log, from) && IsRef(log[i])
    ensures h < i && log[h] == Done(log[i].value.wrapper)
  {
    assert DoneBefore(log, i, log[i].value.wrapper);
    h :| 0 <= h < i && log[..i][h] == Done(log[i].value.wrapper);
  }

  lemma DoneLater(log: seq<Event>, from: nat, lo: nat, hi: nat, i: nat) returns (j: nat)
    requires from <= i < |log| && OnceEach(log, from, lo, hi, {}) && log[i].Injected?
    ensures i < j < |log| && log[j] == Done(log[i].target)
  {
    assert Finishes(log, from, log[i].target);
    j :| from <= j < |log| && log[j] == Done(log[i].target);
  }

  /** How many of the names can be reached from one. */
  ghost function Height(c: Config, known: set<string>, names: set<string>, n: string, also: set<string>): nat {
    |set m | m in names && Reaches(c, known, n, m, also)|
  }

  lemma HeightFalls(c: Config, known: set<string>, names: set<string>, n: string, t: string, also: set<string>)
    requires Edge(c, n, t, also) && n in c.instances && n !in known && t !in known && n in names
    requires !NextReaches(c, known, n, n, also)
    ensures Height(c, known, names, t, also) < Height(c, known, names, n, also)
  {
    var above := set m | m in names && Reaches(c, known, n, m, also);
    var below := set m | m in names && Reaches(c, known, t, m, also);
    assert Path(c, known, [n], also);
    assert n in above && n !in below;
    forall m | m in below
      ensures m in above
    {
      ReachesFurther(c, known, known, n, t, m, also);
    }
    SubsetSize(below, above);
  }

  /** The height of a new object's name; all others rank below. */
  ghost function Rank(c: Config, st: Injector, after: Injector, also: set<string>, w: Wrapper): nat {
    var n := NameOf(after.named, w);
    if NewName(st.named, after.named, n) then 1 + Height(c, st.named.Keys, after.named.Keys, n, also) else 0
  }

  lemma PointsIsEdge(c: Config, st: Injector, after: Injector, n: string, t: string, also: set<string>)
    requires Covers(c, st, after, also) && Points(c, n, t) && NewName(st.named, after.named, t) && t in c.instances
    ensures Edge(c, n, t, also)
  {
    var k: nat, r :| Refers(c, n, k, r) && Candidate(c, r, t);
    assert Means(c, r, t, also);
  }

  lemma RankFalls(c: Config, st: Injector, name: string, also: set<string>, w: Wrapper, v: Wrapper)
    requires Ready(c, st) && Create(c, st, name, false).0.Created? && NoCycle(c, st.named.Keys, name, also)
    requires var after := Create(c, st, name, false).1;
      Covers(c, st, after, also) && st.wrappers <= w && Along(c, after.named, w, v)
    ensures var after := Create(c, st, name, false).1; Rank(c, st, after, also, v) < Rank(c, st, after, also, w)
  {
    var after := Create(c, st, name, false).1;
    CreateKeepsReady(c, st, name);
    var n, t :| n in after.named && t in after.named && after.named[n] == w && after.named[t] == v && Points(c, n, t);
    NameOfNamed(c, after, n);
    NameOfNamed(c, after, t);
    assert NewName(st.named, after.named, n);
    if t !in st.named {
      CreateReaches(c, st, name, n);
      ReachesAlso(c, st.named.Keys, Target(c, name), n, also);
      PointsIsEdge(c, st, after, n, t, also);
      HeightFalls(c, st.named.Keys, after.named.Keys, n, t, also);
    }
  }

  lemma OrderedWithout(c: Config, st: Injector, name: string, also: set<string>)
    requires Ready(c, st) && Create(c, st, name, false).0.Created? && NoCycle(c, st.named.Keys, name, also)
    requires Covers(c, st, Create(c, st, name, false).1, also)
    ensures InjectedDone(Create(c, st, name, false).1.log, |st.log|)
    ensures HooksInOrder(c, st, Create(c, st, name, false).1)
  {
    var after := Create(c, st, name, false).1;
    CreateBacked(c, st, name);
    CreateFinishes(c, st, name);
    var rank: Wrapper -> nat := w => Rank(c, st, after, also, w);
    forall i | |st.log| <= i < |after.log| && IsRef(after.log[i])
      ensures rank(after.log[i].value.wrapper) < rank(after.log[i].target)
    {
      RankFalls(c, st, name, also, after.log[i].target, after.log[i].value.wrapper);
    }
    CreateOrders(c, st, name, {}, rank);
    forall n, k: nat, r | NewName(st.named, after.named, n) && Refers(c, n, k, r)
      ensures exists t :: Given(c, st, after, n, k, r, t) && DoneFirst(after.log, after.named[t], after.named[n])
    {
      var t := ReferencesAreInjected(c, st, name, n, k, r);
      InjectedThenDone(st, after, after.named[n], after.named[t], c.instances[n].setters[k].name.value);
    }
  }

  /** On any configuration: when the references make no cycle among the names that the call may come to, every
      reference is injected after its object is done, and the done hook of every new instance runs after those of
      all it refers to. A reference may come to what create() makes of it, and to its own name when that is an
      alias that another alias refers to. */
  lemma AcyclicDoneOrder(c: Config, st: Injector, name: string)
    requires Ready(c, st) && Create(c, st, name, false).0.Created? && NoCycle(c, st.named.Keys, name, Chained(c))
    ensures InjectedDone(Create(c, st, name, false).1.log, |st.log|)
    ensures HooksInOrder(c, st, Create(c, st, name, false).1)
  {
    CreateNames(c, st, name);
    OrderedWithout(c, st, name, Chained(c));
  }

  // ----- the converse

  ghost predicate EachDoneOnce(st: Injector, after: Injector) {
    forall n | NewName(st.named, after.named, n) :: DoneOnce(after.log, |st.log|, after.named[n])
  }

  /** What the references of new instances stand for is registered, and first done before them. */
  ghost predicate Orderly(c: Config, st: Injector, after: Injector) {
    forall n, k: nat, r | NewName(st.named, after.named, n) && Refers(c, n, k, r) ::
      FirstBefore(after, Target(c, r), n)
  }

  predicate FirstBefore(after: Injector, t: string, n: string) {
    && t in after.named && n in after.named
    && First(after.log, after.named[t]) < First(after.log, after.named[n])
  }

  lemma HooksAreOrderly(c: Config, st: Injector, after: Injector)
    requires ReferencesClear(c, after.named.Keys) && EachDoneOnce(st, after) && HooksInOrder(c, st, after)
    ensures Orderly(c, st, after)
  {
    forall n, k: nat, r | NewName(st.named, after.named, n) && Refers(c, n, k, r)
      ensures FirstBefore(after, Target(c, r), n)
    {
      ReferenceIsOrdered(c, st, after, n, k, r);
    }
  }

  lemma EdgeIsOrdered(c: Config, st: Injector, after: Injector, n: string, m: string)
    requires Orderly(c, st, after) && NewName(st.named, after.named, n) && Edge(c, n, m)
    ensures FirstBefore(after, m, n)
  {
    var k: nat, r :| Refers(c, n, k, r) && Means(c, r, m, {});
    assert FirstBefore(after, Target(c, r), n);
  }

  lemma ReferenceIsOrdered(c: Config, st: Injector, after: Injector, n: string, k: nat, r: string)
    requires NewName(st.named, after.named, n) && Refers(c, n, k, r) && (r in after.named ==> Clear(c, r))
    requires HooksInOrder(c, st, after) && DoneOnce(after.log, |st.log|, after.named[n])
    ensures FirstBefore(after, Target(c, r), n)
  {
    var t :| Given(c, st, after, n, k, r, t) && DoneFirst(after.log, after.named[t], after.named[n]);
    OneCandidate(c, after, r, t);
    FirstFalls(after.log, |st.log|, after.named[t], after.named[n]);
  }

  lemma OneCandidate(c: Config, after: Injector, r: string, t: string)
    requires t in after.named && Candidate(c, r, t) && (r in after.named ==> Clear(c, r))
    ensures t == Target(c, r)
  {
  }

  lemma FirstFalls(log: seq<Event>, from: nat, v: Wrapper, w: Wrapper)
    requires DoneFirst(log, v, w) && DoneOnce(log, from, w)
    ensures First(log, v) < First(log, w)
  {
    var i, j :| 0 <= i < j < |log| && log[i] == Done(v) && log[j] == Done(w);
    assert First(log, v) <= i && First(log, w) <= j < |log|;
    assert First(log, w) == j;
  }

  lemma {:induction false} PathIsOrdered(c: Config, st: Injector, after: Injector, p: seq<string>, i: nat)
    requires Orderly(c, st, after) && Path(c, st.named.Keys, p) && i < |p| && p[0] in after.named
    ensures p[i] in after.named && First(after.log, after.named[p[i]]) <= First(after.log, after.named[p[0]])
  {
    if i > 0 {
      PathIsOrdered(c, st, after, p, i - 1);
      assert Edge(c, p[i - 1], p[i]);
      EdgeIsOrdered(c, st, after, p[i - 1], p[i]);
    }
  }

  lemma ReachedFromTarget(c: Config, st: Injector, name: string, n: string)
    requires Create(c, st, name, false).0.Created?
    requires ReferencesClear(c, Create(c, st, name, false).1.named.Keys)
    requires name !in st.named && Reaches(c, st.named.Keys, Target(c, name), n)
    ensures NewName(st.named, Create(c, st, name, false).1.named, n)
  {
    var target, after := Target(c, name), Create(c, st, name, false).1;
    var p :| Path(c, st.named.Keys, p) && p[0] == target && p[|p| - 1] == n;
    NoAliasWrapper(c, st, target);
    CreateCloses(c, st, name);
    ReachedIsRegistered(c, st.named, after.named, p, |p| - 1);
  }

  /** The order of the done hooks holds exactly where it can: after a successful create(), the done hook of every
      new instance has run after those of all it refers to if and only if no name among those reached from the
      requested one, through names not registered before, is on a cycle of references. Registered names that
      instances refer to must not be aliases of others; ReferencesStayClear says when that is so. */
  lemma DoneOrderIff(c: Config, st: Injector, name: string)
    requires Ready(c, st) && Create(c, st, name, false).0.Created?
    requires ReferencesClear(c, Create(c, st, name, false).1.named.Keys)
    ensures HooksInOrder(c, st, Create(c, st, name, false).1) <==> NoCycle(c, st.named.Keys, name)
  {
    var after := Create(c, st, name, false).1;
    if NoCycle(c, st.named.Keys, name) {
      OrderedWithout(c, st, name, {});
    }
    if HooksInOrder(c, st, after) {
      DoneExactlyOnce(c, st, name);
      HooksAreOrderly(c, st, after);
      forall n | name !in st.named && Reaches(c, st.named.Keys, Target(c, name), n)
        ensures !NextReaches(c, st.named.Keys, n, n)
      {
        if NextReaches(c, st.named.Keys, n, n) {
          ReachedFromTarget(c, st, name, n);
          var m :| Edge(c, n, m) && Reaches(c, st.named.Keys, m, n);
          var p :| Path(c, st.named.Keys, p) && p[0] == m && p[|p| - 1] == n;
          EdgeIsOrdered(c, st, after, n, m);
          PathIsOrdered(c, st, after, p, |p| - 1);
        }
      }
    }
  }
}
