/** The injector over whole runs: early creation, and then any calls of create(), failing ones included. */
module InjectionRuns {
  import opened Injection
  import opened InjectionProofs
  import opened InjectionOrder

  // ----- early creation

  lemma {:induction false} EarlyKeepsReady(c: Config, st: Injector, early: seq<string>)
    requires Ready(c, st) && EarlyFrom(c, st, early).0.None?
    ensures Ready(c, EarlyFrom(c, st, early).1)
    decreases |early|
  {
    if early != [] {
      NoAliasKeepsReady(c, st, early[0]);
      EarlyKeepsReady(c, CreateNoAlias(c, st, early[0], false).1, early[1..]);
    }
  }

  lemma {:induction false} EarlyRegisters(c: Config, st: Injector, early: seq<string>)
    requires EarlyFrom(c, st, early).0.None?
    ensures st.named.Keys + (set name | name in early) <= EarlyFrom(c, st, early).1.named.Keys
    decreases |early|
  {
    if early != [] {
      var name, after := early[0], CreateNoAlias(c, st, early[0], false).1;
      assert name in Register(st, name, false).named && name in after.named;
      EarlyRegisters(c, after, early[1..]);
      assert forall n | n in early :: n == name || n in early[1..];
    }
  }

  /** When the early creation with which the constructor ends succeeds, the early instances are registered and
      everything registered is done: the state that the results about create() start from. */
  lemma StartsReady(c: Config, early: seq<string>)
    requires EarlyFrom(c, NEW, early).0.None?
    ensures Ready(c, EarlyFrom(c, NEW, early).1)
    ensures forall name | name in early :: name in EarlyFrom(c, NEW, early).1.named
  {
    EarlyKeepsReady(c, NEW, early);
    EarlyRegisters(c, NEW, early);
  }

  /** Early creation does not look a name up first: an instance that a reference has created already gets a
      second wrapper, and the name keeps the first. */
  lemma EarlyDuplicatesIff(c: Config, st: Injector, name: string)
    requires Sound(c, st) && CreateNoAlias(c, st, name, false).0.Created?
    ensures var (made, after) := CreateNoAlias(c, st, name, false);
      && name in after.named
      && (after.named[name] == made.wrapper <==> name !in st.named)
      && made.wrapper in after.free
  {
    FromReturns(c, Register(st, name, false), name, st.wrappers, 0);
    assert Register(st, name, false).free[|st.free|] == st.wrappers;
  }

  // ----- second objects over a whole list of early instances

  lemma {:induction false} EarlyThen(c: Config, st: Injector, early: seq<string>, i: nat)
    requires i <= |early| && EarlyFrom(c, st, early).0.None?
    ensures EarlyFrom(c, st, early[..i]).0.None?
    ensures EarlyFrom(c, st, early) == EarlyFrom(c, EarlyFrom(c, st, early[..i]).1, early[i..])
    decreases |early|
  {
    if i == 0 {
      assert early[..0] == [] && early[0..] == early;
    } else {
      var after := CreateNoAlias(c, st, early[0], false).1;
      EarlyThen(c, after, early[1..], i - 1);
      assert early[..i][1..] == early[1..][..i - 1] && early[1..][i - 1..] == early[i..];
    }
  }

  function Names(early: seq<string>): set<string> { set e | e in early }

  /** Some of the early instances reaches the name by references, or is it. */
  ghost predicate EarlyReaches(c: Config, early: set<string>, name: string) {
    exists e | e in early :: Reaches(c, {}, e, name)
  }

  /** From references that are all registered, creating one more instance registers what it reaches. */
  lemma NoAliasRegistersReached(c: Config, st: Injector, name: string)
    requires Ready(c, st) && Closed(c, map[], st.named) && CreateNoAlias(c, st, name, false).0.Created?
    requires ReferencesClear(c, CreateNoAlias(c, st, name, false).1.named.Keys)
    ensures var after := CreateNoAlias(c, st, name, false).1;
      && Ready(c, after) && Closed(c, map[], after.named)
      && forall n :: n in after.named <==> n in st.named || Reaches(c, {}, name, n)
  {
    var registered := Register(st, name, false);
    var after := CreateNoAlias(c, st, name, false).1;
    NoAliasKeepsReady(c, st, name);
    FromCloses(c, registered, name, st.wrappers, 0);
    ClosedByAll(c, st.named, registered.named, after.named, name);
    forall n
      ensures n in after.named <==> n in st.named || Reaches(c, {}, name, n)
    {
      if NewName(st.named, after.named, n) {
        NewIsReached(c, st, name, n);
      }
      if Reaches(c, {}, name, n) {
        var p :| Path(c, {}, p) && p[0] == name && p[|p| - 1] == n;
        ReachedIsRegistered(c, map[], after.named, p, |p| - 1);
      }
    }
  }

  lemma ClosedByAll(c: Config, m0: map<string, Wrapper>, m1: map<string, Wrapper>, m2: map<string, Wrapper>,
                    name: string)
    requires m0.Keys <= m1.Keys <= m2.Keys && m1.Keys <= m0.Keys + {name}
    requires Closed(c, map[], m0) && Closed(c, m1, m2) && Met(c, m2, name, 0)
    ensures Closed(c, map[], m2)
  {
    forall n | NewName(map[], m2, n)
      ensures Met(c, m2, n, 0)
    {
      if n in m0 {
        assert NewName(map[], m0, n);
        MetLater(c, m0, m2, n, 0);
      } else if n != name {
        assert NewName(m1, m2, n);
      }
    }
  }

  lemma NewIsReached(c: Config, st: Injector, name: string, n: string)
    requires CreateNoAlias(c, st, name, false).0.Created?
    requires NewName(st.named, CreateNoAlias(c, st, name, false).1.named, n)
    ensures Reaches(c, {}, name, n)
  {
    if n == name {
      assert Path(c, {}, [name]);
    } else {
      var registered := Register(st, name, false);
      FromReaches(c, registered, name, st.wrappers, 0, n);
      NextReachesAvoidingLess(c, {}, registered.named.Keys, name, n);
      var m :| Edge(c, name, m) && Reaches(c, {}, m, n);
      ReachesFurther(c, {}, {}, name, m, n);
    }
  }

  /** Registered are exactly the early instances and what they reach, all done. */
  ghost predicate EarlyDone(c: Config, early: set<string>, st: Injector) {
    && Ready(c, st) && Closed(c, map[], st.named)
    && forall n :: n in st.named <==> EarlyReaches(c, early, n)
  }

  lemma EarlyOneMore(c: Config, early: set<string>, st: Injector, name: string)
    requires EarlyDone(c, early, st) && CreateNoAlias(c, st, name, false).0.Created?
    requires ReferencesClear(c, CreateNoAlias(c, st, name, false).1.named.Keys)
    ensures EarlyDone(c, early + {name}, CreateNoAlias(c, st, name, false).1)
  {
    NoAliasRegistersReached(c, st, name);
    forall n
      ensures EarlyReaches(c, early + {name}, n) <==> EarlyReaches(c, early, n) || Reaches(c, {}, name, n)
    {
      assert name in early + {name};
    }
  }

  lemma {:induction false} EarlyKeepsDone(c: Config, roots: set<string>, st: Injector, early: seq<string>)
    requires EarlyDone(c, roots, st) && EarlyFrom(c, st, early).0.None?
    requires ReferencesClear(c, EarlyFrom(c, st, early).1.named.Keys)
    ensures EarlyDone(c, roots + Names(early), EarlyFrom(c, st, early).1)
    decreases |early|
  {
    if early == [] {
      assert roots + Names(early) == roots;
    } else {
      EarlyKeeps(c, CreateNoAlias(c, st, early[0], false).1, early[1..]);
      EarlyOneMore(c, roots, st, early[0]);
      EarlyKeepsDone(c, roots + {early[0]}, CreateNoAlias(c, st, early[0], false).1, early[1..]);
      NamesMove(roots, early);
    }
  }

  lemma NamesMove(roots: set<string>, early: seq<string>)
    requires early != []
    ensures roots + Names(early) == roots + {early[0]} + Names(early[1..])
  {
    assert forall e :: e in early <==> e == early[0] || e in early[1..];
  }

  /** Early creation registers exactly the early instances and what they reach. */
  lemma EarlyRegistersReached(c: Config, early: seq<string>)
    requires EarlyFrom(c, NEW, early).0.None? && ReferencesClear(c, EarlyFrom(c, NEW, early).1.named.Keys)
    ensures EarlyDone(c, Names(early), EarlyFrom(c, NEW, early).1)
  {
    assert EarlyDone(c, {}, NEW);
    EarlyKeepsDone(c, {}, NEW, early);
    assert {} + Names(early) == Names(early);
  }

  /** Over a whole list of early instances: the object made for one of them is a second one, which its name does
      not keep, if and only if an earlier one reaches it by references (or is the same). */
  lemma EarlySecondObjectIff(c: Config, early: seq<string>, i: nat)
    requires EarlyFrom(c, NEW, early).0.None? && i < |early|
    requires ReferencesClear(c, EarlyFrom(c, NEW, early).1.named.Keys)
    ensures var st := EarlyFrom(c, NEW, early[..i]).1;
      var made := CreateNoAlias(c, st, early[i], false).0;
      var last := EarlyFrom(c, NEW, early).1;
      && made.Created? && made.wrapper in last.free
      && early[i] in last.named
      && (last.named[early[i]] != made.wrapper <==> EarlyReaches(c, Names(early[..i]), early[i]))
  {
    var st := EarlyFrom(c, NEW, early[..i]).1;
    EarlyThen(c, NEW, early, i);
    EarlyKeeps(c, st, early[i..]);
    EarlyRegistersReached(c, early[..i]);
    var (made, after) := CreateNoAlias(c, st, early[i], false);
    assert early[i..][0] == early[i] && early[i..][1..] == early[i + 1..];
    EarlyDuplicatesIff(c, st, early[i]);
    EarlyKeeps(c, after, early[i + 1..]);
  }

  lemma {:induction false} EarlyKeeps(c: Config, st: Injector, early: seq<string>)
    ensures Grows(st, EarlyFrom(c, st, early).1)
    decreases |early|
  {
    if early != [] {
      var after := CreateNoAlias(c, st, early[0], false).1;
      EarlyKeeps(c, after, early[1..]);
      assert forall n | n in st.named :: n in after.named;
    }
  }

  // ----- names that stand for themselves

  ghost predicate AllClear(c: Config, names: set<string>) { forall n | n in names :: Clear(c, n) }

  /** Before a call, or before early creation: the names that instances refer to are no aliases of others if they
      are among the given ones or can be registered. */
  ghost predicate StaysClear(c: Config, names: set<string>) {
    forall n, k: nat, r | Refers(c, n, k, r) && (r in names || Registrable(c, r)) :: Clear(c, r)
  }

  /** This is so without chains of aliases, when the given names are clear; and when no instance at all refers to
      an instance that is an alias of another. */
  lemma StaysClearWhen(c: Config, names: set<string>)
    requires (NoChain(c) && AllClear(c, names)) || (names <= c.instances.Keys && ReferencesClear(c, c.instances.Keys))
    ensures StaysClear(c, names)
  {
  }

  /** It is enough for the results about one call. */
  lemma ReferencesStayClear(c: Config, st: Injector, name: string, disown: bool)
    requires StaysClear(c, st.named.Keys)
    ensures ReferencesClear(c, Create(c, st, name, disown).1.named.Keys)
  {
    var after := Create(c, st, name, disown).1;
    CreateRegistrable(c, st, name, disown);
    forall n, k: nat, r | Refers(c, n, k, r) && r in after.named
      ensures Clear(c, r)
    {
      assert r !in st.named ==> NewName(st.named, after.named, r);
    }
  }

  /** And for those about early creation. */
  lemma EarlyReferencesClear(c: Config, early: seq<string>)
    requires StaysClear(c, Names(early))
    ensures ReferencesClear(c, EarlyFrom(c, NEW, early).1.named.Keys)
  {
    EarlyNames(c, NEW, early);
  }

  lemma {:induction false} EarlyNames(c: Config, st: Injector, early: seq<string>)
    ensures forall n | n in EarlyFrom(c, st, early).1.named :: n in st.named || n in early || Registrable(c, n)
    decreases |early|
  {
    if early != [] {
      var after := CreateNoAlias(c, st, early[0], false).1;
      OneEarlyName(c, st, early[0]);
      EarlyNames(c, after, early[1..]);
      assert forall n | n in early[1..] :: n in early;
    }
  }

  lemma OneEarlyName(c: Config, st: Injector, name: string)
    ensures forall n | n in CreateNoAlias(c, st, name, false).1.named :: n in st.named || n == name || Registrable(c, n)
  {
    if Constructs(c, name) {
      var registered := Register(st, name, false);
      var after := CreateNoAlias(c, st, name, false).1.named;
      FromNames(c, registered, name, st.wrappers, 0);
      assert forall n | n in after :: n in registered.named || NewName(registered.named, after, n);
    }
  }

  // ----- runs

  datatype Call = Call(name: string, disown: bool)

  /** The injector after some calls of create(), whatever came of each. */
  function After(c: Config, st: Injector, calls: seq<Call>): Injector
    decreases |calls|
  {
    if calls == [] then st
    else
      var last := calls[|calls| - 1];
      Create(c, After(c, st, calls[..|calls| - 1]), last.name, last.disown).1
  }

  /** What a call with disown does: nothing, or the injection of a new object. */
  lemma Disowned(c: Config, st: Injector, name: string)
    ensures var (target, after) := (Target(c, name), Create(c, st, name, true).1);
      after == st ||
      (Constructs(c, target) && after == InjectFrom(c, Register(st, target, true), target, st.wrappers, 0).1)
  {
  }

  lemma CreateKeepsSound(c: Config, st: Injector, name: string, disown: bool)
    requires Sound(c, st)
    ensures Sound(c, Create(c, st, name, disown).1)
  {
    var after := Create(c, st, name, disown).1;
    if !disown {
      CreateAllocates(c, st, name);
      AllocatedKeepsSound(c, st, after);
    } else {
      Disowned(c, st, name);
      if after != st {
        var registered := Register(st, Target(c, name), true);
        FromAllocates(c, registered, Target(c, name), st.wrappers, 0);
        AllocatedKeepsSound(c, registered, after);
      }
    }
  }

  lemma CreateRegistrable(c: Config, st: Injector, name: string, disown: bool)
    ensures NewRegistrable(c, st.named, Create(c, st, name, disown).1.named)
  {
    if !disown {
      CreateNames(c, st, name);
    } else {
      Disowned(c, st, name);
      if Create(c, st, name, true).1 != st {
        FromNames(c, Register(st, Target(c, name), true), Target(c, name), st.wrappers, 0);
      }
    }
  }

  lemma CreateKeepsClear(c: Config, st: Injector, name: string, disown: bool)
    requires NoChain(c) && AllClear(c, st.named.Keys)
    ensures AllClear(c, Create(c, st, name, disown).1.named.Keys)
  {
    var after := Create(c, st, name, disown).1;
    CreateRegistrable(c, st, name, disown);
    forall n | n in after.named
      ensures Clear(c, n)
    {
      assert n !in st.named ==> NewName(st.named, after.named, n);
    }
  }

  lemma {:induction false} RunKeepsSound(c: Config, st: Injector, calls: seq<Call>)
    requires Sound(c, st)
    ensures Sound(c, After(c, st, calls))
    decreases |calls|
  {
    if calls != [] {
      var front, last := calls[..|calls| - 1], calls[|calls| - 1];
      RunKeepsSound(c, st, front);
      CreateKeepsSound(c, After(c, st, front), last.name, last.disown);
    }
  }

  lemma {:induction false} RunKeepsClear(c: Config, st: Injector, calls: seq<Call>)
    requires NoChain(c) && AllClear(c, st.named.Keys)
    ensures AllClear(c, After(c, st, calls).named.Keys)
    decreases |calls|
  {
    if calls != [] {
      var front, last := calls[..|calls| - 1], calls[|calls| - 1];
      RunKeepsClear(c, st, front);
      CreateKeepsClear(c, After(c, st, front), last.name, last.disown);
    }
  }

  /** In every run from the state, every successful create() registers exactly what is configured. */
  ghost predicate AlwaysExact(c: Config, st: Injector) {
    forall calls: seq<Call>, name | Create(c, After(c, st, calls), name, false).0.Created? ::
      RegistersExactly(c, After(c, st, calls), name)
  }

  /** The same with disown. */
  ghost predicate AlwaysDisownsExactly(c: Config, st: Injector) {
    forall calls: seq<Call>, name | Create(c, After(c, st, calls), name, true).0.Created? ::
      DisownsExactly(c, After(c, st, calls), name)
  }

  lemma ClearIsExact(c: Config, st: Injector)
    requires NoChain(c) && AllClear(c, st.named.Keys)
    ensures AlwaysExact(c, st) && AlwaysDisownsExactly(c, st)
  {
    forall calls: seq<Call>, name | Create(c, After(c, st, calls), name, false).0.Created?
      ensures RegistersExactly(c, After(c, st, calls), name)
    {
      RunKeepsClear(c, st, calls);
      CreateKeepsClear(c, After(c, st, calls), name, false);
      CreateRegistersReachable(c, After(c, st, calls), name);
    }
    forall calls: seq<Call>, name | Create(c, After(c, st, calls), name, true).0.Created?
      ensures DisownsExactly(c, After(c, st, calls), name)
    {
      RunKeepsClear(c, st, calls);
      CreateKeepsClear(c, After(c, st, calls), name, true);
      DisownedRegistersReachable(c, After(c, st, calls), name);
    }
  }

  /** A registered name that is an alias of another is found, where what it stands for is something else. */
  lemma UnclearIsFound(c: Config, st: Injector, n: string)
    requires Sound(c, st) && n in st.named && !Clear(c, n)
    ensures Create(c, st, n, false).0.Created? && !RegistersExactly(c, st, n)
    ensures Create(c, st, n, true).0.Created? && !DisownsExactly(c, st, n)
  {
    assert Create(c, st, n, false) == Create(c, st, n, true) == (Created(st.named[n]), st);
    assert Target(c, n) != n;
  }

  lemma NoAliasRegisters(c: Config, st: Injector, name: string)
    requires Constructs(c, name)
    ensures name in CreateNoAlias(c, st, name, false).1.named
  {
    assert name in Register(st, name, false).named;
  }

  /** Where a chain of aliases leads: some run registers a name that is an alias of another. */
  lemma ChainRegisters(c: Config, st: Injector, z: string, r: string) returns (calls: seq<Call>, n: string)
    requires Constructs(c, r) && r != "" && !Clear(c, r) && z != r && AliasOf(c, z) == r
    ensures n in After(c, st, calls).named && !Clear(c, n)
  {
    if z in st.named {
      calls, n := [], z;
    } else if r in st.named {
      calls, n := [], r;
    } else {
      calls, n := [Call(z, false)], r;
      NoAliasRegisters(c, st, r);
      assert calls[..0] == [] && After(c, st, []) == st;
      assert After(c, st, calls) == Create(c, st, z, false).1 == CreateNoAlias(c, st, r, false).1;
    }
  }

  lemma NotExact(c: Config, st: Injector, calls: seq<Call>, n: string)
    requires Sound(c, st) && n in After(c, st, calls).named && !Clear(c, n)
    ensures !AlwaysExact(c, st) && !AlwaysDisownsExactly(c, st)
  {
    RunKeepsSound(c, st, calls);
    UnclearIsFound(c, After(c, st, calls), n);
  }

  lemma EarlyClear(c: Config, early: seq<string>)
    requires NoChain(c) && forall e | e in early :: Clear(c, e)
    ensures AllClear(c, EarlyFrom(c, NEW, early).1.named.Keys)
  {
    EarlyNames(c, NEW, early);
  }

  /** In every run of an injector that has been constructed, every successful create(), and every one with disown,
      registers exactly what is configured if and only if no alias refers to an instance of a known class that is
      itself an alias of another, and no early instance is an alias of another. */
  lemma AlwaysExactIff(c: Config, early: seq<string>)
    requires EarlyFrom(c, NEW, early).0.None?
    ensures var start := EarlyFrom(c, NEW, early).1;
      && (AlwaysExact(c, start) <==> NoChain(c) && AllClear(c, Names(early)))
      && (AlwaysDisownsExactly(c, start) <==> NoChain(c) && AllClear(c, Names(early)))
  {
    var start := EarlyFrom(c, NEW, early).1;
    StartsReady(c, early);
    if NoChain(c) && AllClear(c, Names(early)) {
      EarlyClear(c, early);
      ClearIsExact(c, start);
    } else if e :| e in early && !Clear(c, e) {
      assert After(c, start, []) == start;
      NotExact(c, start, [], e);
    } else {
      var r :| Constructs(c, r) && IsAliased(c, r) && !Clear(c, r);
      var z :| z != r && AliasOf(c, z) == r;
      var calls, n := ChainRegisters(c, start, z, r);
      NotExact(c, start, calls, n);
    }
  }
}
