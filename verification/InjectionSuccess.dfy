/** When create() succeeds. */
module InjectionSuccess {
  import opened Injection
  import opened InjectionProofs
  import opened InjectionRuns

  /** The instance can be made and set up, as far as it itself is concerned: it has a known class, its done hook and
      the calls of its setters do not throw. */
  predicate Able(c: Config, n: string) {
    && Constructs(c, n) && n !in c.hookFails
    && forall k | 0 <= k < |c.instances[n].setters| && TakesEffect(c.instances[n].setters[k]) :: (n, k) !in c.refuses
  }

  /** The name is known, or is no alias of itself and stands for something known or configured. */
  predicate Answerable(c: Config, known: set<string>, r: string) {
    r in known || (AliasOf(c, r) != r && (Target(c, r) in known || Target(c, r) in c.instances))
  }

  ghost predicate Sane(c: Config, known: set<string>, n: string) {
    Able(c, n) && forall k: nat, r | Refers(c, n, k, r) :: Answerable(c, known, r)
  }

  ghost predicate AllSane(c: Config, known: set<string>, n: string) {
    forall m | Reaches(c, known, n, m) :: Sane(c, known, m)
  }

  /** What must hold of a configuration for create() to succeed while just the given names are registered. */
  ghost predicate Feasible(c: Config, known: set<string>, name: string) {
    Answerable(c, known, name) && (name !in known && Target(c, name) !in known ==> AllSane(c, known, Target(c, name)))
  }

  // ----- it is enough

  lemma FeasibleReference(c: Config, known: set<string>, n: string, k: nat, r: string)
    requires n in c.instances && n !in known && AllSane(c, known, n) && Refers(c, n, k, r)
    ensures Feasible(c, known, r)
  {
    assert Path(c, known, [n]);
    assert Reaches(c, known, n, n) && Sane(c, known, n);
    var t := Target(c, r);
    if r !in known && t !in known {
      assert Means(c, r, t, {});
      assert Edge(c, n, t);
      forall m | Reaches(c, known, t, m)
        ensures Sane(c, known, m)
      {
        ReachesFurther(c, known, known, n, t, m);
      }
    }
  }

  lemma {:induction false} CreateWorks(c: Config, st: Injector, name: string, known: set<string>)
    requires known <= st.named.Keys && Feasible(c, known, name)
    ensures Create(c, st, name, false).0.Created?
    decreases 0, |Missing(c, st)|, 1
  {
    if name !in st.named && Target(c, name) !in st.named { NoAliasWorks(c, st, Target(c, name), known); }
  }

  lemma {:induction false} NoAliasWorks(c: Config, st: Injector, name: string, known: set<string>)
    requires known <= st.named.Keys && name !in st.named && name in c.instances && AllSane(c, known, name)
    ensures CreateNoAlias(c, st, name, false).0.Created?
    decreases 0, |Missing(c, st)|, 0
  {
    var registered := Register(st, name, false);
    assert name in Missing(c, st) && name in registered.named;
    MissingShrinks(c, st, registered);
    assert Path(c, known, [name]);
    assert Reaches(c, known, name, name) && Sane(c, known, name);
    if InjectFrom(c, registered, name, st.wrappers, 0).0.Throws? {
      var k, at := FromFails(c, registered, name, st.wrappers, 0);
      SetterWorks(c, at, name, st.wrappers, k, known);
    }
  }

  lemma {:induction false} SetterWorks(c: Config, st: Injector, name: string, w: Wrapper, k: nat, known: set<string>)
    requires name in c.instances && k < |c.instances[name].setters|
    requires known <= st.named.Keys && name !in known && Able(c, name) && AllSane(c, known, name)
    ensures InjectSetter(c, st, name, w, k).0.None?
    decreases 0, |Missing(c, st)|, 2
  {
    var s := c.instances[name].setters[k];
    if Enabled(s) && s.ref.Some? {
      assert Refers(c, name, k, s.ref.value);
      FeasibleReference(c, known, name, k, s.ref.value);
      CreateWorks(c, st, s.ref.value, known);
    }
  }

  /** When setting an object up fails although its done hook does not, one of its setters does. */
  lemma {:induction false} FromFails(c: Config, st: Injector, name: string, w: Wrapper, k: nat)
    returns (j: nat, at: Injector)
    requires name in c.instances && k <= |c.instances[name].setters| && name !in c.hookFails
    requires InjectFrom(c, st, name, w, k).0.Throws?
    ensures k <= j < |c.instances[name].setters| && InjectSetter(c, at, name, w, j).0.Some?
    ensures st.named.Keys <= at.named.Keys && |Missing(c, at)| <= |Missing(c, st)|
    decreases |c.instances[name].setters| - k
  {
    if InjectSetter(c, st, name, w, k).0.Some? {
      j, at := k, st;
    } else {
      FromNext(c, st, name, w, k);
      j, at := FromFails(c, InjectSetter(c, st, name, w, k).1, name, w, k + 1);
    }
  }

  // ----- it is needed

  /** What a successful call came to for a reference. */
  predicate Answered(c: Config, named: map<string, Wrapper>, r: string) {
    r in named || (AliasOf(c, r) != r && Target(c, r) in named)
  }

  /** The instance was set up from its k-th setter on. */
  ghost predicate SetUp(c: Config, named: map<string, Wrapper>, n: string, from: nat) {
    && n in c.instances && n !in c.hookFails
    && (forall k | from <= k < |c.instances[n].setters| && TakesEffect(c.instances[n].setters[k]) ::
          (n, k) !in c.refuses)
    && forall k: nat, r | from <= k && Refers(c, n, k, r) :: Answered(c, named, r)
  }

  ghost predicate AllSetUp(c: Config, before: map<string, Wrapper>, after: map<string, Wrapper>) {
    forall n | NewName(before, after, n) :: Constructs(c, n) && SetUp(c, after, n, 0)
  }

  lemma SetUpLater(c: Config, m1: map<string, Wrapper>, m2: map<string, Wrapper>, n: string, from: nat)
    requires SetUp(c, m1, n, from) && m1.Keys <= m2.Keys
    ensures SetUp(c, m2, n, from)
  {
    forall k: nat, r | from <= k && Refers(c, n, k, r)
      ensures Answered(c, m2, r)
    {
      assert Answered(c, m1, r);
    }
  }

  lemma AllSetUpThen(c: Config, m0: map<string, Wrapper>, m1: map<string, Wrapper>, m2: map<string, Wrapper>)
    requires m0.Keys <= m1.Keys <= m2.Keys && AllSetUp(c, m0, m1) && AllSetUp(c, m1, m2)
    ensures AllSetUp(c, m0, m2)
  {
    forall n | NewName(m0, m2, n)
      ensures Constructs(c, n) && SetUp(c, m2, n, 0)
    {
      if n in m1 { assert NewName(m0, m1, n); SetUpLater(c, m1, m2, n, 0); } else { assert NewName(m1, m2, n); }
    }
  }

  lemma {:induction false} CreateSetsUp(c: Config, st: Injector, name: string)
    requires Create(c, st, name, false).0.Created?
    ensures AllSetUp(c, st.named, Create(c, st, name, false).1.named)
    ensures Answered(c, Create(c, st, name, false).1.named, name)
    decreases 0, |Missing(c, st)|, 1
  {
    if name !in st.named && Target(c, name) !in st.named { NoAliasSetsUp(c, st, Target(c, name)); }
  }

  lemma {:induction false} NoAliasSetsUp(c: Config, st: Injector, name: string)
    requires name !in st.named && CreateNoAlias(c, st, name, false).0.Created?
    ensures AllSetUp(c, st.named, CreateNoAlias(c, st, name, false).1.named)
    ensures name in CreateNoAlias(c, st, name, false).1.named
    decreases 0, |Missing(c, st)|, 0
  {
    var registered := Register(st, name, false);
    assert name in Missing(c, st) && name in registered.named;
    MissingShrinks(c, st, registered);
    FromSetsUp(c, registered, name, st.wrappers, 0);
    var after := CreateNoAlias(c, st, name, false).1.named;
    forall n | NewName(st.named, after, n)
      ensures Constructs(c, n) && SetUp(c, after, n, 0)
    {
      if n != name { assert NewName(registered.named, after, n); }
    }
  }

  lemma {:induction false} SetterSetsUp(c: Config, st: Injector, name: string, w: Wrapper, k: nat)
    requires name in c.instances && k < |c.instances[name].setters|
    requires InjectSetter(c, st, name, w, k).0.None?
    ensures var named := InjectSetter(c, st, name, w, k).1.named;
      && AllSetUp(c, st.named, named)
      && (TakesEffect(c.instances[name].setters[k]) ==> (name, k) !in c.refuses)
      && forall r | Refers(c, name, k, r) :: Answered(c, named, r)
    decreases 0, |Missing(c, st)|, 2
  {
    var s := c.instances[name].setters[k];
    if Enabled(s) && s.ref.Some? { CreateSetsUp(c, st, s.ref.value); }
  }

  lemma {:induction false} FromSetsUp(c: Config, st: Injector, name: string, w: Wrapper, k: nat)
    requires name in c.instances && k <= |c.instances[name].setters|
    requires InjectFrom(c, st, name, w, k).0.Created?
    ensures AllSetUp(c, st.named, InjectFrom(c, st, name, w, k).1.named)
    ensures SetUp(c, InjectFrom(c, st, name, w, k).1.named, name, k)
    decreases 0, |Missing(c, st)|, 3, |c.instances[name].setters| - k
  {
    if k < |c.instances[name].setters| {
      FromNext(c, st, name, w, k);
      var after := InjectSetter(c, st, name, w, k).1;
      var last := InjectFrom(c, after, name, w, k + 1).1;
      SetterSetsUp(c, st, name, w, k);
      FromSetsUp(c, after, name, w, k + 1);
      SetUpThen(c, st.named, after.named, last.named, name, k);
      assert InjectFrom(c, st, name, w, k).1.named == last.named;
    } else {
      NothingToSetUp(c, st, name, w, k);
    }
  }

  lemma SetUpThen(c: Config, m0: map<string, Wrapper>, m1: map<string, Wrapper>, m2: map<string, Wrapper>,
                  n: string, k: nat)
    requires m0.Keys <= m1.Keys <= m2.Keys && AllSetUp(c, m0, m1) && AllSetUp(c, m1, m2)
    requires SetUp(c, m2, n, k + 1) && k < |c.instances[n].setters|
    requires TakesEffect(c.instances[n].setters[k]) ==> (n, k) !in c.refuses
    requires forall r | Refers(c, n, k, r) :: Answered(c, m1, r)
    ensures AllSetUp(c, m0, m2) && SetUp(c, m2, n, k)
  {
    AllSetUpThen(c, m0, m1, m2);
    SetUpOneMore(c, m1, m2, n, k);
  }

  lemma NothingToSetUp(c: Config, st: Injector, name: string, w: Wrapper, k: nat)
    requires name in c.instances && k == |c.instances[name].setters| && InjectFrom(c, st, name, w, k).0.Created?
    ensures var last := InjectFrom(c, st, name, w, k).1;
      AllSetUp(c, st.named, last.named) && SetUp(c, last.named, name, k)
  {
  }

  lemma SetUpOneMore(c: Config, m1: map<string, Wrapper>, m2: map<string, Wrapper>, n: string, k: nat)
    requires SetUp(c, m2, n, k + 1) && m1.Keys <= m2.Keys && k < |c.instances[n].setters|
    requires TakesEffect(c.instances[n].setters[k]) ==> (n, k) !in c.refuses
    requires forall r | Refers(c, n, k, r) :: Answered(c, m1, r)
    ensures SetUp(c, m2, n, k)
  {
    forall j: nat, r | k <= j && Refers(c, n, j, r)
      ensures Answered(c, m2, r)
    {
      if j == k { assert Answered(c, m1, r); }
    }
  }

  // ----- the condition is exact

  /** The names that instances refer to are no aliases at all if they can be registered, and no aliases of others if
      they are known. */
  ghost predicate PlainReferences(c: Config, known: set<string>) {
    forall n, k: nat, r | Refers(c, n, k, r) ::
      if r in known then Clear(c, r) else Registrable(c, r) ==> AliasOf(c, r) == ""
  }

  /** This is so when no alias refers to an instance of a known class that is itself an alias, of whatever, and the
      known names are no aliases of others. */
  lemma PlainReferencesWhen(c: Config, known: set<string>)
    requires AllClear(c, known) && forall r | Constructs(c, r) && IsAliased(c, r) :: AliasOf(c, r) == ""
    ensures PlainReferences(c, known)
  {
  }

  /** What was set up meets the condition. */
  lemma SetUpIsSane(c: Config, st: Injector, after: map<string, Wrapper>, n: string)
    requires PlainReferences(c, st.named.Keys) && NewRegistrable(c, st.named, after)
    requires after.Keys <= st.named.Keys + c.instances.Keys
    requires Constructs(c, n) && SetUp(c, after, n, 0)
    ensures Sane(c, st.named.Keys, n)
  {
    forall k: nat, r | Refers(c, n, k, r)
      ensures Answerable(c, st.named.Keys, r)
    {
      assert Answered(c, after, r);
      if r in after && r !in st.named { assert NewName(st.named, after, r); }
    }
  }

  lemma CreateNeeds(c: Config, st: Injector, name: string)
    requires Sound(c, st) && PlainReferences(c, st.named.Keys) && Create(c, st, name, false).0.Created?
    ensures Feasible(c, st.named.Keys, name)
  {
    if name !in st.named && Target(c, name) !in st.named {
      var after := Create(c, st, name, false).1;
      CreateSetsUp(c, st, name);
      CreateNames(c, st, name);
      CreateKeepsSound(c, st, name, false);
      PlainStaysClear(c, st.named, after.named);
      CreateRegistersReachable(c, st, name);
      forall m | Reaches(c, st.named.Keys, Target(c, name), m)
        ensures Sane(c, st.named.Keys, m)
      {
        ReachedIsNew(c, st.named.Keys, Target(c, name), m);
        assert NewName(st.named, after.named, m);
        SetUpIsSane(c, st, after.named, m);
      }
    }
  }

  lemma ReachedIsNew(c: Config, known: set<string>, n: string, m: string)
    requires Reaches(c, known, n, m)
    ensures m in c.instances && m !in known && n in c.instances
  {
  }

  lemma PlainStaysClear(c: Config, before: map<string, Wrapper>, after: map<string, Wrapper>)
    requires PlainReferences(c, before.Keys) && NewRegistrable(c, before, after)
    ensures ReferencesClear(c, after.Keys)
  {
    forall n, k: nat, r | Refers(c, n, k, r) && r in after
      ensures Clear(c, r)
    {
      assert r !in before ==> NewName(before, after, r);
    }
  }

  // ----- with disown

  lemma ReachesNext(c: Config, known: set<string>, n: string, m: string)
    requires Reaches(c, known, n, m) && m != n
    ensures NextReaches(c, known, n, m)
  {
    var p :| Path(c, known, p) && p[0] == n && p[|p| - 1] == m;
    assert Edge(c, p[0], p[1]) && Path(c, known, p[1..]);
    assert Reaches(c, known, p[1], m);
  }

  lemma DisownWorks(c: Config, st: Injector, name: string)
    requires Feasible(c, st.named.Keys, name)
    ensures Create(c, st, name, true).0.Created?
  {
    var target, known := Target(c, name), st.named.Keys;
    if name !in st.named && target !in st.named {
      var registered := Register(st, target, true);
      assert Path(c, known, [target]);
      assert Reaches(c, known, target, target) && Sane(c, known, target);
      if InjectFrom(c, registered, target, st.wrappers, 0).0.Throws? {
        var k, at := FromFails(c, registered, target, st.wrappers, 0);
        SetterWorks(c, at, target, st.wrappers, k, known);
      }
    }
  }

  lemma DisownNeeds(c: Config, st: Injector, name: string)
    requires Sound(c, st) && PlainReferences(c, st.named.Keys) && Create(c, st, name, true).0.Created?
    ensures Feasible(c, st.named.Keys, name)
  {
    var target, after := Target(c, name), Create(c, st, name, true).1;
    if name !in st.named && target !in st.named {
      var registered := Register(st, target, true);
      FromSetsUp(c, registered, target, st.wrappers, 0);
      FromNames(c, registered, target, st.wrappers, 0);
      CreateKeepsSound(c, st, name, true);
      PlainStaysClear(c, st.named, after.named);
      FromRegistersReached(c, registered, target, st.wrappers);
      forall m | Reaches(c, st.named.Keys, target, m)
        ensures Sane(c, st.named.Keys, m)
      {
        ReachedIsNew(c, st.named.Keys, target, m);
        if m != target {
          ReachesNext(c, st.named.Keys, target, m);
          assert NewName(st.named, after.named, m);
        }
        SetUpIsSane(c, st, after.named, m);
      }
    }
  }

  /** create() succeeds if and only if the name is registered, or is no alias of itself and stands for a registered
      name, or stands for a configured instance such that every instance reached from there, through names that are
      not registered, has a known class, a done hook and setters that do not throw, and references that each are
      answered in the same sense. */
  lemma CreateSucceedsIff(c: Config, st: Injector, name: string, disown: bool)
    requires Sound(c, st) && PlainReferences(c, st.named.Keys)
    ensures Create(c, st, name, disown).0.Created? <==> Feasible(c, st.named.Keys, name)
  {
    if Feasible(c, st.named.Keys, name) { FeasibleSucceeds(c, st, name, disown); }
    if Create(c, st, name, disown).0.Created? {
      if disown { DisownNeeds(c, st, name); } else { CreateNeeds(c, st, name); }
    }
  }

  /** On any configuration and from any state the condition is enough. */
  lemma FeasibleSucceeds(c: Config, st: Injector, name: string, disown: bool)
    requires Feasible(c, st.named.Keys, name)
    ensures Create(c, st, name, disown).0.Created?
  {
    if disown { DisownWorks(c, st, name); } else { CreateWorks(c, st, name, st.named.Keys); }
  }

  /** How a call fails that makes nothing: a name that is not registered is refused when it is an alias of itself, and
      not found when what it stands for is neither registered nor an instance of a known class. */
  lemma RefusedOutright(c: Config, st: Injector, name: string, disown: bool)
    requires name !in st.named
    ensures AliasOf(c, name) == name ==> Create(c, st, name, disown) == (Throws(IllegalState), st)
    ensures AliasOf(c, name) != name && Target(c, name) !in st.named && !Constructs(c, Target(c, name)) ==>
      Create(c, st, name, disown) == (Throws(NotFound), st)
  {
  }

  /** And how one that has made its object fails by itself: a setter that throws ends it with that failure, and a done
      hook that throws when all setters are through. */
  lemma FailsByItself(c: Config, st: Injector, name: string, w: Wrapper, k: nat)
    requires name in c.instances && k < |c.instances[name].setters| && TakesEffect(c.instances[name].setters[k])
    requires (name, k) in c.refuses && c.instances[name].setters[k].ref.None?
    ensures InjectFrom(c, st, name, w, k) == (Throws(InjectFailed), st)
    ensures name in c.hookFails ==>
      InjectFrom(c, st, name, w, |c.instances[name].setters|) == (Throws(HookFailed), st)
  {
    FromNext(c, st, name, w, k);
  }
}
