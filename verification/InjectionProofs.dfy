/** What a call of the injector's create() leaves behind. Each property is proved along the
    recursion: for create, for createNoAlias, and for injectDependencies from a setter on. */
module InjectionProofs {
  import opened Basics
  import opened Injection

  // ----- one wrapper per new name

  ghost predicate NewName(before: map<string, Wrapper>, after: map<string, Wrapper>, n: string) {
    n in after && n !in before
  }

  function Range(from: nat, to: nat): (r: seq<Wrapper>)
    requires from <= to
    ensures |r| == to - from && forall i | 0 <= i < |r| :: r[i] == from + i
  {
    seq(to - from, i => from + i)
  }

  ghost predicate Named(before: map<string, Wrapper>, after: map<string, Wrapper>, w: Wrapper) {
    exists n :: NewName(before, after, n) && after[n] == w
  }

  /** Between the two states every new name got a wrapper of its own, every new wrapper a name, and
      exactly the new wrappers were added, in order, to those to be freed. */
  ghost predicate Allocated(c: Config, st: Injector, st': Injector) {
    && Grows(st, st')
    && (forall n | NewName(st.named, st'.named, n) :: n in c.instances && st.wrappers <= st'.named[n] < st'.wrappers)
    && (forall m, n | NewName(st.named, st'.named, m) &&
      NewName(st.named, st'.named, n) && m != n :: st'.named[m] != st'.named[n])
    && (forall w | st.wrappers <= w < st'.wrappers :: Named(st.named, st'.named, w))
    && st'.free == st.free + Range(st.wrappers, st'.wrappers)
  }

  lemma AllocatedThen(c: Config, s0: Injector, s1: Injector, s2: Injector)
    requires Allocated(c, s0, s1) && Allocated(c, s1, s2)
    ensures Allocated(c, s0, s2)
  {
    assert forall n :: NewName(s0.named, s2.named, n) <==>
      NewName(s0.named, s1.named, n) || NewName(s1.named, s2.named, n);
    RangeThen(s0.wrappers, s1.wrappers, s2.wrappers);
    forall w | s0.wrappers <= w < s2.wrappers
      ensures Named(s0.named, s2.named, w)
    {
      NamedThen(s0.named, s1.named, s2.named, w, w < s1.wrappers);
    }
  }

  lemma RangeThen(lo: nat, mid: nat, hi: nat)
    requires lo <= mid <= hi
    ensures Range(lo, hi) == Range(lo, mid) + Range(mid, hi)
  {
  }

  lemma NamedThen(m0: map<string, Wrapper>, m1: map<string, Wrapper>, m2: map<string, Wrapper>, w: Wrapper, early: bool)
    requires m0.Keys <= m1.Keys <= m2.Keys && forall n | n in m1 :: m2[n] == m1[n]
    requires if early then Named(m0, m1, w) else Named(m1, m2, w)
    ensures Named(m0, m2, w)
  {
    if early {
      var n :| NewName(m0, m1, n) && m1[n] == w;
      assert NewName(m0, m2, n);
    } else {
      var n :| NewName(m1, m2, n) && m2[n] == w;
      assert NewName(m0, m2, n);
    }
  }

  lemma RegisterAllocates(c: Config, st: Injector, name: string)
    requires name in c.instances && name !in st.named
    ensures Allocated(c, st, Register(st, name, false))
  {
    assert NewName(st.named, Register(st, name, false).named, name);
  }

  lemma {:induction false} CreateAllocates(c: Config, st: Injector, name: string)
    ensures Allocated(c, st, Create(c, st, name, false).1)
    decreases 0, |Missing(c, st)|, 1
  {
    if name !in st.named {
      var ref := AliasOf(c, name);
      if ref == "" {
        if name != "" { NoAliasAllocates(c, st, name); }
      } else if ref !in st.named {
        NoAliasAllocates(c, st, ref);
      }
    }
  }

  lemma {:induction false} NoAliasAllocates(c: Config, st: Injector, name: string)
    requires name !in st.named
    ensures Allocated(c, st, CreateNoAlias(c, st, name, false).1)
    decreases 0, |Missing(c, st)|, 0
  {
    if name in c.instances && c.instances[name].cls.Some? && c.instances[name].cls.value in c.manifest {
      var registered := Register(st, name, false);
      assert name in Missing(c, st) && name in registered.named;
      MissingShrinks(c, st, registered);
      RegisterAllocates(c, st, name);
      FromAllocates(c, registered, name, st.wrappers, 0);
      AllocatedThen(c, st, registered, CreateNoAlias(c, st, name, false).1);
    }
  }

  lemma {:induction false} SetterAllocates(c: Config, st: Injector, name: string, w: Wrapper, k: nat)
    requires name in c.instances && k < |c.instances[name].setters|
    ensures Allocated(c, st, InjectSetter(c, st, name, w, k).1)
    decreases 0, |Missing(c, st)|, 2
  {
    var s := c.instances[name].setters[k];
    if Enabled(s) && s.ref.Some? { CreateAllocates(c, st, s.ref.value); }
  }

  lemma {:induction false} FromAllocates(c: Config, st: Injector, name: string, w: Wrapper, k: nat)
    requires name in c.instances && k <= |c.instances[name].setters|
    ensures Allocated(c, st, InjectFrom(c, st, name, w, k).1)
    decreases 0, |Missing(c, st)|, 3, |c.instances[name].setters| - k
  {
    if k < |c.instances[name].setters| {
      var after := InjectSetter(c, st, name, w, k).1;
      FromNext(c, st, name, w, k);
      SetterAllocates(c, st, name, w, k);
      if InjectSetter(c, st, name, w, k).0.None? {
        FromAllocates(c, after, name, w, k + 1);
        AllocatedThen(c, st, after, InjectFrom(c, after, name, w, k + 1).1);
      }
    } else {
      NothingAllocated(c, st, InjectFrom(c, st, name, w, k).1);
    }
  }

  lemma FromNext(c: Config, st: Injector, name: string, w: Wrapper, k: nat)
    requires name in c.instances && k < |c.instances[name].setters|
    ensures var (error, after) := InjectSetter(c, st, name, w, k);
      && |Missing(c, after)| <= |Missing(c, st)|
      && InjectFrom(c, st, name, w, k) ==
           if error.Some? then (Throws(error.value), after) else InjectFrom(c, after, name, w, k + 1)
  {
    MissingShrinks(c, st, InjectSetter(c, st, name, w, k).1);
  }

  lemma NothingAllocated(c: Config, st: Injector, st': Injector)
    requires Grows(st, st') && st'.named == st.named && st'.free == st.free && st'.wrappers == st.wrappers
    ensures Allocated(c, st, st')
  {
  }

  // ----- what a successful call registers

  /** What create(r) may come down to: r itself, or what r is an alias of. */
  predicate Candidate(c: Config, r: string, t: string) {
    t == r || (AliasOf(c, r) != "" && t == AliasOf(c, r))
  }

  /** The k-th setter of the instance takes effect and refers to r. */
  predicate Refers(c: Config, n: string, k: nat, r: string) {
    && n in c.instances && k < |c.instances[n].setters|
    && Enabled(c.instances[n].setters[k]) && c.instances[n].setters[k].ref == Some(r)
  }

  /** What create(r) makes or finds when r itself is not registered. */
  function Target(c: Config, r: string): string { if AliasOf(c, r) == "" then r else AliasOf(c, r) }

  /** No alias of another name. */
  predicate Clear(c: Config, r: string) { AliasOf(c, r) == "" || AliasOf(c, r) == r }

  /** The instance n refers to what t stands for; names in also may besides stand for themselves. */
  ghost predicate Edge(c: Config, n: string, t: string, also: set<string> := {}) {
    t in c.instances && exists k: nat, r :: Refers(c, n, k, r) && Means(c, r, t, also)
  }

  predicate Means(c: Config, r: string, t: string, also: set<string>) {
    t == Target(c, r) || (t == r && r in also)
  }

  ghost predicate Resolved(c: Config, named: map<string, Wrapper>, r: string) {
    exists t :: t in named && Candidate(c, r, t)
  }

  /** Every reference of the instance from the k-th setter on is registered. */
  ghost predicate Met(c: Config, named: map<string, Wrapper>, n: string, from: nat) {
    forall k: nat, r | from <= k && Refers(c, n, k, r) :: Resolved(c, named, r)
  }

  ghost predicate Closed(c: Config, before: map<string, Wrapper>, after: map<string, Wrapper>) {
    forall n | NewName(before, after, n) :: Met(c, after, n, 0)
  }

  lemma MetLater(c: Config, named: map<string, Wrapper>, later: map<string, Wrapper>, n: string, from: nat)
    requires Met(c, named, n, from) && named.Keys <= later.Keys
    ensures Met(c, later, n, from)
  {
    forall k: nat, r | from <= k && Refers(c, n, k, r)
      ensures Resolved(c, later, r)
    {
      assert Resolved(c, named, r);
      var t :| t in named && Candidate(c, r, t);
      assert t in later;
    }
  }

  lemma ClosedThen(c: Config, m0: map<string, Wrapper>, m1: map<string, Wrapper>, m2: map<string, Wrapper>)
    requires m0.Keys <= m1.Keys <= m2.Keys && Closed(c, m0, m1) && Closed(c, m1, m2)
    ensures Closed(c, m0, m2)
  {
    forall n | NewName(m0, m2, n)
      ensures Met(c, m2, n, 0)
    {
      if n in m1 { assert NewName(m0, m1, n); MetLater(c, m1, m2, n, 0); } else { assert NewName(m1, m2, n); }
    }
  }

  lemma {:induction false} CreateCloses(c: Config, st: Injector, name: string)
    requires Create(c, st, name, false).0.Created?
    ensures Closed(c, st.named, Create(c, st, name, false).1.named)
    ensures Resolved(c, Create(c, st, name, false).1.named, name)
    decreases 0, |Missing(c, st)|, 1
  {
    var after := Create(c, st, name, false).1.named;
    assert Candidate(c, name, name) && (AliasOf(c, name) != "" ==> Candidate(c, name, AliasOf(c, name)));
    if name !in st.named {
      var ref := AliasOf(c, name);
      if ref == "" {
        NoAliasCloses(c, st, name);
      } else if ref !in st.named {
        NoAliasCloses(c, st, ref);
      }
    }
  }

  lemma {:induction false} NoAliasCloses(c: Config, st: Injector, name: string)
    requires name !in st.named && CreateNoAlias(c, st, name, false).0.Created?
    ensures Closed(c, st.named, CreateNoAlias(c, st, name, false).1.named)
    ensures name in CreateNoAlias(c, st, name, false).1.named
    decreases 0, |Missing(c, st)|, 0
  {
    var registered := Register(st, name, false);
    assert name in Missing(c, st) && name in registered.named;
    MissingShrinks(c, st, registered);
    FromCloses(c, registered, name, st.wrappers, 0);
    var after := CreateNoAlias(c, st, name, false).1.named;
    forall n | NewName(st.named, after, n)
      ensures Met(c, after, n, 0)
    {
      if n != name { assert NewName(registered.named, after, n); }
    }
  }

  lemma {:induction false} SetterCloses(c: Config, st: Injector, name: string, w: Wrapper, k: nat)
    requires name in c.instances && k < |c.instances[name].setters|
    requires InjectSetter(c, st, name, w, k).0.None?
    ensures Closed(c, st.named, InjectSetter(c, st, name, w, k).1.named)
    ensures forall r | Refers(c, name, k, r) :: Resolved(c, InjectSetter(c, st, name, w, k).1.named, r)
    decreases 0, |Missing(c, st)|, 2
  {
    var s := c.instances[name].setters[k];
    if Enabled(s) && s.ref.Some? { CreateCloses(c, st, s.ref.value); }
  }

  lemma {:induction false} FromCloses(c: Config, st: Injector, name: string, w: Wrapper, k: nat)
    requires name in c.instances && k <= |c.instances[name].setters|
    requires InjectFrom(c, st, name, w, k).0.Created?
    ensures Closed(c, st.named, InjectFrom(c, st, name, w, k).1.named)
    ensures Met(c, InjectFrom(c, st, name, w, k).1.named, name, k)
    decreases 0, |Missing(c, st)|, 3, |c.instances[name].setters| - k
  {
    if k < |c.instances[name].setters| {
      var after := InjectSetter(c, st, name, w, k).1;
      var last := InjectFrom(c, after, name, w, k + 1).1;
      assert InjectFrom(c, st, name, w, k).1 == last;
      SetterCloses(c, st, name, w, k);
      MissingShrinks(c, st, after);
      FromCloses(c, after, name, w, k + 1);
      ClosedThen(c, st.named, after.named, last.named);
      MetOneMore(c, after.named, last.named, name, k);
    } else {
      NothingToMeet(c, st.named, name);
    }
  }

  lemma NothingToMeet(c: Config, named: map<string, Wrapper>, n: string)
    requires n in c.instances
    ensures Met(c, named, n, |c.instances[n].setters|)
  {
  }

  lemma MetOneMore(c: Config, named: map<string, Wrapper>, later: map<string, Wrapper>, n: string, k: nat)
    requires Met(c, later, n, k + 1) && named.Keys <= later.Keys
    requires forall r | Refers(c, n, k, r) :: Resolved(c, named, r)
    ensures Met(c, later, n, k)
  {
    forall j: nat, r | k <= j && Refers(c, n, j, r)
      ensures Resolved(c, later, r)
    {
      if j == k {
        var t :| t in named && Candidate(c, r, t);
        assert t in later;
      }
    }
  }

  /** A path of references through configured names that are not among the given ones. */
  ghost predicate Path(c: Config, known: set<string>, p: seq<string>, also: set<string> := {}) {
    && p != []
    && (forall i | 0 <= i < |p| :: p[i] in c.instances && p[i] !in known)
    && (forall i | 0 <= i < |p| - 1 :: Edge(c, p[i], p[i + 1], also))
  }

  ghost predicate Reaches(c: Config, known: set<string>, n: string, t: string, also: set<string> := {}) {
    exists p :: Path(c, known, p, also) && p[0] == n && p[|p| - 1] == t
  }

  ghost predicate NextReaches(c: Config, known: set<string>, n: string, t: string, also: set<string> := {}) {
    exists m :: Edge(c, n, m, also) && Reaches(c, known, m, t, also)
  }

  lemma ReachesFurther(c: Config, known: set<string>, more: set<string>, n: string, m: string, t: string,
                       also: set<string> := {})
    requires n in c.instances && n !in known && known <= more && Edge(c, n, m, also) && Reaches(c, more, m, t, also)
    ensures Reaches(c, known, n, t, also)
  {
    var p :| Path(c, more, p, also) && p[0] == m && p[|p| - 1] == t;
    var q := [n] + p;
    assert forall i | 0 <= i < |q| - 1 :: i > 0 ==> q[i] == p[i - 1] && q[i + 1] == p[i];
    assert Path(c, known, q, also);
  }

  lemma ReachesAvoidingLess(c: Config, known: set<string>, more: set<string>, n: string, t: string)
    requires known <= more && Reaches(c, more, n, t)
    ensures Reaches(c, known, n, t)
  {
    var p :| Path(c, more, p) && p[0] == n && p[|p| - 1] == t;
    assert Path(c, known, p);
  }

  lemma ReachesAlso(c: Config, known: set<string>, n: string, t: string, also: set<string>)
    requires Reaches(c, known, n, t)
    ensures Reaches(c, known, n, t, also)
  {
    var p :| Path(c, known, p) && p[0] == n && p[|p| - 1] == t;
    forall i | 0 <= i < |p| - 1
      ensures Edge(c, p[i], p[i + 1], also)
    {
      assert Edge(c, p[i], p[i + 1]);
      var k: nat, r :| Refers(c, p[i], k, r) && Means(c, r, p[i + 1], {});
      assert Means(c, r, p[i + 1], also);
    }
    assert Path(c, known, p, also);
  }

  /** Every name that a call newly registers, successful or not, is reached from what the requested one stands
      for, each reference standing for what create() makes of it. */
  lemma {:induction false} CreateReaches(c: Config, st: Injector, name: string, t: string)
    requires NewName(st.named, Create(c, st, name, false).1.named, t)
    ensures name !in st.named && Reaches(c, st.named.Keys, Target(c, name), t)
    decreases 0, |Missing(c, st)|, 1
  {
    NoAliasReaches(c, st, Target(c, name), t);
  }

  lemma {:induction false} NoAliasReaches(c: Config, st: Injector, name: string, t: string)
    requires name !in st.named && NewName(st.named, CreateNoAlias(c, st, name, false).1.named, t)
    ensures Reaches(c, st.named.Keys, name, t)
    decreases 0, |Missing(c, st)|, 0
  {
    var registered := Register(st, name, false);
    assert name in Missing(c, st) && name in registered.named;
    if t == name {
      assert Path(c, st.named.Keys, [name]);
    } else {
      MissingShrinks(c, st, registered);
      FromReaches(c, registered, name, st.wrappers, 0, t);
      var m :| Edge(c, name, m) && Reaches(c, registered.named.Keys, m, t);
      ReachesFurther(c, st.named.Keys, registered.named.Keys, name, m, t);
    }
  }

  lemma {:induction false} SetterReaches(c: Config, st: Injector, name: string, w: Wrapper, k: nat, t: string)
    requires name in c.instances && k < |c.instances[name].setters|
    requires NewName(st.named, InjectSetter(c, st, name, w, k).1.named, t)
    ensures NextReaches(c, st.named.Keys, name, t)
    decreases 0, |Missing(c, st)|, 2
  {
    var r := c.instances[name].setters[k].ref.value;
    CreateReaches(c, st, r, t);
    assert Refers(c, name, k, r) && Means(c, r, Target(c, r), {});
    assert Edge(c, name, Target(c, r));
  }

  lemma {:induction false} FromReaches(c: Config, st: Injector, name: string, w: Wrapper, k: nat, t: string)
    requires name in c.instances && k <= |c.instances[name].setters|
    requires NewName(st.named, InjectFrom(c, st, name, w, k).1.named, t)
    ensures NextReaches(c, st.named.Keys, name, t)
    decreases 0, |Missing(c, st)|, 3, |c.instances[name].setters| - k
  {
    var after := InjectSetter(c, st, name, w, k).1;
    if NewName(st.named, after.named, t) {
      SetterReaches(c, st, name, w, k, t);
    } else {
      FromNext(c, st, name, w, k);
      FromReaches(c, after, name, w, k + 1, t);
      NextReachesAvoidingLess(c, st.named.Keys, after.named.Keys, name, t);
    }
  }

  lemma NextReachesAvoidingLess(c: Config, known: set<string>, more: set<string>, n: string, t: string)
    requires known <= more && NextReaches(c, more, n, t)
    ensures NextReaches(c, known, n, t)
  {
    var m :| Edge(c, n, m) && Reaches(c, more, m, t);
    ReachesAvoidingLess(c, known, more, m, t);
  }

  // ----- which names can be registered at all

  /** The instance has a known class, so an object of it can be made. */
  predicate Constructs(c: Config, name: string) {
    name in c.instances && c.instances[name].cls.Some? && c.instances[name].cls.value in c.manifest
  }

  ghost predicate IsAliased(c: Config, r: string) { r != "" && exists z :: z != r && AliasOf(c, z) == r }

  /** create() can register the name: under its own name, or as what another is an alias of. */
  ghost predicate Registrable(c: Config, n: string) {
    Constructs(c, n) && n != "" && (AliasOf(c, n) == "" || IsAliased(c, n))
  }

  ghost predicate NewRegistrable(c: Config, before: map<string, Wrapper>, after: map<string, Wrapper>) {
    forall n | NewName(before, after, n) :: Registrable(c, n)
  }

  lemma {:induction false} CreateNames(c: Config, st: Injector, name: string)
    ensures NewRegistrable(c, st.named, Create(c, st, name, false).1.named)
    decreases 0, |Missing(c, st)|, 1
  {
    if name !in st.named && AliasOf(c, name) != name && Target(c, name) !in st.named {
      NoAliasNames(c, st, Target(c, name));
    }
  }

  lemma {:induction false} NoAliasNames(c: Config, st: Injector, name: string)
    requires name !in st.named && name != "" && (AliasOf(c, name) == "" || IsAliased(c, name))
    ensures NewRegistrable(c, st.named, CreateNoAlias(c, st, name, false).1.named)
    decreases 0, |Missing(c, st)|, 0
  {
    if Constructs(c, name) {
      var registered := Register(st, name, false);
      assert name in Missing(c, st) && name in registered.named;
      MissingShrinks(c, st, registered);
      FromNames(c, registered, name, st.wrappers, 0);
      var after := InjectFrom(c, registered, name, st.wrappers, 0).1.named;
      assert forall n | NewName(st.named, after, n) :: n == name || NewName(registered.named, after, n);
    }
  }

  lemma {:induction false} FromNames(c: Config, st: Injector, name: string, w: Wrapper, k: nat)
    requires name in c.instances && k <= |c.instances[name].setters|
    ensures NewRegistrable(c, st.named, InjectFrom(c, st, name, w, k).1.named)
    decreases 0, |Missing(c, st)|, 3, |c.instances[name].setters| - k
  {
    if k < |c.instances[name].setters| {
      var after := InjectSetter(c, st, name, w, k).1;
      FromNext(c, st, name, w, k);
      SetterNames(c, st, name, w, k);
      if InjectSetter(c, st, name, w, k).0.None? {
        var last := InjectFrom(c, after, name, w, k + 1).1.named;
        FromNames(c, after, name, w, k + 1);
        NamesThen(c, st.named, after.named, last);
      }
    }
  }

  lemma NamesThen(c: Config, m0: map<string, Wrapper>, m1: map<string, Wrapper>, m2: map<string, Wrapper>)
    requires NewRegistrable(c, m0, m1) && NewRegistrable(c, m1, m2)
    ensures NewRegistrable(c, m0, m2)
  {
    assert forall n | NewName(m0, m2, n) :: NewName(m0, m1, n) || NewName(m1, m2, n);
  }

  lemma {:induction false} SetterNames(c: Config, st: Injector, name: string, w: Wrapper, k: nat)
    requires name in c.instances && k < |c.instances[name].setters|
    ensures NewRegistrable(c, st.named, InjectSetter(c, st, name, w, k).1.named)
    decreases 0, |Missing(c, st)|, 2
  {
    var s := c.instances[name].setters[k];
    if Enabled(s) && s.ref.Some? { CreateNames(c, st, s.ref.value); }
  }

  /** No alias refers to an instance of a known class whose name is itself an alias of another. */
  ghost predicate NoChain(c: Config) {
    forall r | Constructs(c, r) && IsAliased(c, r) :: Clear(c, r)
  }

  /** The names that break this rule. */
  ghost function Chained(c: Config): set<string> {
    set r | r in c.instances && Constructs(c, r) && IsAliased(c, r) && !Clear(c, r)
  }

  // ----- the main results about registration

  /** Every registered name is configured and has a wrapper of its own. */
  ghost predicate Sound(c: Config, st: Injector) {
    && (forall n | n in st.named :: n in c.instances && st.named[n] < st.wrappers)
    && (forall m, n | m in st.named && n in st.named && m != n :: st.named[m] != st.named[n])
  }

  lemma AllocatedKeepsSound(c: Config, st: Injector, after: Injector)
    requires Sound(c, st) && Allocated(c, st, after)
    ensures Sound(c, after)
  {
    forall m | m in after.named
      ensures m in c.instances && after.named[m] < after.wrappers
    {
      assert m !in st.named ==> NewName(st.named, after.named, m);
    }
    forall m, n | m in after.named && n in after.named && m != n
      ensures after.named[m] != after.named[n]
    {
      assert m !in st.named ==> NewName(st.named, after.named, m);
      assert n !in st.named ==> NewName(st.named, after.named, n);
    }
  }

  /** The names of the set that instances refer to are no aliases of others. */
  ghost predicate ReferencesClear(c: Config, names: set<string>) {
    forall n, k: nat, r | Refers(c, n, k, r) && r in names :: Clear(c, r)
  }

  lemma {:induction false} ReachedIsRegistered(c: Config, before: map<string, Wrapper>, after: map<string, Wrapper>,
                                             p: seq<string>, i: nat)
    requires ReferencesClear(c, after.Keys) && Closed(c, before, after)
    requires Path(c, before.Keys, p) && p[0] in after && i < |p|
    ensures p[i] in after
  {
    if i > 0 {
      ReachedIsRegistered(c, before, after, p, i - 1);
      assert Edge(c, p[i - 1], p[i]) && NewName(before, after, p[i - 1]);
      var k: nat, r :| Refers(c, p[i - 1], k, r) && Means(c, r, p[i], {});
      assert Resolved(c, after, r);
      var t :| t in after && Candidate(c, r, t);
      assert t == Target(c, r) == p[i];
    }
  }

  /** A successful create(name) has registered exactly what the name stands for and all that can be reached
      from it through references of names that were not registered before, cycles or not; it returns the
      object that the name stands for. */
  ghost predicate RegistersExactly(c: Config, st: Injector, name: string) {
    var (made, after) := Create(c, st, name, false);
    && made.Created?
    && Target(c, name) in after.named && after.named[Target(c, name)] == made.wrapper
    && forall n :: n in after.named <==> n in st.named || Reaches(c, st.named.Keys, Target(c, name), n)
  }

  lemma CreateRegistersReachable(c: Config, st: Injector, name: string)
    requires Create(c, st, name, false).0.Created? && (name in st.named ==> Clear(c, name))
    requires ReferencesClear(c, Create(c, st, name, false).1.named.Keys)
    ensures RegistersExactly(c, st, name)
  {
    var after := Create(c, st, name, false).1;
    CreateCloses(c, st, name);
    CreatedIsTarget(c, st, name);
    forall n
      ensures n in after.named <==> n in st.named || Reaches(c, st.named.Keys, Target(c, name), n)
    {
      if NewName(st.named, after.named, n) {
        CreateReaches(c, st, name, n);
      }
      if Reaches(c, st.named.Keys, Target(c, name), n) {
        var p :| Path(c, st.named.Keys, p) && p[0] == Target(c, name) && p[|p| - 1] == n;
        ReachedIsRegistered(c, st.named, after.named, p, |p| - 1);
      }
    }
  }

  lemma CreatedIsTarget(c: Config, st: Injector, name: string)
    requires Create(c, st, name, false).0.Created? && (name in st.named ==> Clear(c, name))
    ensures Target(c, name) in Create(c, st, name, false).1.named
    ensures Create(c, st, name, false).1.named[Target(c, name)] == Create(c, st, name, false).0.wrapper
  {
    if name !in st.named && Target(c, name) !in st.named {
      NoAliasWrapper(c, st, Target(c, name));
    }
  }

  lemma NoAliasWrapper(c: Config, st: Injector, name: string)
    requires name !in st.named && CreateNoAlias(c, st, name, false).0.Created?
    ensures name in CreateNoAlias(c, st, name, false).1.named
    ensures CreateNoAlias(c, st, name, false).1.named[name] ==
      CreateNoAlias(c, st, name, false).0.wrapper == st.wrappers
  {
    FromReturns(c, Register(st, name, false), name, st.wrappers, 0);
  }

  lemma {:induction false} FromReturns(c: Config, st: Injector, name: string, w: Wrapper, k: nat)
    requires name in c.instances && k <= |c.instances[name].setters| && InjectFrom(c, st, name, w, k).0.Created?
    ensures InjectFrom(c, st, name, w, k).0.wrapper == w
    decreases |c.instances[name].setters| - k
  {
    if k < |c.instances[name].setters| {
      FromReturns(c, InjectSetter(c, st, name, w, k).1, name, w, k + 1);
    }
  }

  /** With disown, what the name stands for is returned as it is when it is registered. Otherwise the created
      object is new, neither registered nor kept to be freed; what its references lead to is registered just the
      same (even, along a cycle, a second object of its name). */
  ghost predicate DisownsExactly(c: Config, st: Injector, name: string) {
    var (made, after) := Create(c, st, name, true);
    if Target(c, name) in st.named then (made, after) == (Created(st.named[Target(c, name)]), st)
    else
      && made == Created(st.wrappers) && st.wrappers < after.wrappers
      && after.free == st.free + Range(st.wrappers + 1, after.wrappers)
      && forall n :: n in after.named <==> n in st.named || NextReaches(c, st.named.Keys, Target(c, name), n)
  }

  lemma DisownedRegistersReachable(c: Config, st: Injector, name: string)
    requires Create(c, st, name, true).0.Created? && (name in st.named ==> Clear(c, name))
    requires ReferencesClear(c, Create(c, st, name, true).1.named.Keys)
    ensures DisownsExactly(c, st, name)
  {
    var target := Target(c, name);
    if target !in st.named {
      var registered := Register(st, target, true);
      var (made, after) := InjectFrom(c, registered, target, st.wrappers, 0);
      assert Create(c, st, name, true) == (made, after);
      FromReturns(c, registered, target, st.wrappers, 0);
      FromAllocates(c, registered, target, st.wrappers, 0);
      FromRegistersReached(c, registered, target, st.wrappers);
    }
  }

  lemma FromRegistersReached(c: Config, st: Injector, name: string, w: Wrapper)
    requires name in c.instances && InjectFrom(c, st, name, w, 0).0.Created?
    requires ReferencesClear(c, InjectFrom(c, st, name, w, 0).1.named.Keys)
    ensures var after := InjectFrom(c, st, name, w, 0).1;
      forall n :: n in after.named <==> n in st.named || NextReaches(c, st.named.Keys, name, n)
  {
    var after := InjectFrom(c, st, name, w, 0).1;
    FromCloses(c, st, name, w, 0);
    forall n
      ensures n in after.named <==> n in st.named || NextReaches(c, st.named.Keys, name, n)
    {
      if NewName(st.named, after.named, n) {
        FromReaches(c, st, name, w, 0, n);
      }
      if NextReaches(c, st.named.Keys, name, n) {
        var m :| Edge(c, name, m) && Reaches(c, st.named.Keys, m, n);
        NextIsRegistered(c, st, after, name, m, n);
      }
    }
  }

  lemma NextIsRegistered(c: Config, st: Injector, after: Injector, target: string, m: string, n: string)
    requires ReferencesClear(c, after.named.Keys)
    requires Closed(c, st.named, after.named) && Met(c, after.named, target, 0)
    requires Edge(c, target, m) && Reaches(c, st.named.Keys, m, n)
    ensures n in after.named
  {
    var k: nat, r :| Refers(c, target, k, r) && Means(c, r, m, {});
    assert Resolved(c, after.named, r);
    var t :| t in after.named && Candidate(c, r, t);
    assert t == Target(c, r) == m;
    var p :| Path(c, st.named.Keys, p) && p[0] == m && p[|p| - 1] == n;
    ReachedIsRegistered(c, st.named, after.named, p, |p| - 1);
  }
}
