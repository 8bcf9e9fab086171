/** The injector itself (base/src/di/DependencyInjector.h), and where its behaviour departs from one
    instance per configured name. */
module DependencyInjection {
  import opened Basics
  import opened Injection
  import opened InjectionProofs

  class DependencyInjector {
    const conf: Config
    var named: map<string, Wrapper>  // m_set
    var free: seq<Wrapper>           // m_free
    var log: seq<Event>              // calls made to the created objects
    var wrappers: nat                // wrappers allocated

    ghost function State(): Injector
      reads this
    {
      Injector(named, free, log, wrappers)
    }

    constructor (conf: Config)
      ensures this.conf == conf && State() == NEW
    {
      this.conf := conf;
      named, free, log, wrappers := map[], [], [], 0;
    }

    method Create(name: string, disown: bool) returns (result: Outcome)
      modifies this
      ensures (result, State()) == Injection.Create(conf, old(State()), name, disown)
      decreases if disown then 1 else 0, |Missing(conf, State())|, 1
    {
      if name in named { return Created(named[name]); }
      var ref := AliasOf(conf, name);
      if ref == name { return Throws(IllegalState); }
      if ref == "" {
        result := CreateNoAlias(name, disown);
      } else if ref in named {
        result := Created(named[ref]);
      } else {
        result := CreateNoAlias(ref, disown);
      }
    }

    method CreateNoAlias(name: string, disown: bool) returns (result: Outcome)
      modifies this
      ensures (result, State()) == Injection.CreateNoAlias(conf, old(State()), name, disown)
      decreases if disown || name in named then 1 else 0, |Missing(conf, State())|, 0
    {
      if name !in conf.instances { return Throws(NotFound); }
      var cls := conf.instances[name].cls;
      if cls.None? || cls.value !in conf.manifest { return Throws(NotFound); }
      ghost var before := State();
      var w := wrappers;
      wrappers := wrappers + 1;
      if !disown {
        if name !in named { named := named[name := w]; }
        free := free + [w];
      }
      assert State() == Register(before, name, disown);
      MissingShrinks(conf, before, State());
      assert !disown && name !in before.named ==> name in Missing(conf, before) && name in named;
      result := InjectDependencies(name, w);
    }

    method InjectDependencies(name: string, w: Wrapper) returns (result: Outcome)
      requires name in conf.instances
      modifies this
      ensures (result, State()) == InjectFrom(conf, old(State()), name, w, 0)
      decreases 0, |Missing(conf, State())|, 3
    {
      var k := 0;
      while k < |conf.instances[name].setters|
        invariant k <= |conf.instances[name].setters|
        invariant Grows(old(State()), State())
        invariant InjectFrom(conf, State(), name, w, k) == InjectFrom(conf, old(State()), name, w, 0)
      {
        MissingShrinks(conf, old(State()), State());
        var error := InjectValue(name, w, k);
        if error.Some? { return Throws(error.value); }
        k := k + 1;
      }
      if name in conf.hookFails { return Throws(HookFailed); }
      log := log + [Done(w)];
      result := Created(w);
    }

    method InjectValue(name: string, w: Wrapper, k: nat) returns (error: Option<Error>)
      requires name in conf.instances && k < |conf.instances[name].setters|
      modifies this
      ensures (error, State()) == InjectSetter(conf, old(State()), name, w, k)
      decreases 0, |Missing(conf, State())|, 2
    {
      var s := conf.instances[name].setters[k];
      if !Enabled(s) { return None; }
      if s.ref.Some? {
        var made := Create(s.ref.value, false);
        if made.Throws? { return Some(made.error); }
        if (name, k) in conf.refuses { return Some(InjectFailed); }
        log := log + [Injected(w, s.name.value, RefTo(made.wrapper))];
      } else if s.number.Some? || s.text.Some? {
        if (name, k) in conf.refuses { return Some(InjectFailed); }
        log := log + [Injected(w, s.name.value,
          if s.number.Some? then NumberOf(s.number.value) else TextOf(s.text.value))];
      }
      error := None;
    }

    /** The instances marked init="early", in the order of the configuration. */
    method CreateEarly(early: seq<string>) returns (error: Option<Error>)
      modifies this
      ensures (error, State()) == EarlyFrom(conf, old(State()), early)
    {
      var i := 0;
      while i < |early|
        invariant i <= |early|
        invariant EarlyFrom(conf, State(), early[i..]) == EarlyFrom(conf, old(State()), early)
      {
        var made := CreateNoAlias(early[i], false);
        assert early[i..][1..] == early[i + 1..];
        if made.Throws? { return Some(made.error); }
        i := i + 1;
      }
      error := None;
    }
  }

  function Plain(setters: seq<Setter>): Instance { Instance(Some("C"), setters) }

  function RefSetter(ref: string): Setter { Setter("set", None, Some("p"), Some(ref), None, None) }

  /** When a name is both an alias and an instance, what it stands for depends on what has been created:
      here the reference to "x", an alias of "y", finds the instance "x" that the alias "z" has brought in,
      and "y" is never created. */
  lemma AmbiguousNameIsMissed(c: Config)
    requires c == Config(map["a" := Plain([RefSetter("z"), RefSetter("x")]), "x" := Plain([]), "y" := Plain([])],
                         map["z" := "x", "x" := "y"], {"C"}, {}, {})
    ensures !NoChain(c)
    ensures Injection.Create(c, NEW, "a", false).0.Created?
    ensures Reaches(c, {}, "a", Target(c, "x")) && Target(c, "x") !in Injection.Create(c, NEW, "a", false).1.named
  {
    assert AliasOf(c, "x") == "y" && AliasOf(c, "z") == "x" && AliasOf(c, "a") == "";
    assert Constructs(c, "x") && IsAliased(c, "x") && !Clear(c, "x");
    assert Reaches(c, {}, "a", "y") by {
      assert Refers(c, "a", 1, "x") && Means(c, "x", "y", {});
      assert Edge(c, "a", "y") && Path(c, {}, ["a", "y"]);
    }
    AmbiguousRun(c);
  }

  lemma AmbiguousRun(c: Config)
    requires c == Config(map["a" := Plain([RefSetter("z"), RefSetter("x")]), "x" := Plain([]), "y" := Plain([])],
                         map["z" := "x", "x" := "y"], {"C"}, {}, {})
    ensures Injection.Create(c, NEW, "a", false).0.Created?
    ensures Injection.Create(c, NEW, "a", false).1.named == map["a" := 0, "x" := 1]
  {
    assert AliasOf(c, "x") == "y" && AliasOf(c, "z") == "x" && AliasOf(c, "a") == "";
    var s0 := Register(NEW, "a", false);
    var s1 := Register(s0, "x", false);
    var s2 := s1.(log := s1.log + [Done(1)]);
    assert Injection.CreateNoAlias(c, s0, "x", false) == InjectFrom(c, s1, "x", 1, 0) == (Created(1), s2);
    assert Injection.Create(c, s0, "z", false) == (Created(1), s2);
    var s3 := Log(s2, 0, RefSetter("z"), RefTo(1));
    assert InjectSetter(c, s0, "a", 0, 0) == (None, s3);
    assert Injection.Create(c, s3, "x", false) == (Created(1), s3);
    var s4 := Log(s3, 0, RefSetter("x"), RefTo(1));
    assert InjectSetter(c, s3, "a", 0, 1) == (None, s4);
    var s5 := s4.(log := s4.log + [Done(0)]);
    assert InjectFrom(c, s4, "a", 0, 2) == (Created(0), s5);
    assert InjectFrom(c, s3, "a", 0, 1) == (Created(0), s5);
    assert InjectFrom(c, s0, "a", 0, 0) == (Created(0), s5);
  }

  /** A name whose creation failed half-way stays registered: the next create() of it succeeds and returns
      an object whose done hook has not run. */
  lemma FailureStaysRegistered(c: Config)
    requires c == Config(map["a" := Plain([RefSetter("b")])], map[], {"C"}, {}, {})
    ensures var (first, after) := Injection.Create(c, NEW, "a", false);
      && first == Throws(NotFound)
      && Injection.Create(c, after, "a", false) == (Created(0), after)
      && Done(0) !in after.log
  {
    var s0 := Register(NEW, "a", false);
    assert Injection.Create(c, s0, "b", false) == (Throws(NotFound), s0);
    assert InjectFrom(c, s0, "a", 0, 0) == (Throws(NotFound), s0);
  }
}
