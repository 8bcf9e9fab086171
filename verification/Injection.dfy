/** What the dependency injector computes (base/src/di/DependencyInjector.cpp): depth-first
    construction of an object graph that may be cyclic. */
module Injection {
  import opened Basics

  /** A child entry of an instance: its key, its condition, the property it sets and the value. */
  datatype Setter = Setter(key: string, ifYes: Option<string>, name: Option<string>,
                           ref: Option<string>, number: Option<int>, text: Option<string>)

  datatype Instance = Instance(cls: Option<string>, setters: seq<Setter>)

  /** The configuration, the manifest of known classes, and which calls into the created objects throw:
      injecting a given setter of an instance, and the done hook of an instance. */
  datatype Config = Config(instances: map<string, Instance>, aliases: map<string, string>,
                           manifest: set<string>, refuses: set<(string, nat)>, hookFails: set<string>)

  type Wrapper = nat

  datatype Value = RefTo(wrapper: Wrapper) | NumberOf(number: int) | TextOf(text: string)

  /** A call that went through to a created object. */
  datatype Event = Injected(target: Wrapper, property: string, value: Value) | Done(target: Wrapper)

  /** m_set, m_free, the calls made so far, and how many wrappers have been allocated. */
  datatype Injector = Injector(named: map<string, Wrapper>, free: seq<Wrapper>, log: seq<Event>, wrappers: nat)

  const NEW := Injector(map[], [], [], 0)

  datatype Error = NotFound | IllegalState | InjectFailed | HookFailed

  datatype Outcome = Created(wrapper: Wrapper) | Throws(error: Error)

  function AliasOf(c: Config, name: string): string {
    if name in c.aliases then c.aliases[name] else ""
  }

  predicate Enabled(s: Setter) {
    && ("set" <= s.key || "add" <= s.key)
    && (s.ifYes.Some? ==> s.ifYes.value == "y" || s.ifYes.value == "yes" || s.ifYes.value == "true")
    && s.name.Some?
  }

  /** One that is not malformed. */
  predicate TakesEffect(s: Setter) { Enabled(s) && (s.ref.Some? || s.number.Some? || s.text.Some?) }

  /** The setters that are looked at at all: keyed set... or add..., unconditional or with a condition that is y, yes
      or true, and naming a property. */
  lemma EnabledIff(s: Setter)
    ensures Enabled(s) <==>
      && (exists rest :: s.key == "set" + rest || s.key == "add" + rest)
      && (s.ifYes == None || s.ifYes == Some("y") || s.ifYes == Some("yes") || s.ifYes == Some("true"))
      && s.name != None
  {
    if "set" <= s.key { assert s.key == "set" + s.key[3..]; }
    if "add" <= s.key { assert s.key == "add" + s.key[3..]; }
    if rest :| s.key == "set" + rest || s.key == "add" + rest {
      assert s.key[..3] == "set" || s.key[..3] == "add";
    }
  }

  /** Configured names that are not registered yet. */
  function Missing(c: Config, st: Injector): set<string> { c.instances.Keys - st.named.Keys }

  ghost predicate Grows(st: Injector, st': Injector) {
    && st.named.Keys <= st'.named.Keys
    && (forall n | n in st.named :: st'.named[n] == st.named[n])
    && st.wrappers <= st'.wrappers
    && st.log <= st'.log
    && st.free <= st'.free
  }

  lemma MissingShrinks(c: Config, st: Injector, st': Injector)
    requires st.named.Keys <= st'.named.Keys
    ensures |Missing(c, st')| <= |Missing(c, st)|
    ensures (exists n :: n in Missing(c, st) && n in st'.named) ==> |Missing(c, st')| < |Missing(c, st)|
  {
    SubsetSize(Missing(c, st'), Missing(c, st));
  }

  lemma {:induction false} SubsetSize<T>(a: set<T>, b: set<T>)
    requires a <= b
    ensures |a| <= |b|
    ensures a != b ==> |a| < |b|
  {
    assert b == a + (b - a);
    assert a != b ==> b - a != {};
  }

  function Create(c: Config, st: Injector, name: string, disown: bool): (r: (Outcome, Injector))
    ensures Grows(st, r.1)
    decreases if disown then 1 else 0, |Missing(c, st)|, 1
  {
    if name in st.named then (Created(st.named[name]), st)
    else
      var ref := AliasOf(c, name);
      if ref == name then (Throws(IllegalState), st)
      else if ref == "" then CreateNoAlias(c, st, name, disown)
      else if ref in st.named then (Created(st.named[ref]), st)
      else CreateNoAlias(c, st, ref, disown)
  }

  function Register(st: Injector, name: string, disown: bool): (st': Injector)
    ensures Grows(st, st')
  {
    var w := st.wrappers;
    if disown then st.(wrappers := w + 1)
    else Injector(if name in st.named then st.named else st.named[name := w], st.free + [w], st.log, w + 1)
  }

  function CreateNoAlias(c: Config, st: Injector, name: string, disown: bool): (r: (Outcome, Injector))
    ensures Grows(st, r.1)
    decreases if disown || name in st.named then 1 else 0, |Missing(c, st)|, 0
  {
    if name !in c.instances then (Throws(NotFound), st)
    else if c.instances[name].cls.None? then (Throws(NotFound), st)
    else if c.instances[name].cls.value !in c.manifest then (Throws(NotFound), st)
    else
      var registered := Register(st, name, disown);
      MissingShrinks(c, st, registered);
      assert !disown && name !in st.named ==> name in Missing(c, st) && name in registered.named;
      InjectFrom(c, registered, name, st.wrappers, 0)
  }

  /** What the injector does with the k-th setter of an instance; an error is one that it rethrows. */
  function InjectSetter(c: Config, st: Injector, name: string, w: Wrapper, k: nat): (r: (Option<Error>, Injector))
    requires name in c.instances && k < |c.instances[name].setters|
    ensures Grows(st, r.1)
    decreases 0, |Missing(c, st)|, 2
  {
    var s := c.instances[name].setters[k];
    if !Enabled(s) then (None, st)
    else if s.ref.Some? then
      var (made, after) := Create(c, st, s.ref.value, false);
      if made.Throws? then (Some(made.error), after)
      else if (name, k) in c.refuses then (Some(InjectFailed), after)
      else (None, Log(after, w, s, RefTo(made.wrapper)))
    else if s.number.None? && s.text.None? then (None, st)  // malformed: only logged
    else if (name, k) in c.refuses then (Some(InjectFailed), st)
    else (None, Log(st, w, s, if s.number.Some? then NumberOf(s.number.value) else TextOf(s.text.value)))
  }

  /** injectDependencies from the k-th setter on. */
  function InjectFrom(c: Config, st: Injector, name: string, w: Wrapper, k: nat): (r: (Outcome, Injector))
    requires name in c.instances && k <= |c.instances[name].setters|
    ensures Grows(st, r.1)
    decreases 0, |Missing(c, st)|, 3, |c.instances[name].setters| - k
  {
    if k == |c.instances[name].setters| then
      if name in c.hookFails then (Throws(HookFailed), st)
      else (Created(w), st.(log := st.log + [Done(w)]))
    else
      var (error, after) := InjectSetter(c, st, name, w, k);
      MissingShrinks(c, st, after);
      if error.Some? then (Throws(error.value), after) else InjectFrom(c, after, name, w, k + 1)
  }

  function Log(st: Injector, w: Wrapper, s: Setter, value: Value): (st': Injector)
    requires Enabled(s)
    ensures Grows(st, st') && st'.named == st.named
  {
    st.(log := st.log + [Injected(w, s.name.value, value)])
  }

  /** createEarly: the early instances one after another, without a lookup, until one fails. */
  function EarlyFrom(c: Config, st: Injector, early: seq<string>): (Option<Error>, Injector)
    decreases |early|
  {
    if early == [] then (None, st)
    else
      var (made, after) := CreateNoAlias(c, st, early[0], false);
      if made.Throws? then (Some(made.error), after) else EarlyFrom(c, after, early[1..])
  }
}
