/**
 Processes that create, initialize and destroy invocation instances: performed by the classes, an
 operation has the effect that histories give it, so the balance of libraries holds for the classes.
 */
module InvocationPrograms {
  import opened Wrappers
  import opened Invocation

  /** The instances alive, by address, are distinct, and hold what `live` says. */
  ghost predicate InstancesRepresent(instances: map<nat, JniInvocationImpl>, live: map<nat, Fields>)
    reads instances.Values
  {
    && instances.Keys == live.Keys
    && (forall a, b | a in instances && b in instances && a != b :: instances[a] != instances[b])
    && (forall a | a in instances :: instances[a].Value() == live[a])
  }

  /** The process and the instances alive are in the state that `w` describes. */
  ghost predicate Represents(p: Process, instances: map<nat, JniInvocationImpl>, w: World)
    reads p, p.loader, instances.Values
  {
    && InstancesRepresent(instances, w.live)
    && (w.pointer.Some? ==> w.pointer.value in instances)
    && p.jniInvocation == (if w.pointer.Some? then instances[w.pointer.value] else null)
    && p.loader.opens == w.opens && p.loader.closes == w.closes
  }

  method PerformCreate(p: Process, instances: map<nat, JniInvocationImpl>, android: bool, a: nat, ghost w: World)
    returns (instances': map<nat, JniInvocationImpl>, fatal: bool)
    requires Represents(p, instances, w) && Allowed(w, CreateAt(a))
    modifies p
    ensures fatal == After(w, android, CreateAt(a)).fatal
    ensures Represents(p, instances', After(w, android, CreateAt(a)))
    ensures fresh(instances'.Values - instances.Values)
  {
    var created := p.Create();
    if created.AssertionFailed? {
      return instances, true;
    }
    return instances[a := created.value], false;
  }

  method PerformInit(p: Process, instances: map<nat, JniInvocationImpl>, android: bool, a: nat, library: Option<string>,
                     answers: Answers, ghost w: World)
    requires Represents(p, instances, w) && Allowed(w, InitAt(a, library, answers))
    modifies p.loader, instances.Values
    ensures Represents(p, instances, After(w, android, InitAt(a, library, answers)))
  {
    hide GetLibrary, Opened, AfterInit;
    ghost var name := GetLibrary(android, library, android, answers);
    OpenedForm(name, answers);
    HandleAfterInit(w.live[a], name, answers);
    var ok := instances[a].Init(p.loader, android, library, answers);
  }

  method PerformDestroy(p: Process, instances: map<nat, JniInvocationImpl>, android: bool, a: nat, ghost w: World)
    returns (instances': map<nat, JniInvocationImpl>)
    requires Represents(p, instances, w) && Allowed(w, DestroyAt(a)) && Singleton(w)
    modifies p, p.loader
    ensures Represents(p, instances', After(w, android, DestroyAt(a)))
    ensures instances' == instances - {a}
  {
    p.Destroy(instances[a]);
    instances' := instances - {a};
  }

  /** Every operation of the classes does what the histories say; `fatal` is a call that aborts the process. */
  method Perform(p: Process, instances: map<nat, JniInvocationImpl>, android: bool, op: Operation, ghost w: World)
    returns (instances': map<nat, JniInvocationImpl>, fatal: bool)
    requires Represents(p, instances, w) && Allowed(w, op) && Singleton(w)
    modifies p, p.loader, instances.Values
    ensures fatal == After(w, android, op).fatal
    ensures Represents(p, instances', After(w, android, op))
    ensures fresh(instances'.Values - instances.Values)
  {
    hide Singleton, Represents;
    instances', fatal := instances, false;
    match op
    case CreateAt(a) =>
      instances', fatal := PerformCreate(p, instances, android, a, w);
    case InitAt(a, library, answers) =>
      PerformInit(p, instances, android, a, library, answers, w);
    case DestroyAt(a) =>
      instances' := PerformDestroy(p, instances, android, a, w);
  }

  /** The static pointer designates the only instance. */
  lemma OnlyInstance(p: Process, instances: map<nat, JniInvocationImpl>, w: World)
    requires Represents(p, instances, w) && Singleton(w)
    ensures instances.Values == (if p.jniInvocation == null then {} else {p.jniInvocation})
    ensures HeldBy(w) == if p.jniInvocation != null && p.jniInvocation.handle.Some? then 1 else 0
  {
    if w.pointer.Some? {
      assert instances.Keys == {w.pointer.value};
      assert w.live[w.pointer.value] == p.jniInvocation.Value();
    } else {
      assert instances == map[];
    }
  }

  /** The process as a whole: libraries left open are that of the live instance and the overwritten ones. */
  method Run(android: bool, ops: seq<Operation>, ghost worlds: seq<World>)
    returns (p: Process, instances: map<nat, JniInvocationImpl>)
    requires IsHistory(worlds, android, ops)
    ensures Represents(p, instances, worlds[|ops|])
    ensures instances.Values == (if p.jniInvocation == null then {} else {p.jniInvocation})
    ensures p.loader.opens - p.loader.closes ==
              Overwritten(worlds, ops, |ops|) +
              if p.jniInvocation != null && p.jniInvocation.handle.Some? then 1 else 0
  {
    hide After, Allowed, Singleton;
    p := new Process();
    instances := map[];
    var i := 0;
    while i < |ops|
      invariant i <= |ops|
      invariant fresh(p) && fresh(p.loader) && fresh(instances.Values)
      invariant Represents(p, instances, worlds[i])
    {
      LibrariesBalance(worlds, android, ops, i);
      var fatal;
      instances, fatal := Perform(p, instances, android, ops[i], worlds[i]);
      i := i + 1;
    }
    LibrariesBalance(worlds, android, ops, i);
    OnlyInstance(p, instances, worlds[i]);
  }
}
