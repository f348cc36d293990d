/**
 The invocation instance that loads the runtime library: the classes, and what holds over every
 history of creating, initializing and destroying instances.
 */
module Invocation {
  import opened Wrappers

  const LIBRARY_FALLBACK := "libart.so"

  const SYMBOLS: seq<string> := ["JNI_GetDefaultJavaVMInitArgs", "JNI_CreateJavaVM", "JNI_GetCreatedJavaVMs"]

  /** An entry point, and the library that it was found in. */
  datatype EntryPoint = EntryPoint(library: string, symbol: string)

  /**
   What the system answers during one call of Init: the system property (present when the call
   returns a positive length), whether dlopen succeeds, and whether dlsym does.
   */
  datatype Answers = Answers(
    debuggable: bool,
    property: Option<string>,
    opens: string -> bool,
    exports: EntryPoint -> bool)

  /** The fields of an instance; a handle is represented by the library that it was opened for. */
  datatype Fields = Fields(handle: Option<string>, entryPoints: seq<Option<EntryPoint>>)

  const NEW_FIELDS := Fields(None, [None, None, None])

  /** GetLibrary, on a device (`android`) or on a host; only devices pass a buffer from Init. */
  function GetLibrary(android: bool, library: Option<string>, hasBuffer: bool, answers: Answers): (name: string)
    ensures android && !answers.debuggable ==> name == "libart.so"
    ensures library.Some? && (answers.debuggable || !android) ==> name == library.value
    ensures android && answers.debuggable && library.None? && hasBuffer && answers.property.Some? ==>
              name == answers.property.value
    ensures library.None? && (!hasBuffer || answers.property.None? || !android) ==> name == "libart.so"
  {
    if android && !answers.debuggable then LIBRARY_FALLBACK
    else
      var default_ :=
        if android && hasBuffer && answers.property.Some? then answers.property.value else LIBRARY_FALLBACK;
      if library.Some? then library.value else default_
  }

  /** The library that Init ends up with: the chosen one, else the fallback, else none. */
  function Opened(name: string, answers: Answers): Option<string> {
    if answers.opens(name) then Some(name)
    else if name != LIBRARY_FALLBACK && answers.opens(LIBRARY_FALLBACK) then Some(LIBRARY_FALLBACK)
    else None
  }

  /** Looking up entry points from number k on; the first one missing gives the handle up. */
  function WithEntryPoints(f: Fields, k: nat, answers: Answers): (f': Fields)
    requires k <= 3 && |f.entryPoints| == 3 && f.handle.Some?
    ensures |f'.entryPoints| == 3
    ensures f'.handle == f.handle || f'.handle == None
    ensures forall j | 0 <= j < k :: f'.entryPoints[j] == f.entryPoints[j]
    ensures f'.handle.Some? <==>
              forall j | k <= j < 3 :: answers.exports(EntryPoint(f.handle.value, SYMBOLS[j]))
    ensures f'.handle.Some? ==>
              forall j | k <= j < 3 :: f'.entryPoints[j] == Some(EntryPoint(f.handle.value, SYMBOLS[j]))
    decreases 3 - k
  {
    if k == 3 then f
    else
      var entry := EntryPoint(f.handle.value, SYMBOLS[k]);
      if answers.exports(entry) then
        WithEntryPoints(f.(entryPoints := f.entryPoints[k := Some(entry)]), k + 1, answers)
      else
        Fields(None, f.entryPoints[k := None])
  }

  /** The fields after Init; it succeeds exactly when they hold a handle. */
  function AfterInit(f: Fields, name: string, answers: Answers): (f': Fields)
    requires |f.entryPoints| == 3
    ensures |f'.entryPoints| == 3
    ensures f'.handle.Some? <==>
              && Opened(name, answers).Some?
              && forall k | 0 <= k < 3 :: answers.exports(EntryPoint(Opened(name, answers).value, SYMBOLS[k]))
    ensures f'.handle.Some? ==>
              && f'.handle == Opened(name, answers)
              && forall k | 0 <= k < 3 :: f'.entryPoints[k] == Some(EntryPoint(f'.handle.value, SYMBOLS[k]))
  {
    var loaded := Opened(name, answers);
    if loaded.None? then f.(handle := None)
    else WithEntryPoints(f.(handle := loaded), 0, answers)
  }

  /** A library that does not open is replaced by the fallback, if that one opens. */
  lemma OpenedForm(name: string, answers: Answers)
    ensures var lib := if answers.opens(name) then name else "libart.so";
            Opened(name, answers) == if answers.opens(lib) then Some(lib) else None
  {
  }

  /**
   The handle after Init, from what the system answers: the named library if it opens and else the
   fallback, provided that this one opens and exports all three symbols.
   */
  lemma HandleAfterInit(f: Fields, name: string, answers: Answers)
    requires |f.entryPoints| == 3
    ensures var lib := if answers.opens(name) then name else "libart.so";
            AfterInit(f, name, answers).handle ==
              if && answers.opens(lib)
                 && answers.exports(EntryPoint(lib, "JNI_GetDefaultJavaVMInitArgs"))
                 && answers.exports(EntryPoint(lib, "JNI_CreateJavaVM"))
                 && answers.exports(EntryPoint(lib, "JNI_GetCreatedJavaVMs"))
              then Some(lib) else None
  {
    hide WithEntryPoints;
    var lib := if answers.opens(name) then name else "libart.so";
    OpenedForm(name, answers);
    assert SYMBOLS[0] == "JNI_GetDefaultJavaVMInitArgs";
    assert SYMBOLS[1] == "JNI_CreateJavaVM" && SYMBOLS[2] == "JNI_GetCreatedJavaVMs";
  }

  /** The entry points after Init: looked up in order, and none behind the first one missing. */
  lemma EntryPointsAfterInit(f: Fields, name: string, answers: Answers)
    requires |f.entryPoints| == 3
    ensures var lib := if answers.opens(name) then name else "libart.so";
            var first, second, third := EntryPoint(lib, "JNI_GetDefaultJavaVMInitArgs"),
                                        EntryPoint(lib, "JNI_CreateJavaVM"), EntryPoint(lib, "JNI_GetCreatedJavaVMs");
            AfterInit(f, name, answers).entryPoints ==
              if !answers.opens(lib) then f.entryPoints
              else if !answers.exports(first) then [None, f.entryPoints[1], f.entryPoints[2]]
              else if !answers.exports(second) then [Some(first), None, f.entryPoints[2]]
              else [Some(first), Some(second), if answers.exports(third) then Some(third) else None]
  {
    var lib := if answers.opens(name) then name else "libart.so";
    OpenedForm(name, answers);
    assert SYMBOLS[0] == "JNI_GetDefaultJavaVMInitArgs";
    assert SYMBOLS[1] == "JNI_CreateJavaVM" && SYMBOLS[2] == "JNI_GetCreatedJavaVMs";
    if answers.opens(lib) {
      var f0 := f.(handle := Some(lib));
      EntryPointsFrom(f0, answers);
    }
  }

  lemma EntryPointsFrom(f: Fields, answers: Answers)
    requires |f.entryPoints| == 3 && f.handle.Some?
    ensures var lib := f.handle.value;
            WithEntryPoints(f, 0, answers).entryPoints ==
              if !answers.exports(EntryPoint(lib, SYMBOLS[0])) then [None, f.entryPoints[1], f.entryPoints[2]]
              else if !answers.exports(EntryPoint(lib, SYMBOLS[1])) then
                [Some(EntryPoint(lib, SYMBOLS[0])), None, f.entryPoints[2]]
              else [Some(EntryPoint(lib, SYMBOLS[0])), Some(EntryPoint(lib, SYMBOLS[1])),
                    if answers.exports(EntryPoint(lib, SYMBOLS[2])) then Some(EntryPoint(lib, SYMBOLS[2])) else None]
  {
    var lib := f.handle.value;
    var f1 := f.(entryPoints := f.entryPoints[0 := Some(EntryPoint(lib, SYMBOLS[0]))]);
    var f2 := f1.(entryPoints := f1.entryPoints[1 := Some(EntryPoint(lib, SYMBOLS[1]))]);
    if answers.exports(EntryPoint(lib, SYMBOLS[0])) {
      assert WithEntryPoints(f, 0, answers) == WithEntryPoints(f1, 1, answers);
      if answers.exports(EntryPoint(lib, SYMBOLS[1])) {
        assert WithEntryPoints(f1, 1, answers) == WithEntryPoints(f2, 2, answers);
      }
    }
  }

  // ----------------------------------------------------------------------------- the classes

  /** dlopen and dlclose, counted. */
  class Loader {
    var opens: nat
    var closes: nat

    constructor ()
      ensures opens == 0 && closes == 0
    {
      opens, closes := 0, 0;
    }

    method OpenLibrary(name: string, answers: Answers) returns (handle: Option<string>)
      modifies this`opens
      ensures handle == if answers.opens(name) then Some(name) else None
      ensures opens == old(opens) + if handle.Some? then 1 else 0
    {
      if answers.opens(name) {
        opens := opens + 1;
        return Some(name);
      }
      return None;
    }

    method CloseLibrary(handle: string)
      modifies this`closes
      ensures closes == old(closes) + 1
    {
      closes := closes + 1;
    }

    method GetSymbol(handle: string, symbol: string, answers: Answers) returns (pointer: Option<EntryPoint>)
      ensures pointer == if answers.exports(EntryPoint(handle, symbol)) then Some(EntryPoint(handle, symbol)) else None
    {
      pointer := if answers.exports(EntryPoint(handle, symbol)) then Some(EntryPoint(handle, symbol)) else None;
    }
  }

  class JniInvocationImpl {
    var handle: Option<string>
    var getDefaultJavaVMInitArgs: Option<EntryPoint>
    var createJavaVM: Option<EntryPoint>
    var getCreatedJavaVMs: Option<EntryPoint>

    function Value(): Fields
      reads this
    {
      Fields(handle, [getDefaultJavaVMInitArgs, createJavaVM, getCreatedJavaVMs])
    }

    constructor ()
      ensures Value() == NEW_FIELDS
      ensures handle == None && getDefaultJavaVMInitArgs == None && createJavaVM == None && getCreatedJavaVMs == None
    {
      handle, getDefaultJavaVMInitArgs, createJavaVM, getCreatedJavaVMs := None, None, None, None;
    }

    /** On failure the library is closed and the handle forgotten. */
    method FindSymbol(loader: Loader, symbol: string, answers: Answers) returns (pointer: Option<EntryPoint>)
      requires handle.Some?
      modifies this`handle, loader`closes
      ensures pointer == if answers.exports(EntryPoint(old(handle.value), symbol))
                         then Some(EntryPoint(old(handle.value), symbol)) else None
      ensures handle == if pointer.Some? then old(handle) else None
      ensures loader.closes == old(loader.closes) + if pointer.Some? then 0 else 1
    {
      pointer := loader.GetSymbol(handle.value, symbol, answers);
      if pointer.None? {
        loader.CloseLibrary(handle.value);
        handle := None;
      }
    }

    /**
     Init.  It returns true if and only if it leaves a handle, and then all three entry points are
     those of that library.  The number of libraries it leaves open is one or zero accordingly;
     a handle held before is overwritten, not closed.
     */
    method Init(loader: Loader, android: bool, library: Option<string>, answers: Answers) returns (ok: bool)
      modifies this, loader
      ensures Value() == AfterInit(old(Value()), GetLibrary(android, library, android, answers), answers)
      ensures ok <==> handle.Some?
      ensures var name := GetLibrary(android, library, android, answers);
            var lib := if answers.opens(name) then name else "libart.so";
            && loader.opens == old(loader.opens) + (if answers.opens(lib) then 1 else 0)
            && loader.closes == old(loader.closes) + (if answers.opens(lib) && !ok then 1 else 0)
            && (ok <==>
                  && answers.opens(lib)
                  && answers.exports(EntryPoint(lib, "JNI_GetDefaultJavaVMInitArgs"))
                  && answers.exports(EntryPoint(lib, "JNI_CreateJavaVM"))
                  && answers.exports(EntryPoint(lib, "JNI_GetCreatedJavaVMs")))
            && (ok ==>
                  && handle == Some(lib)
                  && getDefaultJavaVMInitArgs == Some(EntryPoint(lib, "JNI_GetDefaultJavaVMInitArgs"))
                  && createJavaVM == Some(EntryPoint(lib, "JNI_CreateJavaVM"))
                  && getCreatedJavaVMs == Some(EntryPoint(lib, "JNI_GetCreatedJavaVMs")))
    {
      HandleAfterInit(Value(), GetLibrary(android, library, android, answers), answers);
      EntryPointsAfterInit(Value(), GetLibrary(android, library, android, answers), answers);
      var name := GetLibrary(android, library, android, answers);
      handle := loader.OpenLibrary(name, answers);
      if handle.None? {
        if name == LIBRARY_FALLBACK {
          return false;
        }
        name := LIBRARY_FALLBACK;
        handle := loader.OpenLibrary(name, answers);
        if handle.None? {
          return false;
        }
      }
      getDefaultJavaVMInitArgs := FindSymbol(loader, SYMBOLS[0], answers);
      if getDefaultJavaVMInitArgs.None? {
        return false;
      }
      createJavaVM := FindSymbol(loader, SYMBOLS[1], answers);
      if createJavaVM.None? {
        return false;
      }
      getCreatedJavaVMs := FindSymbol(loader, SYMBOLS[2], answers);
      return getCreatedJavaVMs.Some?;
    }
  }

  /** The static pointer to the one instance, and the functions that create and destroy instances. */
  class Process {
    var jniInvocation: JniInvocationImpl?
    const loader: Loader

    constructor ()
      ensures jniInvocation == null && fresh(loader) && loader.opens == loader.closes == 0
    {
      jniInvocation := null;
      loader := new Loader();
    }

    /** The constructor is fatal while another instance lives. */
    method Create() returns (instance: Checked<JniInvocationImpl>)
      modifies this`jniInvocation
      ensures instance.AssertionFailed? <==> old(jniInvocation) != null
      ensures instance.Returned? ==>
                && fresh(instance.value) && jniInvocation == instance.value
                && instance.value.Value() == NEW_FIELDS == Fields(None, [None, None, None])
      ensures instance.AssertionFailed? ==> jniInvocation == old(jniInvocation)
    {
      if jniInvocation != null {
        return AssertionFailed;
      }
      var created := new JniInvocationImpl();
      jniInvocation := created;
      return Returned(created);
    }

    /** Fatal while no instance lives. */
    method GetJniInvocation() returns (instance: Checked<JniInvocationImpl>)
      ensures instance == if jniInvocation == null then AssertionFailed else Returned(jniInvocation)
    {
      if jniInvocation == null {
        return AssertionFailed;
      }
      return Returned(jniInvocation);
    }

    method Destroy(instance: JniInvocationImpl?)
      modifies this`jniInvocation, loader`closes
      ensures jniInvocation == if instance == null then old(jniInvocation) else null
      ensures loader.closes == old(loader.closes) + if instance != null && instance.handle.Some? then 1 else 0
    {
      if instance != null {
        jniInvocation := null;
        if instance.handle.Some? {
          loader.CloseLibrary(instance.handle.value);
        }
      }
    }
  }

  // ------------------------------------------------------------------------------- histories

  /** The live instances by address, the static pointer, and the library counts; `fatal` after an abort. */
  datatype World = World(live: map<nat, Fields>, pointer: Option<nat>, opens: nat, closes: nat, fatal: bool)

  const NEW_WORLD := World(map[], None, 0, 0, false)

  datatype Operation =
    | CreateAt(address: nat)
    | InitAt(address: nat, library: Option<string>, answers: Answers)
    | DestroyAt(address: nat)

  predicate Allowed(w: World, op: Operation) {
    && !w.fatal
    && match op
       case CreateAt(a) => a !in w.live
       case InitAt(a, _, _) => a in w.live && |w.live[a].entryPoints| == 3
       case DestroyAt(a) => a in w.live
  }

  function After(w: World, android: bool, op: Operation): World
    requires Allowed(w, op)
  {
    match op
    case CreateAt(a) =>
      if w.pointer.Some? then w.(fatal := true)
      else w.(live := w.live[a := NEW_FIELDS], pointer := Some(a))
    case InitAt(a, library, answers) =>
      var name := GetLibrary(android, library, android, answers);
      var f' := AfterInit(w.live[a], name, answers);
      var loaded := Opened(name, answers).Some?;
      w.(live := w.live[a := f'],
         opens := w.opens + (if loaded then 1 else 0),
         closes := w.closes + (if loaded && f'.handle.None? then 1 else 0))
    case DestroyAt(a) =>
      w.(live := w.live - {a}, pointer := None, closes := w.closes + (if w.live[a].handle.Some? then 1 else 0))
  }

  predicate IsHistory(worlds: seq<World>, android: bool, ops: seq<Operation>) {
    && |worlds| == |ops| + 1
    && worlds[0] == NEW_WORLD
    && forall i | 0 <= i < |ops| :: Allowed(worlds[i], ops[i]) && worlds[i + 1] == After(worlds[i], android, ops[i])
  }

  /** The step repeats Init on an instance that holds a library. */
  predicate Overwrites(w: World, op: Operation) {
    op.InitAt? && op.address in w.live && w.live[op.address].handle.Some?
  }

  function Overwritten(worlds: seq<World>, ops: seq<Operation>, i: nat): nat
    requires i <= |ops| && i <= |worlds|
  {
    if i == 0 then 0
    else Overwritten(worlds, ops, i - 1) + if Overwrites(worlds[i - 1], ops[i - 1]) then 1 else 0
  }

  function HeldBy(w: World): nat {
    if w.pointer.Some? && w.pointer.value in w.live && w.live[w.pointer.value].handle.Some? then 1 else 0
  }

  /** The pointer designates the one live instance, if there is one. */
  ghost predicate Singleton(w: World) {
    && w.live.Keys == (match w.pointer case None => {} case Some(a) => {a})
    && (forall a | a in w.live :: |w.live[a].entryPoints| == 3)
    && (forall a | a in w.live && w.live[a].handle.Some? ::
          forall k | 0 <= k < 3 ::
            w.live[a].entryPoints[k] == Some(EntryPoint(w.live[a].handle.value, SYMBOLS[k])))
  }

  lemma SingletonAfter(w: World, android: bool, op: Operation)
    requires Singleton(w) && Allowed(w, op)
    ensures Singleton(After(w, android, op))
  {
    hide AfterInit, GetLibrary, Opened;
  }

  lemma BalanceAfter(w: World, android: bool, op: Operation)
    requires Singleton(w) && Allowed(w, op)
    ensures var w' := After(w, android, op);
            w'.opens - w'.closes - HeldBy(w') ==
            w.opens - w.closes - HeldBy(w) + if Overwrites(w, op) then 1 else 0
  {
    SingletonAfter(w, android, op);
    hide GetLibrary, Opened, WithEntryPoints;
    if op.InitAt? {
      assert w.pointer == Some(op.address);
    }
  }

  /**
   In every history the pointer designates the one live instance, and the libraries left open are
   the one that this instance holds and one for each Init repeated after success.
   */
  lemma {:induction false} LibrariesBalance(worlds: seq<World>, android: bool, ops: seq<Operation>, i: nat)
    requires IsHistory(worlds, android, ops) && i < |worlds|
    ensures Singleton(worlds[i])
    ensures worlds[i].opens - worlds[i].closes == HeldBy(worlds[i]) + Overwritten(worlds, ops, i)
  {
    hide After, Allowed, Singleton;
    if i == 0 {
      NewWorldSingleton();
    } else {
      LibrariesBalance(worlds, android, ops, i - 1);
      SingletonAfter(worlds[i - 1], android, ops[i - 1]);
      BalanceAfter(worlds[i - 1], android, ops[i - 1]);
    }
  }

  lemma NewWorldSingleton()
    ensures Singleton(NEW_WORLD)
  {
  }

  /** Histories begin with no instance and go on, unless aborted, with any operation on instances that are there. */
  lemma HistoriesGoOn(worlds: seq<World>, android: bool, ops: seq<Operation>, op: Operation)
    ensures IsHistory([World(map[], None, 0, 0, false)], android, [])
    ensures IsHistory(worlds, android, ops) && Allowed(worlds[|ops|], op) ==>
              IsHistory(worlds + [After(worlds[|ops|], android, op)], android, ops + [op])
    ensures IsHistory(worlds, android, ops) ==> (Allowed(worlds[|ops|], op) <==>
              && !worlds[|ops|].fatal
              && if op.CreateAt? then op.address !in worlds[|ops|].live else op.address in worlds[|ops|].live)
  {
    if IsHistory(worlds, android, ops) {
      LibrariesBalance(worlds, android, ops, |ops|);
    }
    hide After;
  }

  /** One library is open exactly while an instance holds one, if and only if Init is never repeated after success. */
  lemma BalancedIffNeverOverwritten(worlds: seq<World>, android: bool, ops: seq<Operation>, i: nat)
    requires IsHistory(worlds, android, ops) && i < |worlds|
    ensures worlds[i].opens - worlds[i].closes == HeldBy(worlds[i]) <==>
              forall k | 0 <= k < i && ops[k].InitAt? :: worlds[k].live[ops[k].address].handle == None
    ensures HeldBy(worlds[i]) == 1 <==> exists a | a in worlds[i].live :: worlds[i].live[a].handle.Some?
    ensures HeldBy(worlds[i]) <= 1
  {
    LibrariesBalance(worlds, android, ops, i);
    OverwrittenZero(worlds, ops, i);
  }

  lemma {:induction false} OverwrittenZero(worlds: seq<World>, ops: seq<Operation>, i: nat)
    requires i <= |ops| && i <= |worlds|
    ensures Overwritten(worlds, ops, i) == 0 <==> forall k | 0 <= k < i :: !Overwrites(worlds[k], ops[k])
  {
    if i > 0 {
      OverwrittenZero(worlds, ops, i - 1);
    }
  }
}
