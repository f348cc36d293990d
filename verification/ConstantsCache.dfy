/**
 The cache of class references and of field and method ids, as a transition system: any number
 of threads, each taking one atomic action at a time, over a memory in which a thread may read
 any write that is not older than what it has already seen of that location.

 Acquire and release are explicit.  A release store records the view of the storing thread, and
 an acquire load that reads it takes that view over; locking takes over the view left by the
 last unlock.  Plain and relaxed accesses transfer no view.  Interleavings in which every read
 returns the latest write are the special case of sequential consistency.
 */
module ConstantsCache {

  // ------------------------------------------------------------------------------- locations

  /** The seventeen cached values, numbered in the order in which Uninitialize clears them. */
  type Slot = n: nat | n < SLOTS

  const SLOTS: nat := 17

  const FILE_DESCRIPTOR_CLASS: Slot := 0
  const NIO_ACCESS_CLASS: Slot := 4
  const NIO_BUFFER_CLASS: Slot := 7
  const REFERENCE_CLASS: Slot := 14
  const STRING_CLASS: Slot := 16

  predicate IsClass(l: Slot) {
    l in {FILE_DESCRIPTOR_CLASS, NIO_ACCESS_CLASS, NIO_BUFFER_CLASS, REFERENCE_CLASS, STRING_CLASS}
  }

  /** The class in which the id of a slot is looked up; a class slot is its own class. */
  function ClassOf(l: Slot): (c: Slot)
    ensures IsClass(c) && c <= l
    ensures forall k: Slot | c < k <= l :: !IsClass(k)
  {
    if l < NIO_ACCESS_CLASS then FILE_DESCRIPTOR_CLASS
    else if l < NIO_BUFFER_CLASS then NIO_ACCESS_CLASS
    else if l < REFERENCE_CLASS then NIO_BUFFER_CLASS
    else if l < STRING_CLASS then REFERENCE_CLASS
    else STRING_CLASS
  }

  /** The class slot that is initialized after `l`; SLOTS after the last one. */
  function NextClass(l: Slot): nat {
    if l < NIO_ACCESS_CLASS then NIO_ACCESS_CLASS
    else if l < NIO_BUFFER_CLASS then NIO_BUFFER_CLASS
    else if l < REFERENCE_CLASS then REFERENCE_CLASS
    else if l < STRING_CLASS then STRING_CLASS
    else SLOTS
  }

  /**
   Global references and ids belong to the VM whose JNIEnv they were obtained from, and an id to
   the class in which it was looked up.
   */
  datatype Value = Null | ClassRef(class_: Slot, vm: nat) | MemberId(member: Slot, class_: Slot, vm: nat)

  /** What the getter of a slot is to return while VM number `vm` is the current one. */
  function Canonical(l: Slot, vm: nat): Value {
    if IsClass(l) then ClassRef(l, vm) else MemberId(l, ClassOf(l), vm)
  }

  // ---------------------------------------------------------------------------------- memory

  /** How far a thread has seen: an index into the writes to the flag, and to each slot. */
  type View = v: RawView | |v.slots| == SLOTS witness RawView(0, seq(SLOTS, _ => 0))

  datatype RawView = RawView(flag: nat, slots: seq<nat>)

  const ZERO_VIEW: View := RawView(0, seq(SLOTS, _ => 0))

  function Max(a: nat, b: nat): nat {
    if a < b then b else a
  }

  function Join(v: View, w: View): (j: View)
    ensures j.flag == Max(v.flag, w.flag)
    ensures forall l: Slot :: j.slots[l] == Max(v.slots[l], w.slots[l])
  {
    RawView(Max(v.flag, w.flag), seq(SLOTS, i requires 0 <= i < SLOTS => Max(v.slots[i], w.slots[i])))
  }

  function Saw(v: View, l: Slot, time: nat): View {
    v.(slots := v.slots[l := time])
  }

  /** A store to the atomic flag; both stores of the original are release stores. */
  datatype FlagWrite = FlagWrite(value: bool, view: View)

  /** A free mutex keeps the view of the thread that released it. */
  datatype Mutex = Free(view: View) | Held(owner: nat)

  // --------------------------------------------------------------------------------- threads

  datatype PC =
    // a class getter: EnsureClassReferencesInitialized, then the read of the slot
    | LoadFlag
    | AcquireMutex
    | Recheck
    | InitSlot(next: Slot)
    | StoreFlag
    | ReleaseMutex
    | ReadSlot
    // an id getter
    | CheckId
    | AwaitClass
    | InFind(klass: Value)
    | StoreId(id: Value)
    | ReadId
    // either kind of getter, about to return
    | Return(value: Value)
    // JNI_CreateJavaVM: Uninitialize, then the creation of the VM
    | ResetAcquire
    | ResetSlot(clear: Slot)
    | ResetFlag
    | ResetRelease
    | CreateVm

  /** One activation of the getter of `slot` (or of the reset, for which `slot` has no meaning). */
  datatype Frame = Frame(slot: Slot, pc: PC)

  /** `env` is the VM that the thread is attached to; the innermost activation is last. */
  datatype Thread = Thread(env: nat, view: View, stack: seq<Frame>)

  /**
   `flag` and `slots` hold every write so far, oldest first.  `epoch` counts the VMs created, and
   `created` is the view with which the current one was created.
   */
  datatype State = State(
    epoch: nat,
    created: View,
    flag: seq<FlagWrite>,
    slots: seq<seq<Value>>,
    mutex: Mutex,
    threads: seq<Thread>)

  ghost predicate Initial(s: State) {
    && s.epoch == 0
    && s.created == ZERO_VIEW
    && s.flag == [FlagWrite(false, ZERO_VIEW)]
    && s.slots == seq(SLOTS, _ => [Null])
    && s.mutex == Free(ZERO_VIEW)
    && forall t | 0 <= t < |s.threads| :: s.threads[t] == Thread(0, ZERO_VIEW, [])
  }

  /** A view points at existing writes. */
  ghost predicate Within(v: View, s: State) {
    && |s.slots| == SLOTS
    && v.flag < |s.flag|
    && forall l: Slot :: v.slots[l] < |s.slots[l]|
  }

  ghost predicate Shape(s: State) {
    && |s.slots| == SLOTS
    && Within(s.created, s)
    && (s.mutex.Free? ==> Within(s.mutex.view, s))
    && (s.mutex.Held? ==> s.mutex.owner < |s.threads|)
    && (forall k | 0 <= k < |s.flag| :: Within(s.flag[k].view, s))
    && (forall t | 0 <= t < |s.threads| :: Within(s.threads[t].view, s))
  }

  // ----------------------------------------------------------------------------------- steps

  /**
   Act is one atomic action of a thread's innermost activation; `time` is the write that it reads,
   where it reads one.  Call starts a getter, either at top level or from inside a Get*ID call
   that re-enters.  Reset starts JNI_CreateJavaVM.  Attach gives a thread an env of the current
   VM, and Synchronize is any synchronization between two threads outside this code.
   */
  datatype Step =
    | Act(t: nat, time: nat)
    | Call(t: nat, slot: Slot)
    | Reset(t: nat)
    | Attach(t: nat)
    | Synchronize(t: nat, with_: nat)

  function Top(th: Thread): Frame
    requires th.stack != []
  {
    th.stack[|th.stack| - 1]
  }

  /** The thread with the innermost activation moved on to `pc`. */
  function Goto(th: Thread, pc: PC): Thread
    requires th.stack != []
  {
    th.(stack := th.stack[|th.stack| - 1 := Top(th).(pc := pc)])
  }

  function Push(th: Thread, f: Frame): Thread {
    th.(stack := th.stack + [f])
  }

  function See(th: Thread, v: View): Thread {
    th.(view := v)
  }

  /** The thread with the innermost activation gone; its value reaches a getter that waits for a class. */
  function Pop(th: Thread, value: Value): Thread
    requires th.stack != []
  {
    var rest := th.(stack := th.stack[..|th.stack| - 1]);
    if rest.stack != [] && Top(rest).pc.AwaitClass? then Goto(rest, InFind(value)) else rest
  }

  /** What a step does to the shared state. */
  datatype Effect = Nothing | Store(slot: Slot, value: Value) | SetFlag(initialized: bool) | Lock | Unlock | NewVm

  /** A step changes the shared state and the thread that takes it. */
  datatype Outcome = Outcome(effect: Effect, thread: Thread)

  /** Whether the innermost activation of a thread can act, reading the write `time` where it reads. */
  predicate CanAct(s: State, t: nat, time: nat) {
    && |s.slots| == SLOTS
    && t < |s.threads| && s.threads[t].stack != []
    && var th := s.threads[t];
       var f := Top(th);
       match f.pc
       case LoadFlag => th.view.flag <= time < |s.flag|
       case Recheck => th.view.flag <= time < |s.flag|
       case ReadSlot => th.view.slots[f.slot] <= time < |s.slots[f.slot]|
       case CheckId => th.view.slots[f.slot] <= time < |s.slots[f.slot]|
       case ReadId => th.view.slots[f.slot] <= time < |s.slots[f.slot]|
       case AcquireMutex => s.mutex.Free?
       case ResetAcquire => s.mutex.Free?
       case AwaitClass => false
       case InFind(klass) => !klass.Null?
       case _ => true
  }

  predicate InClassGetter(pc: PC) {
    pc.LoadFlag? || pc.AcquireMutex? || pc.Recheck? || pc.InitSlot? || pc.StoreFlag? || pc.ReleaseMutex? || pc.ReadSlot?
  }

  predicate InIdGetter(pc: PC) {
    pc.CheckId? || pc.AwaitClass? || pc.InFind? || pc.StoreId? || pc.ReadId?
  }

  predicate InReset(pc: PC) {
    pc.ResetAcquire? || pc.ResetSlot? || pc.ResetFlag? || pc.ResetRelease? || pc.CreateVm?
  }

  /** A class getter: EnsureClassReferencesInitialized, then the read of the slot. */
  function ActInClassGetter(s: State, t: nat, time: nat): Outcome
    requires CanAct(s, t, time) && InClassGetter(Top(s.threads[t]).pc)
  {
    var th := s.threads[t];
    var f := Top(th);
    match f.pc
    case LoadFlag =>
      // acquire load
      var seen := See(th, Join(th.view.(flag := time), s.flag[time].view));
      Outcome(Nothing, Goto(seen, if s.flag[time].value then ReadSlot else AcquireMutex))
    case AcquireMutex =>
      Outcome(Lock, Goto(See(th, Join(th.view, s.mutex.view)), Recheck))
    case Recheck =>
      // relaxed load
      var seen := See(th, th.view.(flag := time));
      Outcome(Nothing, Goto(seen, if s.flag[time].value then ReleaseMutex else InitSlot(FILE_DESCRIPTOR_CLASS)))
    case InitSlot(l) =>
      // FindClass and NewGlobalRef through the thread's env, then a plain store
      var seen := See(th, Saw(th.view, l, |s.slots[l]|));
      Outcome(Store(l, ClassRef(l, th.env)),
              Goto(seen, if NextClass(l) < SLOTS then InitSlot(NextClass(l)) else StoreFlag))
    case StoreFlag =>
      Outcome(SetFlag(true), Goto(See(th, th.view.(flag := |s.flag|)), ReleaseMutex))
    case ReleaseMutex =>
      Outcome(Unlock, Goto(th, ReadSlot))
    case ReadSlot =>
      Outcome(Nothing, Goto(See(th, Saw(th.view, f.slot, time)), Return(s.slots[f.slot][time])))
  }

  /** An id getter. */
  function ActInIdGetter(s: State, t: nat, time: nat): Outcome
    requires CanAct(s, t, time) && InIdGetter(Top(s.threads[t]).pc)
  {
    var th := s.threads[t];
    var f := Top(th);
    match f.pc
    case CheckId =>
      var seen := See(th, Saw(th.view, f.slot, time));
      Outcome(Nothing,
              if s.slots[f.slot][time].Null?
              then Push(Goto(seen, AwaitClass), Frame(ClassOf(f.slot), LoadFlag))
              else Goto(seen, ReadId))
    case InFind(klass) =>
      // Get*ID is deterministic for a class of a given VM
      Outcome(Nothing, Goto(th, StoreId(MemberId(f.slot, klass.class_, klass.vm))))
    case StoreId(id) =>
      Outcome(Store(f.slot, id), Goto(See(th, Saw(th.view, f.slot, |s.slots[f.slot]|)), ReadId))
    case ReadId =>
      Outcome(Nothing, Goto(See(th, Saw(th.view, f.slot, time)), Return(s.slots[f.slot][time])))
  }

  /** JNI_CreateJavaVM. */
  function ActInReset(s: State, t: nat, time: nat): Outcome
    requires CanAct(s, t, time) && InReset(Top(s.threads[t]).pc)
  {
    var th := s.threads[t];
    match Top(th).pc
    case ResetAcquire =>
      Outcome(Lock, Goto(See(th, Join(th.view, s.mutex.view)), ResetSlot(0)))
    case ResetSlot(l) =>
      var seen := See(th, Saw(th.view, l, |s.slots[l]|));
      Outcome(Store(l, Null), Goto(seen, if l + 1 < SLOTS then ResetSlot(l + 1) else ResetFlag))
    case ResetFlag =>
      Outcome(SetFlag(false), Goto(See(th, th.view.(flag := |s.flag|)), ResetRelease))
    case ResetRelease =>
      Outcome(Unlock, Goto(th, CreateVm))
    case CreateVm =>
      Outcome(NewVm, Thread(s.epoch + 1, th.view, th.stack[..|th.stack| - 1]))
  }

  predicate Enabled(s: State, step: Step) {
    match step
    case Act(t, time) => CanAct(s, t, time)
    case Call(t, slot) => t < |s.threads| && (s.threads[t].stack == [] || Top(s.threads[t]).pc.InFind?)
    case Reset(t) => t < |s.threads| && s.threads[t].stack == []
    case Attach(t) => t < |s.threads|
    case Synchronize(t, u) => t < |s.threads| && u < |s.threads|
  }

  function OutcomeOf(s: State, step: Step): Outcome
    requires Enabled(s, step)
  {
    var th := s.threads[step.t];
    match step
    case Act(t, time) =>
      var pc := Top(th).pc;
      if pc.Return? then Outcome(Nothing, Pop(th, pc.value))
      else if InClassGetter(pc) then ActInClassGetter(s, t, time)
      else if InIdGetter(pc) then ActInIdGetter(s, t, time)
      else ActInReset(s, t, time)
    case Call(t, slot) =>
      Outcome(Nothing, Push(th, Frame(slot, if IsClass(slot) then LoadFlag else CheckId)))
    case Reset(t) =>
      Outcome(Nothing, Push(th, Frame(0, ResetAcquire)))
    case Attach(t) =>
      Outcome(Nothing, th.(env := s.epoch, view := Join(th.view, s.created)))
    case Synchronize(t, u) =>
      Outcome(Nothing, See(th, Join(th.view, s.threads[u].view)))
  }

  function Perform(s: State, t: nat, o: Outcome): State
    requires |s.slots| == SLOTS && t < |s.threads|
  {
    var s' := s.(threads := s.threads[t := o.thread]);
    match o.effect
    case Nothing => s'
    case Store(l, value) => s'.(slots := s.slots[l := s.slots[l] + [value]])
    case SetFlag(initialized) => s'.(flag := s.flag + [FlagWrite(initialized, o.thread.view)])
    case Lock => s'.(mutex := Held(t))
    case Unlock => s'.(mutex := Free(o.thread.view))
    case NewVm => s'.(epoch := s.epoch + 1, created := o.thread.view)
  }

  function Apply(s: State, step: Step): State
    requires |s.slots| == SLOTS && Enabled(s, step)
  {
    Perform(s, step.t, OutcomeOf(s, step))
  }

  ghost predicate StepTo(s: State, step: Step, s': State) {
    |s.slots| == SLOTS && Enabled(s, step) && s' == Apply(s, step)
  }

  /** Executions: each state comes from the one before by the step of the same number. */
  ghost predicate IsRun(states: seq<State>, steps: seq<Step>) {
    && |states| == |steps| + 1
    && Initial(states[0])
    && forall i | 0 <= i < |steps| :: StepTo(states[i], steps[i], states[i + 1])
  }
}
