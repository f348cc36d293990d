/**
 What the mutex and the flag guarantee in every execution of the constants cache, whatever the
 threads do: calls may overlap resets, and threads may hold the env of an older VM.
 */
module ConstantsLocking {
  import opened ConstantsCache

  // ------------------------------------------------------------------------------ invariants

  predicate FrameOk(f: Frame) {
    && (InClassGetter(f.pc) ==> IsClass(f.slot))
    && (InIdGetter(f.pc) ==> !IsClass(f.slot))
    && (f.pc.InitSlot? ==> IsClass(f.pc.next))
  }

  /** Only a getter that is looking up an id, or waiting for its class, has an activation above it. */
  ghost predicate StackOk(stack: seq<Frame>) {
    && (forall k | 0 <= k < |stack| :: FrameOk(stack[k]))
    && (forall k | 0 <= k < |stack| - 1 ::
          || stack[k].pc.InFind?
          || (stack[k].pc.AwaitClass? && stack[k + 1].slot == ClassOf(stack[k].slot)))
    && (stack != [] ==> !stack[|stack| - 1].pc.AwaitClass?)
    && (forall k | 0 <= k < |stack| :: InReset(stack[k].pc) ==> |stack| == 1)
  }

  /** The program points at which a thread holds the mutex. */
  predicate InCriticalSection(th: Thread) {
    th.stack != [] &&
    var pc := Top(th).pc;
    pc.Recheck? || pc.InitSlot? || pc.StoreFlag? || pc.ReleaseMutex? || pc.ResetSlot? || pc.ResetFlag? || pc.ResetRelease?
  }

  ghost predicate StacksOk(s: State) {
    forall t | 0 <= t < |s.threads| :: StackOk(s.threads[t].stack)
  }

  ghost predicate MutualExclusion(s: State) {
    forall t | 0 <= t < |s.threads| :: InCriticalSection(s.threads[t]) <==> s.mutex == Held(t)
  }

  /** The view that travels with the mutex. */
  function LockView(s: State): View
    requires s.mutex.Held? ==> s.mutex.owner < |s.threads|
  {
    match s.mutex
    case Free(view) => view
    case Held(t) => s.threads[t].view
  }

  /** Who may lock has seen the latest write to the flag and to every class slot. */
  ghost predicate LockViewIsLatest(s: State)
    requires Shape(s)
  {
    && LockView(s).flag == |s.flag| - 1
    && forall l: Slot | IsClass(l) :: LockView(s).slots[l] == |s.slots[l]| - 1
  }

  function Latest(s: State, l: Slot): Value
    requires |s.slots| == SLOTS && |s.slots[l]| > 0
  {
    s.slots[l][|s.slots[l]| - 1]
  }

  function LatestFlag(s: State): bool
    requires |s.flag| > 0
  {
    s.flag[|s.flag| - 1].value
  }

  /** The class slots below `bound` are set and the others are not. */
  ghost predicate SetBelow(s: State, bound: nat)
    requires Shape(s)
  {
    forall l: Slot | IsClass(l) :: Latest(s, l).Null? <==> l >= bound
  }

  /** The flag tells whether all class slots are set or none is. */
  ghost predicate FlagTells(s: State)
    requires Shape(s)
  {
    SetBelow(s, if LatestFlag(s) then SLOTS else 0)
  }

  /** The flag and the class slots while the thread that holds the mutex is at `pc`. */
  ghost predicate PhaseAt(s: State, pc: PC)
    requires Shape(s)
  {
    match pc
    case InitSlot(l) => !LatestFlag(s) && SetBelow(s, l)
    case StoreFlag => !LatestFlag(s) && SetBelow(s, SLOTS)
    case ReleaseMutex => LatestFlag(s) && SetBelow(s, SLOTS)
    case ResetSlot(i) => forall l: Slot | IsClass(l) :: Latest(s, l).Null? <==> l < i || !LatestFlag(s)
    case ResetFlag => SetBelow(s, 0)
    case _ => FlagTells(s)
  }

  ghost predicate PhaseOk(s: State)
    requires Shape(s)
  {
    match s.mutex
    case Free(_) => FlagTells(s)
    case Held(t) => s.threads[t].stack != [] && PhaseAt(s, Top(s.threads[t]).pc)
  }

  predicate NullAtOneOf(history: seq<Value>, k: nat) {
    k + 1 < |history| ==> history[k].Null? || history[k + 1].Null?
  }

  /** Between two writes of a reference to a class slot there is one that clears it. */
  ghost predicate ReferencesAlternate(s: State)
    requires Shape(s)
  {
    forall l: Slot, k: nat | IsClass(l) :: NullAtOneOf(s.slots[l], k)
  }

  ghost predicate LockingInvariant(s: State) {
    && Shape(s)
    && StacksOk(s)
    && MutualExclusion(s)
    && LockViewIsLatest(s)
    && PhaseOk(s)
    && ReferencesAlternate(s)
  }

  // ------------------------------------------------------------- what a step does, in general

  ghost predicate ViewAtMost(v: View, w: View) {
    v.flag <= w.flag && forall l: Slot :: v.slots[l] <= w.slots[l]
  }

  /** Views only grow, and what a thread sees after a step has been written by then. */
  ghost predicate ViewAdvances(s: State, before: View, o: Outcome)
    requires |s.slots| == SLOTS
  {
    && ViewAtMost(before, o.thread.view)
    && match o.effect
       case Store(l, _) => o.thread.view == Saw(before, l, |s.slots[l]|)
       case SetFlag(_) => o.thread.view == before.(flag := |s.flag|)
       case Lock => Within(o.thread.view, s) && s.mutex.Free? && ViewAtMost(s.mutex.view, o.thread.view)
       case _ => Within(o.thread.view, s)
  }

  lemma ClassGetterAdvances(s: State, t: nat, time: nat)
    requires Shape(s) && CanAct(s, t, time) && InClassGetter(Top(s.threads[t]).pc)
    ensures ViewAdvances(s, s.threads[t].view, ActInClassGetter(s, t, time))
  {
    var pc := Top(s.threads[t]).pc;
    if pc.LoadFlag? {
      assert Within(s.flag[time].view, s);
    }
  }

  lemma IdGetterAdvances(s: State, t: nat, time: nat)
    requires Shape(s) && CanAct(s, t, time) && InIdGetter(Top(s.threads[t]).pc)
    ensures ViewAdvances(s, s.threads[t].view, ActInIdGetter(s, t, time))
  {
  }

  lemma ResetAdvances(s: State, t: nat, time: nat)
    requires Shape(s) && CanAct(s, t, time) && InReset(Top(s.threads[t]).pc)
    ensures ViewAdvances(s, s.threads[t].view, ActInReset(s, t, time))
  {
  }

  lemma OutcomeAdvances(s: State, step: Step)
    requires Shape(s) && Enabled(s, step)
    ensures ViewAdvances(s, s.threads[step.t].view, OutcomeOf(s, step))
  {
    hide ActInClassGetter;
    hide ActInIdGetter;
    hide ActInReset;
    if step.Act? {
      var pc := Top(s.threads[step.t]).pc;
      if InClassGetter(pc) {
        ClassGetterAdvances(s, step.t, step.time);
      } else if InIdGetter(pc) {
        IdGetterAdvances(s, step.t, step.time);
      } else if InReset(pc) {
        ResetAdvances(s, step.t, step.time);
      }
    }
  }

  /** No write is ever taken back. */
  ghost predicate HistoriesGrow(s: State, s': State)
    requires |s.slots| == SLOTS == |s'.slots|
  {
    && s.flag <= s'.flag
    && forall l: Slot :: s.slots[l] <= s'.slots[l]
  }

  lemma WithinGrown(v: View, s: State, s': State)
    requires |s.slots| == SLOTS == |s'.slots| && HistoriesGrow(s, s') && Within(v, s)
    ensures Within(v, s')
  {
  }

  lemma OwnViewWithin(s: State, t: nat, o: Outcome)
    requires Shape(s) && t < |s.threads| && ViewAdvances(s, s.threads[t].view, o)
    ensures Within(o.thread.view, Perform(s, t, o))
    ensures HistoriesGrow(s, Perform(s, t, o))
  {
    assert Within(s.threads[t].view, s);
  }

  lemma PerformKeepsShape(s: State, t: nat, o: Outcome)
    requires Shape(s) && t < |s.threads| && ViewAdvances(s, s.threads[t].view, o)
    ensures Shape(Perform(s, t, o))
  {
    var s' := Perform(s, t, o);
    OwnViewWithin(s, t, o);
    hide Within;
    hide HistoriesGrow;
    hide ViewAdvances;
    WithinGrown(s.created, s, s');
    if s.mutex.Free? {
      WithinGrown(s.mutex.view, s, s');
    }
    forall k | 0 <= k < |s'.flag| ensures Within(s'.flag[k].view, s') {
      if k < |s.flag| {
        WithinGrown(s.flag[k].view, s, s');
      }
    }
    forall u | 0 <= u < |s'.threads| ensures Within(s'.threads[u].view, s') {
      if u != t {
        WithinGrown(s.threads[u].view, s, s');
      }
    }
  }

  // ---------------------------------------------------------------------------------- stacks

  lemma GotoKeepsStack(th: Thread, pc: PC)
    requires StackOk(th.stack) && th.stack != []
    requires FrameOk(Top(th).(pc := pc)) && !pc.AwaitClass? && (InReset(pc) ==> InReset(Top(th).pc))
    ensures StackOk(Goto(th, pc).stack)
  {
  }

  lemma PushKeepsStack(th: Thread, f: Frame)
    requires StackOk(th.stack) && FrameOk(f) && !f.pc.AwaitClass?
    requires th.stack == [] || Top(th).pc.InFind?
    requires InReset(f.pc) ==> th.stack == []
    ensures StackOk(Push(th, f).stack)
  {
  }

  lemma AwaitKeepsStack(th: Thread)
    requires StackOk(th.stack) && th.stack != [] && Top(th).pc.CheckId?
    ensures StackOk(Push(Goto(th, AwaitClass), Frame(ClassOf(Top(th).slot), LoadFlag)).stack)
  {
  }

  lemma PopKeepsStack(th: Thread, value: Value)
    requires StackOk(th.stack) && th.stack != []
    ensures StackOk(Pop(th, value).stack)
  {
    var stack, rest := th.stack, th.stack[..|th.stack| - 1];
    if rest != [] {
      var below := rest[|rest| - 1];
      assert below == stack[|stack| - 2];
      if below.pc.AwaitClass? {
        assert Pop(th, value).stack == rest[|rest| - 1 := below.(pc := InFind(value))];
        assert FrameOk(below.(pc := InFind(value)));
      } else {
        assert Pop(th, value).stack == rest;
      }
    }
  }

  lemma ClassGetterKeepsStack(s: State, t: nat, time: nat)
    requires CanAct(s, t, time) && InClassGetter(Top(s.threads[t]).pc) && StackOk(s.threads[t].stack)
    ensures StackOk(ActInClassGetter(s, t, time).thread.stack)
  {
    var th, o := s.threads[t], ActInClassGetter(s, t, time);
    assert FrameOk(th.stack[|th.stack| - 1]);
    GotoKeepsStack(th, Top(o.thread).pc);
  }

  lemma IdGetterKeepsStack(s: State, t: nat, time: nat)
    requires CanAct(s, t, time) && InIdGetter(Top(s.threads[t]).pc) && StackOk(s.threads[t].stack)
    ensures StackOk(ActInIdGetter(s, t, time).thread.stack)
  {
    var th, o := s.threads[t], ActInIdGetter(s, t, time);
    assert FrameOk(th.stack[|th.stack| - 1]);
    if Top(th).pc.CheckId? && s.slots[Top(th).slot][time].Null? {
      AwaitKeepsStack(th);
    } else {
      GotoKeepsStack(th, Top(o.thread).pc);
    }
  }

  lemma ResetKeepsStack(s: State, t: nat, time: nat)
    requires CanAct(s, t, time) && InReset(Top(s.threads[t]).pc) && StackOk(s.threads[t].stack)
    ensures StackOk(ActInReset(s, t, time).thread.stack)
  {
    var th, o := s.threads[t], ActInReset(s, t, time);
    assert th.stack == [Top(th)];
    if Top(th).pc.CreateVm? {
      assert o.thread.stack == [];
    } else {
      GotoKeepsStack(th, Top(o.thread).pc);
    }
  }

  lemma OutcomeKeepsStack(s: State, step: Step)
    requires |s.slots| == SLOTS && Enabled(s, step) && StackOk(s.threads[step.t].stack)
    ensures StackOk(OutcomeOf(s, step).thread.stack)
  {
    hide ActInClassGetter;
    hide ActInIdGetter;
    hide ActInReset;
    hide StackOk;
    var th := s.threads[step.t];
    match step
    case Act(t, time) =>
      var pc := Top(th).pc;
      if pc.Return? {
        PopKeepsStack(th, pc.value);
      } else if InClassGetter(pc) {
        ClassGetterKeepsStack(s, t, time);
      } else if InIdGetter(pc) {
        IdGetterKeepsStack(s, t, time);
      } else {
        ResetKeepsStack(s, t, time);
      }
    case Call(t, slot) =>
      PushKeepsStack(th, Frame(slot, if IsClass(slot) then LoadFlag else CheckId));
    case Reset(t) =>
      PushKeepsStack(th, Frame(0, ResetAcquire));
    case Attach(_) =>
    case Synchronize(_, _) =>
  }

  lemma StacksKept(s: State, step: Step)
    requires |s.slots| == SLOTS && Enabled(s, step) && StacksOk(s)
    ensures StacksOk(Apply(s, step))
  {
    hide OutcomeOf;
    hide StackOk;
    OutcomeKeepsStack(s, step);
  }

  // ------------------------------------------------------------------------- mutual exclusion

  /** How an outcome moves a thread into and out of the critical section. */
  ghost predicate CriticalityFollows(before: Thread, o: Outcome) {
    match o.effect
    case Lock => !InCriticalSection(before) && InCriticalSection(o.thread)
    case Unlock => InCriticalSection(before) && !InCriticalSection(o.thread)
    case Store(l, _) => (IsClass(l) ==> InCriticalSection(before)) && (InCriticalSection(before) <==> InCriticalSection(o.thread))
    case SetFlag(_) => InCriticalSection(before) && InCriticalSection(o.thread)
    case _ => InCriticalSection(before) <==> InCriticalSection(o.thread)
  }

  lemma ClassGetterCriticality(s: State, t: nat, time: nat)
    requires CanAct(s, t, time) && InClassGetter(Top(s.threads[t]).pc)
    ensures CriticalityFollows(s.threads[t], ActInClassGetter(s, t, time))
    ensures ActInClassGetter(s, t, time).effect.Lock? ==> s.mutex.Free?
  {
    hide Join, Saw;
  }

  lemma IdGetterCriticality(s: State, t: nat, time: nat)
    requires CanAct(s, t, time) && InIdGetter(Top(s.threads[t]).pc) && FrameOk(Top(s.threads[t]))
    ensures CriticalityFollows(s.threads[t], ActInIdGetter(s, t, time))
    ensures !ActInIdGetter(s, t, time).effect.Lock?
  {
    hide Join, Saw;
  }

  lemma ResetCriticality(s: State, t: nat, time: nat)
    requires CanAct(s, t, time) && InReset(Top(s.threads[t]).pc) && StackOk(s.threads[t].stack)
    ensures CriticalityFollows(s.threads[t], ActInReset(s, t, time))
    ensures ActInReset(s, t, time).effect.Lock? ==> s.mutex.Free?
  {
    hide Join, Saw;
    assert InReset(s.threads[t].stack[|s.threads[t].stack| - 1].pc);
  }

  lemma OutcomeCriticality(s: State, step: Step)
    requires |s.slots| == SLOTS && Enabled(s, step) && StackOk(s.threads[step.t].stack)
    ensures CriticalityFollows(s.threads[step.t], OutcomeOf(s, step))
    ensures OutcomeOf(s, step).effect.Lock? ==> s.mutex.Free?
  {
    hide ActInClassGetter, ActInIdGetter, ActInReset, Join, Saw;
    var th := s.threads[step.t];
    if th.stack != [] {
      assert FrameOk(th.stack[|th.stack| - 1]);
    }
    if step.Act? {
      var pc := Top(th).pc;
      if pc.Return? {
        PopLeavesCritical(th, pc.value);
      } else if InClassGetter(pc) {
        ClassGetterCriticality(s, step.t, step.time);
      } else if InIdGetter(pc) {
        IdGetterCriticality(s, step.t, step.time);
      } else {
        ResetCriticality(s, step.t, step.time);
      }
    }
  }

  lemma PopLeavesCritical(th: Thread, value: Value)
    requires StackOk(th.stack) && th.stack != []
    ensures !InCriticalSection(Pop(th, value))
  {
    var rest := th.stack[..|th.stack| - 1];
    if rest != [] {
      assert rest[|rest| - 1] == th.stack[|th.stack| - 2];
    }
  }

  lemma MutualExclusionKept(s: State, step: Step)
    requires |s.slots| == SLOTS && Enabled(s, step) && StacksOk(s) && MutualExclusion(s)
    ensures MutualExclusion(Apply(s, step))
  {
    hide OutcomeOf;
    hide StackOk;
    hide InCriticalSection;
    OutcomeCriticality(s, step);
  }

  // -------------------------------------------------------------- the lock view and the phases

  lemma LockViewKept(s: State, step: Step)
    requires Shape(s) && Enabled(s, step) && StacksOk(s) && MutualExclusion(s) && LockViewIsLatest(s)
    requires Shape(Apply(s, step))
    ensures LockViewIsLatest(Apply(s, step))
  {
    hide OutcomeOf;
    hide StackOk;
    hide InCriticalSection;
    OutcomeCriticality(s, step);
    OutcomeAdvances(s, step);
  }

  /** The two states agree on what the mutex protects. */
  ghost predicate SameProtected(s: State, s': State)
    requires |s.slots| == SLOTS == |s'.slots|
  {
    && s'.flag == s.flag
    && forall l: Slot | IsClass(l) :: s'.slots[l] == s.slots[l]
  }

  lemma SamePhase(s: State, s': State, pc: PC)
    requires Shape(s) && Shape(s') && SameProtected(s, s')
    ensures PhaseAt(s', pc) <==> PhaseAt(s, pc)
    ensures FlagTells(s') <==> FlagTells(s)
  {
    assert forall l: Slot | IsClass(l) :: Latest(s', l) == Latest(s, l);
  }

  lemma OutsidersLeaveProtected(s: State, step: Step)
    requires LockingInvariant(s) && Enabled(s, step)
    requires s.mutex != Held(step.t) || OutcomeOf(s, step).effect in {Nothing, Lock, Unlock, NewVm}
    ensures SameProtected(s, Apply(s, step))
  {
    hide OutcomeOf;
    hide StackOk;
    hide InCriticalSection;
    OutcomeCriticality(s, step);
  }

  lemma OutsidersKeepPhase(s: State, step: Step)
    requires LockingInvariant(s) && Enabled(s, step) && Shape(Apply(s, step))
    requires s.mutex != Held(step.t) && !OutcomeOf(s, step).effect.Lock?
    ensures PhaseOk(Apply(s, step))
  {
    var s' := Apply(s, step);
    OutsidersLeaveProtected(s, step);
    OutcomeCriticality(s, step);
    hide OutcomeOf;
    hide StackOk;
    hide PhaseAt;
    hide FlagTells;
    hide SameProtected;
    hide CriticalityFollows;
    hide LockViewIsLatest;
    if s.mutex.Held? {
      SamePhase(s, s', Top(s.threads[s.mutex.owner]).pc);
    } else {
      SamePhase(s, s', LoadFlag);
    }
  }

  /** Locking leads to a program point that expects the flag to tell about the class slots. */
  lemma LockingEntersPhase(s: State, step: Step)
    requires LockingInvariant(s) && Enabled(s, step) && Shape(Apply(s, step))
    requires OutcomeOf(s, step).effect.Lock?
    ensures PhaseOk(Apply(s, step))
  {
    var s' := Apply(s, step);
    OutsidersLeaveProtected(s, step);
    OutcomeCriticality(s, step);
    var pc := Top(s.threads[step.t]).pc;
    assert pc.AcquireMutex? || pc.ResetAcquire?;
    SamePhase(s, s', pc);
    assert FlagTells(s');
    hide StackOk;
    hide SameProtected;
    hide LockViewIsLatest;
    hide Join;
    assert Top(s'.threads[step.t]).pc == (if pc.AcquireMutex? then Recheck else ResetSlot(0));
  }

  /** The thread that holds the mutex, about to perform the action of `pc`. */
  ghost predicate OwnerAt(s: State, t: nat, time: nat, pc: PC) {
    && Shape(s)
    && s.mutex == Held(t)
    && CanAct(s, t, time) && Top(s.threads[t]).pc == pc
    && PhaseAt(s, pc)
    && LockViewIsLatest(s)
  }

  lemma RecheckKeepsPhase(s: State, t: nat, time: nat)
    requires OwnerAt(s, t, time, Recheck) && Shape(Apply(s, Act(t, time)))
    ensures PhaseOk(Apply(s, Act(t, time)))
  {
    var s' := Apply(s, Act(t, time));
    assert time == |s.flag| - 1;
    SamePhase(s, s', Recheck);
    assert FlagTells(s');
    assert FILE_DESCRIPTOR_CLASS == 0;
  }

  lemma InitSlotKeepsPhase(s: State, t: nat, time: nat, l: Slot)
    requires OwnerAt(s, t, time, InitSlot(l)) && IsClass(l) && Shape(Apply(s, Act(t, time)))
    ensures PhaseOk(Apply(s, Act(t, time)))
  {
    var s' := Apply(s, Act(t, time));
    assert forall m: Slot | IsClass(m) :: Latest(s', m) == if m == l then ClassRef(l, s.threads[t].env) else Latest(s, m);
    assert SetBelow(s', NextClass(l));
  }

  lemma StoreFlagKeepsPhase(s: State, t: nat, time: nat)
    requires OwnerAt(s, t, time, StoreFlag) && Shape(Apply(s, Act(t, time)))
    ensures PhaseOk(Apply(s, Act(t, time)))
  {
    var s' := Apply(s, Act(t, time));
    assert LatestFlag(s');
    assert forall m: Slot | IsClass(m) :: Latest(s', m) == Latest(s, m);
    assert FlagTells(s');
  }

  lemma ResetSlotKeepsPhase(s: State, t: nat, time: nat, l: Slot)
    requires OwnerAt(s, t, time, ResetSlot(l)) && Shape(Apply(s, Act(t, time)))
    ensures PhaseOk(Apply(s, Act(t, time)))
  {
    var s' := Apply(s, Act(t, time));
    assert forall m: Slot | IsClass(m) :: Latest(s', m) == if m == l then Null else Latest(s, m);
    assert LatestFlag(s') == LatestFlag(s);
  }

  lemma ResetFlagKeepsPhase(s: State, t: nat, time: nat)
    requires OwnerAt(s, t, time, ResetFlag) && Shape(Apply(s, Act(t, time)))
    ensures PhaseOk(Apply(s, Act(t, time)))
  {
    var s' := Apply(s, Act(t, time));
    assert !LatestFlag(s');
    assert forall m: Slot | IsClass(m) :: Latest(s', m) == Latest(s, m);
    assert FlagTells(s');
  }

  lemma UnlockKeepsPhase(s: State, t: nat, time: nat, pc: PC)
    requires OwnerAt(s, t, time, pc) && pc in {ReleaseMutex, ResetRelease} && Shape(Apply(s, Act(t, time)))
    ensures PhaseOk(Apply(s, Act(t, time)))
  {
    SamePhase(s, Apply(s, Act(t, time)), pc);
  }

  /** The thread that holds the mutex writes the class slots and the flag as its program point says. */
  lemma OwnerKeepsPhase(s: State, step: Step)
    requires LockingInvariant(s) && Enabled(s, step) && Shape(Apply(s, step))
    requires s.mutex == Held(step.t)
    ensures PhaseOk(Apply(s, step))
  {
    var t := step.t;
    var pc := Top(s.threads[t]).pc;
    assert InCriticalSection(s.threads[t]);
    assert FrameOk(s.threads[t].stack[|s.threads[t].stack| - 1]);
    match step
    case Act(_, time) =>
      hide StackOk, StacksOk, MutualExclusion, PhaseAt, SetBelow, FlagTells, Perform, OutcomeOf, LockViewIsLatest;
      match pc {
        case Recheck => RecheckKeepsPhase(s, t, time);
        case InitSlot(l) => InitSlotKeepsPhase(s, t, time, l);
        case StoreFlag => StoreFlagKeepsPhase(s, t, time);
        case ResetSlot(l) => ResetSlotKeepsPhase(s, t, time, l);
        case ResetFlag => ResetFlagKeepsPhase(s, t, time);
        case _ => UnlockKeepsPhase(s, t, time, pc);
      }
    case Attach(_) => SamePhase(s, Apply(s, step), pc);
    case Synchronize(_, _) => SamePhase(s, Apply(s, step), pc);
    case _ =>
  }

  lemma PhaseKept(s: State, step: Step)
    requires LockingInvariant(s) && Enabled(s, step) && Shape(Apply(s, step))
    ensures PhaseOk(Apply(s, step))
  {
    hide LockingInvariant, OutcomeOf, Perform, PhaseOk, Shape;
    if s.mutex == Held(step.t) {
      OwnerKeepsPhase(s, step);
    } else if OutcomeOf(s, step).effect.Lock? {
      LockingEntersPhase(s, step);
    } else {
      OutsidersKeepPhase(s, step);
    }
  }

  // ------------------------------------------------------------------------------- the theorem

  /** A reference is written to a class slot only over a cleared slot. */
  lemma ReferencesReplaceNull(s: State, step: Step)
    requires LockingInvariant(s) && Enabled(s, step)
    ensures match OutcomeOf(s, step).effect
            case Store(l, value) => IsClass(l) ==> value.Null? || Latest(s, l).Null?
            case _ => true
  {
    var effect := OutcomeOf(s, step).effect;
    OutcomeCriticality(s, step);
    if effect.Store? && IsClass(effect.slot) && !effect.value.Null? {
      assert s.mutex == Held(step.t);
      assert FrameOk(s.threads[step.t].stack[|s.threads[step.t].stack| - 1]);
      hide StackOk, MutualExclusion, InCriticalSection, Join;
      assert Top(s.threads[step.t]).pc == InitSlot(effect.slot);
    }
  }

  lemma ReferencesStillAlternate(s: State, step: Step)
    requires LockingInvariant(s) && Enabled(s, step) && Shape(Apply(s, step))
    ensures ReferencesAlternate(Apply(s, step))
  {
    ReferencesReplaceNull(s, step);
    hide OutcomeOf, Within, StacksOk, MutualExclusion, LockViewIsLatest, PhaseOk;
    var s', effect := Apply(s, step), OutcomeOf(s, step).effect;
    forall l: Slot, k: nat | IsClass(l) && k + 1 < |s'.slots[l]|
      ensures NullAtOneOf(s'.slots[l], k)
    {
      assert NullAtOneOf(s.slots[l], k);
      if effect.Store? && effect.slot == l && k + 1 == |s.slots[l]| {
        assert s'.slots[l][k] == Latest(s, l) && s'.slots[l][k + 1] == effect.value;
      } else {
        assert s'.slots[l][k] == s.slots[l][k] && s'.slots[l][k + 1] == s.slots[l][k + 1];
      }
    }
  }

  lemma LockingInvariantKept(s: State, step: Step)
    requires LockingInvariant(s) && Enabled(s, step)
    ensures LockingInvariant(Apply(s, step))
  {
    OutcomeAdvances(s, step);
    PerformKeepsShape(s, step.t, OutcomeOf(s, step));
    StacksKept(s, step);
    MutualExclusionKept(s, step);
    LockViewKept(s, step);
    PhaseKept(s, step);
    ReferencesStillAlternate(s, step);
  }

  lemma LockingInvariantFollows(s: State, step: Step, s': State)
    requires LockingInvariant(s) && StepTo(s, step, s')
    ensures LockingInvariant(s')
  {
    hide LockingInvariant, Apply, Enabled;
    LockingInvariantKept(s, step);
  }

  lemma InitiallyLocking(s: State)
    requires Initial(s)
    ensures LockingInvariant(s)
  {
  }

  /** The invariant holds throughout every run. */
  lemma {:induction false} LockingHoldsInRuns(states: seq<State>, steps: seq<Step>, i: nat)
    requires IsRun(states, steps) && i < |states|
    ensures LockingInvariant(states[i])
  {
    hide LockingInvariant, StepTo;
    if i == 0 {
      InitiallyLocking(states[0]);
    } else {
      LockingHoldsInRuns(states, steps, i - 1);
      LockingInvariantFollows(states[i - 1], steps[i - 1], states[i]);
    }
  }

  /** In every run, the thread that holds the mutex is the one inside a critical section. */
  lemma HolderIsInside(states: seq<State>, steps: seq<Step>, i: nat, t: nat)
    requires IsRun(states, steps) && i < |states| && t < |states[i].threads|
    ensures states[i].mutex == Held(t) <==>
              && states[i].threads[t].stack != []
              && match Top(states[i].threads[t]).pc
                 case Recheck => true
                 case InitSlot(_) => true
                 case StoreFlag => true
                 case ReleaseMutex => true
                 case ResetSlot(_) => true
                 case ResetFlag => true
                 case ResetRelease => true
                 case _ => false
  {
    LockingHoldsInRuns(states, steps, i);
    assert InCriticalSection(states[i].threads[t]) <==> states[i].mutex == Held(t);
  }

  /** In every run, of two consecutive writes to a class slot one is null: no reference is overwritten. */
  lemma NoReferenceOverwritten(states: seq<State>, steps: seq<Step>, i: nat, l: Slot, k: nat)
    requires IsRun(states, steps) && i < |states| && l in {0, 4, 7, 14, 16}
    requires |states[i].slots| == SLOTS && k + 1 < |states[i].slots[l]|
    ensures states[i].slots[l][k] == Null || states[i].slots[l][k + 1] == Null
  {
    LockingHoldsInRuns(states, steps, i);
    assert NullAtOneOf(states[i].slots[l], k);
  }

  /** In every run, only the thread that holds the mutex writes the flag or a class slot. */
  lemma OnlyHolderWritesProtected(states: seq<State>, steps: seq<Step>, i: nat)
    requires IsRun(states, steps) && i < |steps| && Enabled(states[i], steps[i])
    ensures match OutcomeOf(states[i], steps[i]).effect
            case Store(l, _) => IsClass(l) ==> states[i].mutex == Held(steps[i].t)
            case SetFlag(_) => states[i].mutex == Held(steps[i].t)
            case _ => true
  {
    LockingHoldsInRuns(states, steps, i);
    var s, step := states[i], steps[i];
    assert StackOk(s.threads[step.t].stack) && (InCriticalSection(s.threads[step.t]) <==> s.mutex == Held(step.t));
    hide OutcomeOf, Enabled, StackOk, InCriticalSection, LockingInvariant, StepTo;
    OutcomeCriticality(s, step);
  }

  /** The step makes a new global reference and stores it in the class slot. */
  ghost predicate CreatesReference(s: State, step: Step, l: Slot) {
    && |s.slots| == SLOTS && Enabled(s, step)
    && OutcomeOf(s, step).effect.Store? && OutcomeOf(s, step).effect.slot == l
    && OutcomeOf(s, step).effect.value != Null
  }

  ghost predicate ClearsSlot(s: State, step: Step, l: Slot) {
    && |s.slots| == SLOTS && Enabled(s, step)
    && OutcomeOf(s, step).effect == Store(l, Null)
  }

  lemma SetAfterStep(s: State, step: Step, s': State, l: Slot)
    requires Shape(s) && Shape(s') && StepTo(s, step, s')
    requires CreatesReference(s, step, l) || (!Latest(s, l).Null? && !ClearsSlot(s, step, l))
    ensures !Latest(s', l).Null?
  {
    hide OutcomeOf, Enabled;
  }

  /** Once a reference has been stored, the slot stays set up to the next step that clears it. */
  lemma {:induction false} SetUntilCleared(states: seq<State>, steps: seq<Step>, j: nat, k: nat, l: Slot)
    requires IsRun(states, steps) && j < k <= |steps|
    requires CreatesReference(states[j], steps[j], l)
    requires forall m | j < m < k :: !ClearsSlot(states[m], steps[m], l)
    ensures Shape(states[k]) && !Latest(states[k], l).Null?
  {
    hide StepTo, CreatesReference, ClearsSlot;
    LockingHoldsInRuns(states, steps, k - 1);
    LockingHoldsInRuns(states, steps, k);
    if j < k - 1 {
      SetUntilCleared(states, steps, j, k - 1, l);
    }
    SetAfterStep(states[k - 1], steps[k - 1], states[k], l);
  }

  lemma CreatedOverNull(s: State, step: Step, l: Slot)
    requires LockingInvariant(s) && CreatesReference(s, step, l) && IsClass(l)
    ensures Latest(s, l).Null?
  {
    hide OutcomeOf;
    ReferencesReplaceNull(s, step);
  }

  /** Between two references made for one class there is a step that clears its slot. */
  lemma OneReferencePerReset(states: seq<State>, steps: seq<Step>, j: nat, k: nat, l: Slot)
    requires IsRun(states, steps) && j < k < |steps| && IsClass(l)
    requires CreatesReference(states[j], steps[j], l) && CreatesReference(states[k], steps[k], l)
    ensures exists m :: j < m < k && ClearsSlot(states[m], steps[m], l)
  {
    hide StepTo, CreatesReference, ClearsSlot;
    if forall m | j < m < k :: !ClearsSlot(states[m], steps[m], l) {
      SetUntilCleared(states, steps, j, k, l);
      LockingHoldsInRuns(states, steps, k);
      CreatedOverNull(states[k], steps[k], l);
    }
  }

  /** Whenever the mutex is free, the flag is up exactly when all five class slots are set. */
  lemma FreeMutexFlagIffAllSet(states: seq<State>, steps: seq<Step>, i: nat)
    requires IsRun(states, steps) && i < |states| && states[i].mutex.Free?
    ensures var s := states[i];
            && |s.flag| > 0 && |s.slots| == SLOTS && (forall l: Slot :: |s.slots[l]| > 0)
            && (s.flag[|s.flag| - 1].value <==>
                  forall l: Slot | l in {0, 4, 7, 14, 16} :: s.slots[l][|s.slots[l]| - 1] != Null)
  {
    LockingHoldsInRuns(states, steps, i);
    var s := states[i];
    assert forall l: Slot :: s.created.slots[l] < |s.slots[l]|;
    assert forall l: Slot | IsClass(l) :: Latest(s, l) == s.slots[l][|s.slots[l]| - 1];
    assert IsClass(FILE_DESCRIPTOR_CLASS);
  }

  /** The thread that holds the mutex is never kept waiting, for the mutex or for anything else. */
  lemma HolderCanAct(states: seq<State>, steps: seq<Step>, i: nat) returns (time: nat)
    requires IsRun(states, steps) && i < |states| && states[i].mutex.Held?
    ensures CanAct(states[i], states[i].mutex.owner, time)
  {
    LockingHoldsInRuns(states, steps, i);
    var s := states[i];
    assert InCriticalSection(s.threads[s.mutex.owner]);
    time := s.threads[s.mutex.owner].view.flag;
  }
}
