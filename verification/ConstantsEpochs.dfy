/**
 What the cache guarantees to its callers across successive VMs.  The header asks that calls from
 earlier VMs are complete when the constants are reset; `Contract` is that condition, together
 with the fact that a thread calls with an env of the current VM.
 */
module ConstantsEpochs {
  import opened ConstantsCache
  import opened ConstantsLocking

  // -------------------------------------------------------------------------------- contract

  predicate Resetting(th: Thread) {
    th.stack != [] && InReset(Top(th).pc)
  }

  ghost predicate ResetInProgress(s: State) {
    exists t :: 0 <= t < |s.threads| && Resetting(s.threads[t])
  }

  /** Resets begin when no call is in progress; calls begin with the env of a VM that is in place. */
  ghost predicate Contract(s: State, step: Step)
    requires Enabled(s, step)
  {
    match step
    case Call(t, _) => !ResetInProgress(s) && s.threads[t].env == s.epoch
    case Reset(_) => forall u | 0 <= u < |s.threads| :: s.threads[u].stack == []
    case _ => true
  }

  ghost predicate IsContractRun(states: seq<State>, steps: seq<Step>) {
    && IsRun(states, steps)
    && forall i | 0 <= i < |steps| :: Enabled(states[i], steps[i]) && Contract(states[i], steps[i])
  }

  // ------------------------------------------------------------------------------ invariants

  /** The view includes, for every class slot, a write later than the clearing for the current VM. */
  ghost predicate ClassesSeen(created: View, v: View) {
    forall l: Slot | IsClass(l) :: v.slots[l] > created.slots[l]
  }

  /**
   Since the current VM was created, slots and flag were cleared, then only ever set to their
   canonical values, and every store that raised the flag carries a view of all five classes.
   */
  ghost predicate Published(s: State)
    requires Shape(s)
  {
    && (forall l: Slot, k: nat | s.created.slots[l] <= k < |s.slots[l]| ::
          s.slots[l][k] == if k == s.created.slots[l] then Null else Canonical(l, s.epoch))
    && (forall k: nat | s.created.flag <= k < |s.flag| ::
          && (s.flag[k].value <==> k > s.created.flag)
          && (s.flag[k].value ==> ClassesSeen(s.created, s.flag[k].view)))
  }

  /** Values held in an activation belong to the current VM. */
  predicate FrameCurrent(f: Frame, epoch: nat) {
    match f.pc
    case InFind(klass) => klass == ClassRef(ClassOf(f.slot), epoch)
    case StoreId(id) => id == MemberId(f.slot, ClassOf(f.slot), epoch)
    case Return(value) => value == Canonical(f.slot, epoch)
    case _ => true
  }

  /** A thread about to read a slot for its result has seen it set. */
  predicate ReadsWhatIsSet(th: Thread, created: View)
    requires th.stack != []
  {
    var f := Top(th);
    f.pc.ReadSlot? || f.pc.ReadId? ==> th.view.slots[f.slot] > created.slots[f.slot]
  }

  ghost predicate ThreadCurrent(th: Thread, created: View, epoch: nat) {
    th.stack != [] ==>
      && th.env == epoch
      && (forall k | 0 <= k < |th.stack| :: FrameCurrent(th.stack[k], epoch))
      && ReadsWhatIsSet(th, created)
  }

  /** An attached thread has seen the creation of the VM that it is attached to. */
  ghost predicate EnvsOk(s: State) {
    forall t | 0 <= t < |s.threads| ::
      && s.threads[t].env <= s.epoch
      && (s.threads[t].env == s.epoch ==> ViewAtMost(s.created, s.threads[t].view))
  }

  /** How far a reset has got in the slots, as far as the thread that performs it knows. */
  ghost predicate ResetProgress(s: State, th: Thread)
    requires Shape(s) && th.stack != []
  {
    var done := match Top(th).pc
                case ResetAcquire => 0
                case ResetSlot(l) => l
                case _ => SLOTS;
    && (forall l: Slot | l < done :: Latest(s, l) == Null && th.view.slots[l] == |s.slots[l]| - 1)
    && (Top(th).pc.ResetRelease? || Top(th).pc.CreateVm? ==> !LatestFlag(s) && th.view.flag == |s.flag| - 1)
  }

  ghost predicate CallsOk(s: State)
    requires Shape(s)
  {
    && Published(s)
    && forall t | 0 <= t < |s.threads| :: !Resetting(s.threads[t]) && ThreadCurrent(s.threads[t], s.created, s.epoch)
  }

  ghost predicate ResetOk(s: State, r: nat)
    requires Shape(s)
  {
    && r < |s.threads|
    && Resetting(s.threads[r])
    && ResetProgress(s, s.threads[r])
    && forall t | 0 <= t < |s.threads| && t != r :: s.threads[t].stack == []
  }

  ghost predicate EpochInvariant(s: State) {
    && LockingInvariant(s)
    && EnvsOk(s)
    && (CallsOk(s) || exists r: nat :: ResetOk(s, r))
  }

  // -------------------------------------------------------------- envs, for every kind of step

  lemma OutcomeEnv(s: State, step: Step)
    requires Shape(s) && Enabled(s, step)
    ensures var o := OutcomeOf(s, step);
            match o.effect
            case NewVm => o.thread.env == s.epoch + 1
            case _ => o.thread.env == s.threads[step.t].env
                      || (o.thread.env == s.epoch && ViewAtMost(s.created, o.thread.view))
  {
    hide Saw;
  }

  lemma EnvsKept(s: State, step: Step)
    requires Shape(s) && Enabled(s, step) && EnvsOk(s)
    ensures EnvsOk(Apply(s, step))
  {
    OutcomeEnv(s, step);
    OutcomeAdvances(s, step);
    hide OutcomeOf, Within;
  }

  // ------------------------------------------------------------------------------ during calls

  /** What a step may write while calls are in progress. */
  ghost predicate WritesCanonically(s: State, o: Outcome) {
    match o.effect
    case Store(l, value) => value == Canonical(l, s.epoch)
    case SetFlag(initialized) => initialized && ClassesSeen(s.created, o.thread.view)
    case NewVm => false
    case _ => true
  }

  /** At the program points where the class slots are set, the thread in the critical section has seen them so. */
  lemma OwnerSeesClasses(s: State, t: nat)
    requires LockingInvariant(s) && Published(s) && s.mutex == Held(t)
    requires Top(s.threads[t]).pc in {StoreFlag, ReleaseMutex}
    ensures ClassesSeen(s.created, s.threads[t].view)
  {
    forall l: Slot | IsClass(l) ensures s.threads[t].view.slots[l] > s.created.slots[l] {
      assert !Latest(s, l).Null?;
      assert s.threads[t].view.slots[l] == |s.slots[l]| - 1;
    }
  }

  lemma GotoCurrent(th: Thread, v: View, pc: PC, created: View, epoch: nat)
    requires ThreadCurrent(th, created, epoch) && th.stack != []
    requires FrameCurrent(Top(th).(pc := pc), epoch)
    requires pc.ReadSlot? || pc.ReadId? ==> v.slots[Top(th).slot] > created.slots[Top(th).slot]
    ensures ThreadCurrent(Goto(See(th, v), pc), created, epoch)
  {
  }

  /** A thread that sees the flag up sees every class slot set, because of the release and the acquire. */
  lemma LoadFlagCurrent(s: State, t: nat, time: nat)
    requires LockingInvariant(s) && EnvsOk(s) && CallsOk(s)
    requires CanAct(s, t, time) && Top(s.threads[t]).pc.LoadFlag?
    ensures ThreadCurrent(ActInClassGetter(s, t, time).thread, s.created, s.epoch)
    ensures Top(ActInClassGetter(s, t, time).thread).pc.ReadSlot? ==>
              ClassesSeen(s.created, ActInClassGetter(s, t, time).thread.view)
  {
    var th := s.threads[t];
    var o := ActInClassGetter(s, t, time);
    assert StackOk(th.stack) && FrameOk(th.stack[|th.stack| - 1]);
    assert ViewAtMost(s.created, th.view);
    if s.flag[time].value {
      assert ClassesSeen(s.created, s.flag[time].view);
      assert forall l: Slot :: o.thread.view.slots[l] >= s.flag[time].view.slots[l];
    }
    hide LockingInvariant;
    GotoCurrent(th, o.thread.view, Top(o.thread).pc, s.created, s.epoch);
  }

  /** Reading a slot that has been seen set yields the canonical value of the current VM. */
  lemma ReadCurrent(s: State, t: nat, time: nat)
    requires Shape(s) && CallsOk(s) && CanAct(s, t, time)
    requires Top(s.threads[t]).pc in {ReadSlot, ReadId}
    ensures var f := Top(s.threads[t]); s.slots[f.slot][time] == Canonical(f.slot, s.epoch)
  {
    var f := Top(s.threads[t]);
    assert ReadsWhatIsSet(s.threads[t], s.created);
    assert s.created.slots[f.slot] < time;
  }

  /** Leaving the critical section, and raising the flag in it. */
  lemma OwnerCurrent(s: State, t: nat, time: nat)
    requires LockingInvariant(s) && EnvsOk(s) && CallsOk(s)
    requires CanAct(s, t, time) && Top(s.threads[t]).pc in {StoreFlag, ReleaseMutex}
    ensures WritesCanonically(s, ActInClassGetter(s, t, time))
    ensures ThreadCurrent(ActInClassGetter(s, t, time).thread, s.created, s.epoch)
  {
    var th := s.threads[t];
    var o := ActInClassGetter(s, t, time);
    assert StackOk(th.stack) && FrameOk(th.stack[|th.stack| - 1]);
    assert InCriticalSection(th);
    OwnerSeesClasses(s, t);
    hide LockingInvariant, EnvsOk, StackOk, Join;
    GotoCurrent(th, o.thread.view, Top(o.thread).pc, s.created, s.epoch);
  }

  lemma ClassGetterCurrent(s: State, t: nat, time: nat)
    requires LockingInvariant(s) && EnvsOk(s) && CallsOk(s)
    requires CanAct(s, t, time) && InClassGetter(Top(s.threads[t]).pc)
    ensures WritesCanonically(s, ActInClassGetter(s, t, time))
    ensures ThreadCurrent(ActInClassGetter(s, t, time).thread, s.created, s.epoch)
  {
    var th := s.threads[t];
    var pc := Top(th).pc;
    var o := ActInClassGetter(s, t, time);
    assert FrameOk(Top(th)) by {
      assert StackOk(th.stack) && FrameOk(th.stack[|th.stack| - 1]);
    }
    assert ThreadCurrent(th, s.created, s.epoch);
    hide LockingInvariant, EnvsOk, CallsOk, Join, ClassesSeen;
    if pc.LoadFlag? {
      LoadFlagCurrent(s, t, time);
    } else if pc.StoreFlag? || pc.ReleaseMutex? {
      OwnerCurrent(s, t, time);
    } else {
      if pc.ReadSlot? {
        ReadCurrent(s, t, time);
      }
      GotoCurrent(th, o.thread.view, Top(o.thread).pc, s.created, s.epoch);
    }
  }

  lemma PopCurrent(th: Thread, value: Value, created: View, epoch: nat)
    requires ThreadCurrent(th, created, epoch) && StackOk(th.stack)
    requires th.stack != [] && Top(th).pc == Return(value)
    ensures ThreadCurrent(Pop(th, value), created, epoch)
  {
    var rest := th.stack[..|th.stack| - 1];
    if rest != [] {
      var below := rest[|rest| - 1];
      assert below == th.stack[|th.stack| - 2] && Top(th) == th.stack[|th.stack| - 1];
      assert below.pc.InFind? || (below.pc.AwaitClass? && Top(th).slot == ClassOf(below.slot));
      assert forall k | 0 <= k < |rest| :: rest[k] == th.stack[k];
    }
  }

  lemma PushCurrent(th: Thread, f: Frame, created: View, epoch: nat)
    requires ThreadCurrent(th, created, epoch) && th.env == epoch && f.pc in {LoadFlag, CheckId}
    ensures ThreadCurrent(Push(th, f), created, epoch)
  {
  }

  lemma IdGetterCurrent(s: State, t: nat, time: nat)
    requires LockingInvariant(s) && EnvsOk(s) && CallsOk(s)
    requires CanAct(s, t, time) && InIdGetter(Top(s.threads[t]).pc)
    ensures WritesCanonically(s, ActInIdGetter(s, t, time))
    ensures ThreadCurrent(ActInIdGetter(s, t, time).thread, s.created, s.epoch)
  {
    var th := s.threads[t];
    var f, o := Top(th), ActInIdGetter(s, t, time);
    assert StackOk(th.stack) && FrameOk(th.stack[|th.stack| - 1]);
    assert FrameCurrent(th.stack[|th.stack| - 1], s.epoch);
    assert ViewAtMost(s.created, th.view);
    if f.pc.ReadId? {
      ReadCurrent(s, t, time);
    }
    assert f.pc.StoreId? ==> s.created.slots[f.slot] < |s.slots[f.slot]|;
    assert f.pc.CheckId? && !s.slots[f.slot][time].Null? ==> s.created.slots[f.slot] < time;
    hide LockingInvariant, EnvsOk, StackOk, CallsOk, Join;
    if f.pc.CheckId? && s.slots[f.slot][time].Null? {
      GotoCurrent(th, Saw(th.view, f.slot, time), AwaitClass, s.created, s.epoch);
      PushCurrent(Goto(See(th, Saw(th.view, f.slot, time)), AwaitClass), Frame(ClassOf(f.slot), LoadFlag), s.created, s.epoch);
    } else {
      GotoCurrent(th, o.thread.view, Top(o.thread).pc, s.created, s.epoch);
    }
  }

  lemma LockingHasShape(s: State)
    requires LockingInvariant(s)
    ensures Shape(s)
  {
  }

  lemma ThreadDuringCalls(s: State, t: nat)
    requires LockingInvariant(s) && CallsOk(s) && t < |s.threads|
    ensures StackOk(s.threads[t].stack) && ThreadCurrent(s.threads[t], s.created, s.epoch)
    ensures !Resetting(s.threads[t])
  {
  }

  /** Every step of a call writes canonically and leaves its thread with values of the current VM. */
  lemma CallStepCurrent(s: State, step: Step)
    requires LockingInvariant(s) && EnvsOk(s) && CallsOk(s)
    requires Enabled(s, step) && Contract(s, step) && !step.Reset?
    ensures WritesCanonically(s, OutcomeOf(s, step))
    ensures ThreadCurrent(OutcomeOf(s, step).thread, s.created, s.epoch)
  {
    hide LockingInvariant, EnvsOk, CallsOk, StackOk, ActInClassGetter, ActInIdGetter, ActInReset;
    hide Join, ClassesSeen, Pop, Within;
    LockingHasShape(s);
    var th := s.threads[step.t];
    ThreadDuringCalls(s, step.t);
    hide CanAct, Shape;
    match step
    case Act(t, time) =>
      var pc := Top(th).pc;
      if pc.Return? {
        PopCurrent(th, pc.value, s.created, s.epoch);
      } else if InClassGetter(pc) {
        ClassGetterCurrent(s, t, time);
      } else {
        IdGetterCurrent(s, t, time);
      }
    case Call(t, slot) =>
      PushCurrent(th, Frame(slot, if IsClass(slot) then LoadFlag else CheckId), s.created, s.epoch);
    case Attach(_) => OutcomeAdvances(s, step);
    case Synchronize(_, _) => OutcomeAdvances(s, step);
  }

  lemma PublishedKept(s: State, step: Step)
    requires Shape(s) && Enabled(s, step) && Published(s) && Shape(Apply(s, step))
    requires WritesCanonically(s, OutcomeOf(s, step))
    ensures Published(Apply(s, step))
  {
    hide OutcomeOf, Enabled, ClassesSeen, Canonical;
    var s', effect := Apply(s, step), OutcomeOf(s, step).effect;
    assert Within(s.created, s);
    hide Within;
    forall l: Slot, k: nat | s'.created.slots[l] <= k < |s'.slots[l]|
      ensures s'.slots[l][k] == if k == s'.created.slots[l] then Null else Canonical(l, s'.epoch)
    {
      if effect.Store? && effect.slot == l && k == |s.slots[l]| {
      } else {
        assert s'.slots[l][k] == s.slots[l][k];
      }
    }
  }

  lemma PopDoesNotReset(th: Thread, value: Value)
    requires th.stack != [] && StackOk(th.stack)
    ensures !Resetting(Pop(th, value))
  {
    var rest := th.stack[..|th.stack| - 1];
    assert rest != [] ==> rest[|rest| - 1] == th.stack[|th.stack| - 2];
  }

  lemma ClassGetterDoesNotReset(s: State, t: nat, time: nat)
    requires CanAct(s, t, time) && InClassGetter(Top(s.threads[t]).pc)
    ensures !Resetting(ActInClassGetter(s, t, time).thread)
  {
    hide Join, Saw;
  }

  lemma IdGetterDoesNotReset(s: State, t: nat, time: nat)
    requires CanAct(s, t, time) && InIdGetter(Top(s.threads[t]).pc)
    ensures !Resetting(ActInIdGetter(s, t, time).thread)
  {
    hide Join, Saw;
  }

  lemma CallStepDoesNotReset(s: State, step: Step)
    requires Enabled(s, step) && !step.Reset? && StackOk(s.threads[step.t].stack)
    requires !Resetting(s.threads[step.t])
    ensures !Resetting(OutcomeOf(s, step).thread)
  {
    var th := s.threads[step.t];
    hide Join, Saw, ActInClassGetter, ActInIdGetter, ActInReset, CanAct, StackOk, Pop;
    if step.Act? {
      var pc := Top(th).pc;
      if pc.Return? {
        PopDoesNotReset(th, pc.value);
      } else if InClassGetter(pc) {
        ClassGetterDoesNotReset(s, step.t, step.time);
      } else {
        IdGetterDoesNotReset(s, step.t, step.time);
      }
    }
  }

  lemma CallsKept(s: State, step: Step)
    requires LockingInvariant(s) && EnvsOk(s) && CallsOk(s)
    requires Enabled(s, step) && Contract(s, step) && !step.Reset? && Shape(Apply(s, step))
    ensures CallsOk(Apply(s, step))
  {
    assert StackOk(s.threads[step.t].stack);
    hide LockingInvariant, EnvsOk, OutcomeOf, Enabled, Published, Resetting, ThreadCurrent, StackOk, WritesCanonically, Shape;
    CallStepCurrent(s, step);
    CallStepDoesNotReset(s, step);
    PublishedKept(s, step);
    WritesKeepVm(s, OutcomeOf(s, step));
  }

  lemma WritesKeepVm(s: State, o: Outcome)
    requires WritesCanonically(s, o)
    ensures !o.effect.NewVm?
  {
  }

  // ----------------------------------------------------------------------------- during resets

  lemma ResetBegins(s: State, step: Step)
    requires LockingInvariant(s) && CallsOk(s)
    requires Enabled(s, step) && Contract(s, step) && step.Reset? && Shape(Apply(s, step))
    ensures ResetOk(Apply(s, step), step.t)
  {
    hide LockingInvariant, CallsOk;
  }

  /** A thread may learn more by synchronizing, but a reset has seen all there is to see already. */
  lemma ResetToleratesOthers(s: State, step: Step, r: nat)
    requires Shape(s) && ResetOk(s, r) && Enabled(s, step) && (step.Attach? || step.Synchronize?)
    requires Shape(Apply(s, step))
    ensures ResetOk(Apply(s, step), r)
  {
    OutcomeAdvances(s, step);
    var s' := Apply(s, step);
    assert s'.slots == s.slots && s'.flag == s.flag;
    assert forall l: Slot :: Latest(s', l) == Latest(s, l);
    assert Within(s'.threads[r].view, s);
    assert s'.threads[r].stack == s.threads[r].stack;
    assert ViewAtMost(s.threads[r].view, s'.threads[r].view);
    hide Shape, Join;
  }

  /** The thread that resets, about to perform the action of `pc`. */
  ghost predicate ResetAt(s: State, time: nat, r: nat, pc: PC) {
    && Shape(s) && ResetOk(s, r)
    && CanAct(s, r, time) && Top(s.threads[r]).pc == pc
    && Shape(Apply(s, Act(r, time)))
  }

  lemma ResetSlotActs(s: State, time: nat, r: nat, i: Slot)
    requires ResetAt(s, time, r, ResetSlot(i))
    ensures ResetOk(Apply(s, Act(r, time)), r)
  {
    hide Shape;
    var th, s' := s.threads[r], Apply(s, Act(r, time));
    assert s'.threads[r] == Goto(See(th, Saw(th.view, i, |s.slots[i]|)), if i + 1 < SLOTS then ResetSlot(i + 1) else ResetFlag);
    assert forall l: Slot :: s'.slots[l] == if l == i then s.slots[l] + [Null] else s.slots[l];
  }

  lemma ResetFlagActs(s: State, time: nat, r: nat)
    requires ResetAt(s, time, r, ResetFlag)
    ensures ResetOk(Apply(s, Act(r, time)), r)
  {
    hide Shape;
    var th, s' := s.threads[r], Apply(s, Act(r, time));
    assert s'.threads[r] == Goto(See(th, th.view.(flag := |s.flag|)), ResetRelease);
    assert s'.slots == s.slots;
  }

  lemma ResetLockActs(s: State, time: nat, r: nat, pc: PC)
    requires ResetAt(s, time, r, pc) && pc in {ResetAcquire, ResetRelease}
    ensures ResetOk(Apply(s, Act(r, time)), r)
  {
    hide Shape, Join;
    var th, s' := s.threads[r], Apply(s, Act(r, time));
    assert pc.ResetRelease? ==> s'.threads[r] == Goto(th, CreateVm);
    assert s'.slots == s.slots && s'.flag == s.flag;
  }

  /** Null is the latest write to every slot, and false to the flag, and the current VM was created with these in view. */
  ghost predicate AllCleared(s: State)
    requires Shape(s)
  {
    && (forall l: Slot :: Latest(s, l) == Null && s.created.slots[l] == |s.slots[l]| - 1)
    && !LatestFlag(s) && s.created.flag == |s.flag| - 1
  }

  /** The reset ends with everything cleared, and the view of that is the view of the new VM. */
  lemma ResetEnds(s: State, time: nat, r: nat)
    requires LockingInvariant(s) && ResetOk(s, r) && CanAct(s, r, time) && Shape(Apply(s, Act(r, time)))
    requires Top(s.threads[r]).pc.CreateVm?
    ensures AllCleared(Apply(s, Act(r, time))) && CallsOk(Apply(s, Act(r, time)))
  {
    var th, s' := s.threads[r], Apply(s, Act(r, time));
    assert StackOk(th.stack) && InReset(th.stack[|th.stack| - 1].pc);
    assert s'.threads[r].stack == [];
    hide LockingInvariant, StackOk, Within;
    assert s'.slots == s.slots && s'.flag == s.flag && s'.created == th.view;
    assert forall l: Slot :: Latest(s, l) == s.slots[l][th.view.slots[l]];
  }

  /** While a reset is in progress, nothing else happens than its own actions and synchronization. */
  lemma OnlyResetActs(s: State, step: Step, r: nat)
    requires Shape(s) && ResetOk(s, r) && Enabled(s, step) && Contract(s, step)
    ensures step.Attach? || step.Synchronize? || (step.Act? && step.t == r)
  {
    hide Shape, ResetProgress;
  }

  lemma ResetKept(s: State, step: Step, r: nat)
    requires LockingInvariant(s) && ResetOk(s, r)
    requires Enabled(s, step) && Contract(s, step) && Shape(Apply(s, step))
    ensures CallsOk(Apply(s, step)) || ResetOk(Apply(s, step), r)
  {
    OnlyResetActs(s, step, r);
    var pc := Top(s.threads[r]).pc;
    hide LockingInvariant, CallsOk, Shape, Apply, ResetProgress, Enabled;
    if step.Act? {
      if pc.ResetSlot? {
        ResetSlotActs(s, step.time, r, pc.clear);
      } else if pc.ResetFlag? {
        ResetFlagActs(s, step.time, r);
      } else if pc.CreateVm? {
        ResetEnds(s, step.time, r);
      } else {
        ResetLockActs(s, step.time, r, pc);
      }
    } else {
      ResetToleratesOthers(s, step, r);
    }
  }

  lemma EpochInvariantKept(s: State, step: Step)
    requires EpochInvariant(s) && Enabled(s, step) && Contract(s, step)
    ensures EpochInvariant(Apply(s, step))
  {
    LockingInvariantKept(s, step);
    EnvsKept(s, step);
    assert Shape(s) && Shape(Apply(s, step));
    hide LockingInvariant, EnvsOk, Apply, CallsOk, ResetOk, Shape, Contract, Enabled;
    if CallsOk(s) {
      if step.Reset? {
        ResetBegins(s, step);
      } else {
        CallsKept(s, step);
      }
    } else {
      var r: nat :| ResetOk(s, r);
      ResetKept(s, step, r);
    }
  }

  lemma EpochInvariantFollows(s: State, step: Step, s': State)
    requires EpochInvariant(s) && StepTo(s, step, s') && Contract(s, step)
    ensures EpochInvariant(s')
  {
    hide EpochInvariant, Contract, Apply, Enabled;
    EpochInvariantKept(s, step);
  }

  lemma InitiallyCurrent(s: State)
    requires Initial(s)
    ensures EpochInvariant(s)
  {
    InitiallyLocking(s);
    hide LockingInvariant;
    assert CallsOk(s);
  }

  /** The invariant holds throughout every run that keeps the contract. */
  lemma {:induction false} EpochHoldsInRuns(states: seq<State>, steps: seq<Step>, i: nat)
    requires IsContractRun(states, steps) && i < |states|
    ensures EpochInvariant(states[i])
  {
    hide EpochInvariant, StepTo, Contract, Enabled;
    if i == 0 {
      InitiallyCurrent(states[0]);
    } else {
      EpochHoldsInRuns(states, steps, i - 1);
      EpochInvariantFollows(states[i - 1], steps[i - 1], states[i]);
    }
  }

  // ----------------------------------------------------------------------------- the theorems

  /** The innermost activation of the thread is about to hand this value to its caller. */
  predicate Returns(s: State, t: nat, l: Slot, value: Value) {
    t < |s.threads| && s.threads[t].stack != [] && Top(s.threads[t]) == Frame(l, Return(value))
  }

  lemma NoResetDuringCalls(s: State, t: nat)
    requires EpochInvariant(s) && t < |s.threads|
    requires s.threads[t].stack != [] && !Resetting(s.threads[t])
    ensures CallsOk(s)
  {
    hide LockingInvariant, CallsOk, ResetProgress;
  }

  /**
   Whatever the interleaving, a getter returns the reference or id of the current VM: never null,
   never one of an earlier VM, and the same for every call and on every path through the getter.
   */
  lemma GettersReturnCanonical(states: seq<State>, steps: seq<Step>, i: nat, t: nat, l: Slot, value: Value)
    requires IsContractRun(states, steps) && i < |states|
    requires t < |states[i].threads| && states[i].threads[t].stack != []
    requires Top(states[i].threads[t]) == Frame(l, Return(value))
    ensures value == Canonical(l, states[i].epoch)
    ensures value == match l
                     case 0 => ClassRef(0, states[i].epoch)
                     case 4 => ClassRef(4, states[i].epoch)
                     case 7 => ClassRef(7, states[i].epoch)
                     case 14 => ClassRef(14, states[i].epoch)
                     case 16 => ClassRef(16, states[i].epoch)
                     case _ => MemberId(l, if l < 4 then 0 else if l < 7 then 4 else if l < 14 then 7 else 14, states[i].epoch)
  {
    EpochHoldsInRuns(states, steps, i);
    var s := states[i];
    NoResetDuringCalls(s, t);
    assert ThreadCurrent(s.threads[t], s.created, s.epoch);
  }

  /** Outside of resets no slot holds anything of an earlier VM, and a slot once set stays set. */
  lemma NoStateCrossesVms(states: seq<State>, steps: seq<Step>, i: nat)
    requires IsContractRun(states, steps) && i < |states| && !ResetInProgress(states[i])
    ensures Shape(states[i])
    ensures forall l: Slot :: Latest(states[i], l) in {Null, Canonical(l, states[i].epoch)}
    ensures forall l: Slot, k: nat | states[i].created.slots[l] < k < |states[i].slots[l]| ::
              states[i].slots[l][k] == Canonical(l, states[i].epoch)
  {
    EpochHoldsInRuns(states, steps, i);
    assert CallsOk(states[i]);
  }

  /** Since the current VM was created, a class slot has been written at most once. */
  lemma ClassSetAtMostOnce(s: State, l: Slot)
    requires LockingInvariant(s) && CallsOk(s) && IsClass(l)
    ensures |s.slots[l]| <= s.created.slots[l] + 2
  {
    assert NullAtOneOf(s.slots[l], s.created.slots[l] + 1);
  }

  /** Nothing but the latest write is left to be read by the getter of a class: the read is no race. */
  lemma ClassReadsAreNotRaces(states: seq<State>, steps: seq<Step>, i: nat, t: nat, time: nat)
    requires IsContractRun(states, steps) && i < |states|
    requires CanAct(states[i], t, time) && Top(states[i].threads[t]).pc.ReadSlot?
    ensures time == |states[i].slots[Top(states[i].threads[t]).slot]| - 1
  {
    EpochHoldsInRuns(states, steps, i);
    var s := states[i];
    assert StackOk(s.threads[t].stack) && FrameOk(s.threads[t].stack[|s.threads[t].stack| - 1]);
    NoResetDuringCalls(s, t);
    assert ReadsWhatIsSet(s.threads[t], s.created);
    ClassSetAtMostOnce(s, Top(s.threads[t]).slot);
  }

  /** An id getter looks its id up in the class that declares the member, taken from the current VM. */
  lemma LookedUpInItsClass(states: seq<State>, steps: seq<Step>, i: nat, t: nat, klass: Value)
    requires IsContractRun(states, steps) && i < |states|
    requires t < |states[i].threads| && states[i].threads[t].stack != []
    requires Top(states[i].threads[t]).pc == InFind(klass)
    ensures var l := Top(states[i].threads[t]).slot;
            && l !in {0, 4, 7, 14, 16}
            && klass == ClassRef(if l < 4 then 0 else if l < 7 then 4 else if l < 14 then 7 else 14, states[i].epoch)
  {
    EpochHoldsInRuns(states, steps, i);
    var s, th := states[i], states[i].threads[t];
    assert StackOk(th.stack) && FrameOk(th.stack[|th.stack| - 1]);
    NoResetDuringCalls(s, t);
    assert ThreadCurrent(th, s.created, s.epoch) && FrameCurrent(th.stack[|th.stack| - 1], s.epoch);
  }
}
