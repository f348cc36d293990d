/**
 What single actions do and may do: which of them touch shared state, what they may read, which
 views travel with them, and that executions are not restricted further.
 */
module ConstantsSteps {
  import opened ConstantsCache
  import opened ConstantsLocking
  import opened ConstantsEpochs

  /** Nothing has changed but thread t. */
  ghost predicate OnlyThreadChanged(s: State, s': State, t: nat) {
    && s'.epoch == s.epoch && s'.created == s.created
    && s'.flag == s.flag && s'.slots == s.slots && s'.mutex == s.mutex
    && |s'.threads| == |s.threads|
    && forall u | 0 <= u < |s.threads| && u != t :: s'.threads[u] == s.threads[u]
  }

  // ------------------------------------------------------------------------------- the getters

  /** A call runs the getter that was called, from its start, above what the thread was doing. */
  lemma CallStartsGetter(s: State, t: nat, slot: Slot)
    requires |s.slots| == SLOTS && Enabled(s, Call(t, slot))
    ensures var s' := Apply(s, Call(t, slot));
            && OnlyThreadChanged(s, s', t)
            && s'.threads[t].stack ==
               s.threads[t].stack + [Frame(slot, if slot in {0, 4, 7, 14, 16} then LoadFlag else CheckId)]
  {
  }

  /** A class getter that reads the flag up goes on to its slot without the mutex; else it locks. */
  lemma FlagUpAvoidsMutex(s: State, t: nat, time: nat)
    requires CanAct(s, t, time) && Top(s.threads[t]).pc.LoadFlag?
    ensures var s' := Apply(s, Act(t, time));
            && OnlyThreadChanged(s, s', t)
            && s'.threads[t].stack != []
            && Top(s'.threads[t]) == Frame(Top(s.threads[t]).slot, if s.flag[time].value then ReadSlot else AcquireMutex)
  {
    hide Join;
  }

  /** With the mutex held, the classes are initialized from the first on only if the flag is read down. */
  lemma RecheckAvoidsInitialization(s: State, t: nat, time: nat)
    requires CanAct(s, t, time) && Top(s.threads[t]).pc.Recheck?
    ensures var s' := Apply(s, Act(t, time));
            && OnlyThreadChanged(s, s', t)
            && s'.threads[t].stack != []
            && Top(s'.threads[t]).pc == (if s.flag[time].value then ReleaseMutex else InitSlot(0))
  {
  }

  /** An id getter that reads its slot set makes no call; else it calls the getter of its class. */
  lemma CachedIdAvoidsLookup(s: State, t: nat, time: nat)
    requires CanAct(s, t, time) && Top(s.threads[t]).pc.CheckId?
    requires Top(s.threads[t]).slot !in {0, 4, 7, 14, 16}
    ensures var s', l := Apply(s, Act(t, time)), Top(s.threads[t]).slot;
            var rest := s.threads[t].stack[..|s.threads[t].stack| - 1];
            && OnlyThreadChanged(s, s', t)
            && s'.threads[t].stack == rest +
                 if s.slots[l][time] != Null then [Frame(l, ReadId)]
                 else [Frame(l, AwaitClass), Frame(if l < 4 then 0 else if l < 7 then 4 else if l < 14 then 7 else 14, LoadFlag)]
  {
    hide Saw;
  }

  /** Each class is taken from the VM of the initializing thread's env; the five follow one another. */
  lemma InitializedFromOwnEnv(s: State, t: nat, time: nat, l: Slot)
    requires CanAct(s, t, time) && Top(s.threads[t]).pc == InitSlot(l) && l in {0, 4, 7, 14, 16}
    ensures var s' := Apply(s, Act(t, time));
            && s'.slots == s.slots[l := s.slots[l] + [ClassRef(l, s.threads[t].env)]]
            && s'.flag == s.flag && s'.mutex == s.mutex && s'.threads[t].stack != []
            && Top(s'.threads[t]).pc ==
               if l == 0 then InitSlot(4) else if l == 4 then InitSlot(7) else if l == 7 then InitSlot(14)
               else if l == 14 then InitSlot(16) else StoreFlag
  {
  }

  /** An id is that of the member in the class given, and is stored to the getter's own slot. */
  lemma IdOfOwnMember(s: State, t: nat, time: nat)
    requires CanAct(s, t, time)
    ensures var s', f := Apply(s, Act(t, time)), Top(s.threads[t]);
            match f.pc
            case InFind(klass) =>
              && OnlyThreadChanged(s, s', t) && s'.threads[t].stack != []
              && Top(s'.threads[t]) == Frame(f.slot, StoreId(MemberId(f.slot, klass.class_, klass.vm)))
            case StoreId(id) =>
              && s'.slots == s.slots[f.slot := s.slots[f.slot] + [id]] && s'.flag == s.flag && s'.mutex == s.mutex
              && s'.threads[t].stack != [] && Top(s'.threads[t]) == Frame(f.slot, ReadId)
            case _ => true
  {
    hide Join, Pop;
  }

  /** A getter returns what it reads from its own slot last, to the getter that waits for it if there is one. */
  lemma ReturnsWhatIsRead(s: State, t: nat, time: nat)
    requires CanAct(s, t, time)
    ensures var s', stack := Apply(s, Act(t, time)), s.threads[t].stack;
            var f, rest := stack[|stack| - 1], stack[..|stack| - 1];
            match f.pc
            case ReadSlot => s'.threads[t].stack == rest + [Frame(f.slot, Return(s.slots[f.slot][time]))]
            case ReadId => s'.threads[t].stack == rest + [Frame(f.slot, Return(s.slots[f.slot][time]))]
            case Return(value) =>
              && OnlyThreadChanged(s, s', t)
              && s'.threads[t].stack ==
                 if rest != [] && rest[|rest| - 1].pc.AwaitClass?
                 then rest[|rest| - 1 := Frame(rest[|rest| - 1].slot, InFind(value))] else rest
            case _ => true
  {
    hide Join, Saw;
  }

  /** A reset clears the seventeen slots in order under the mutex, then lowers the flag, then creates the VM. */
  lemma ResetInOrder(s: State, t: nat, time: nat)
    requires CanAct(s, t, time) && InReset(Top(s.threads[t]).pc)
    ensures var s', th' := Apply(s, Act(t, time)), Apply(s, Act(t, time)).threads[t];
            match Top(s.threads[t]).pc
            case ResetAcquire => s'.mutex == Held(t) && th'.stack != [] && Top(th').pc == ResetSlot(0)
            case ResetSlot(l) =>
              && s'.slots == s.slots[l := s.slots[l] + [Null]] && s'.mutex == s.mutex
              && th'.stack != [] && Top(th').pc == if l == 16 then ResetFlag else ResetSlot(l + 1)
            case ResetFlag =>
              && |s'.flag| == |s.flag| + 1 && !s'.flag[|s.flag|].value && s'.mutex == s.mutex
              && th'.stack != [] && Top(th').pc == ResetRelease
            case ResetRelease => s'.mutex.Free? && s'.slots == s.slots && th'.stack != [] && Top(th').pc == CreateVm
            case _ => s'.epoch == s.epoch + 1 == th'.env && s'.slots == s.slots && |th'.stack| == |s.threads[t].stack| - 1
  {
    hide Join;
  }

  /** Attaching gives an env of the current VM and shows its creation; other synchronization only shows. */
  lemma AttachAndSynchronize(s: State, t: nat, u: nat)
    requires |s.slots| == SLOTS && t < |s.threads| && u < |s.threads|
    ensures var s', th' := Apply(s, Attach(t)), Apply(s, Attach(t)).threads[t];
            && OnlyThreadChanged(s, s', t) && th'.stack == s.threads[t].stack && th'.env == s.epoch
            && forall l: Slot :: th'.view.slots[l] >= s.created.slots[l] && th'.view.slots[l] >= s.threads[t].view.slots[l]
    ensures var s', th' := Apply(s, Synchronize(t, u)), Apply(s, Synchronize(t, u)).threads[t];
            && OnlyThreadChanged(s, s', t) && th'.stack == s.threads[t].stack && th'.env == s.threads[t].env
            && forall l: Slot :: th'.view.slots[l] ==
                 if s.threads[t].view.slots[l] < s.threads[u].view.slots[l] then s.threads[u].view.slots[l]
                 else s.threads[t].view.slots[l]
  {
  }

  // ------------------------------------------------------------------------ reads, and the views

  /** Reads may return every write that the thread has not seen overwritten; only locking waits. */
  lemma ReadableWrites(s: State, t: nat, time: nat)
    requires |s.slots| == SLOTS && t < |s.threads| && s.threads[t].stack != []
    ensures var th, f := s.threads[t], Top(s.threads[t]);
            CanAct(s, t, time) <==>
              match f.pc
              case LoadFlag => th.view.flag <= time < |s.flag|
              case Recheck => th.view.flag <= time < |s.flag|
              case ReadSlot => th.view.slots[f.slot] <= time < |s.slots[f.slot]|
              case CheckId => th.view.slots[f.slot] <= time < |s.slots[f.slot]|
              case ReadId => th.view.slots[f.slot] <= time < |s.slots[f.slot]|
              case AcquireMutex => s.mutex.Free?
              case ResetAcquire => s.mutex.Free?
              case AwaitClass => false
              case InFind(klass) => klass != Null
              case _ => true
  {
  }

  /** The slot that an action reads or writes. */
  ghost predicate Accesses(f: Frame, l: Slot) {
    match f.pc
    case InitSlot(next) => l == next
    case ResetSlot(clear) => l == clear
    case ReadSlot => l == f.slot
    case CheckId => l == f.slot
    case ReadId => l == f.slot
    case StoreId(_) => l == f.slot
    case _ => false
  }

  /** Only the acquiring load and locking take over a view; any other action learns of what it accesses. */
  lemma OnlyAcquiresTakeOver(s: State, t: nat, time: nat)
    requires CanAct(s, t, time)
    ensures var th, pc := s.threads[t], Top(s.threads[t]).pc;
            var v, v' := th.view, Apply(s, Act(t, time)).threads[t].view;
            forall l: Slot :: v'.slots[l] ==
              if pc.LoadFlag? && v.slots[l] < s.flag[time].view.slots[l] then s.flag[time].view.slots[l]
              else if (pc.AcquireMutex? || pc.ResetAcquire?) && v.slots[l] < s.mutex.view.slots[l] then s.mutex.view.slots[l]
              else if Accesses(Top(th), l) then v'.slots[l]
              else v.slots[l]
    ensures var th, pc := s.threads[t], Top(s.threads[t]).pc;
            var v, v' := th.view, Apply(s, Act(t, time)).threads[t].view;
            v'.flag == v.flag || pc.LoadFlag? || pc.Recheck? || pc.StoreFlag? || pc.ResetFlag?
            || pc.AcquireMutex? || pc.ResetAcquire?
  {
    hide Top;
  }

  /** Storing the flag and unlocking hand on the view of the thread that does it. */
  lemma ReleasesHandOn(s: State, t: nat, time: nat)
    requires CanAct(s, t, time) && |s.flag| > 0
    ensures var s', pc := Apply(s, Act(t, time)), Top(s.threads[t]).pc;
            && (pc.StoreFlag? || pc.ResetFlag? ==>
                  s'.flag == s.flag + [FlagWrite(pc.StoreFlag?, s'.threads[t].view)])
            && (pc.ReleaseMutex? || pc.ResetRelease? ==> s'.mutex == Free(s'.threads[t].view))
  {
    hide Join, Saw;
  }

  // --------------------------------------------------------------------------------- executions

  /** Getters may be called by idle threads and from inside Get*ID; everything else but a reset, any time. */
  lemma EnabledForms(s: State, t: nat, u: nat, slot: Slot)
    requires t < |s.threads| && u < |s.threads|
    ensures Enabled(s, Call(t, slot)) <==>
              s.threads[t].stack == [] || s.threads[t].stack[|s.threads[t].stack| - 1].pc.InFind?
    ensures Enabled(s, Reset(t)) <==> s.threads[t].stack == []
    ensures Enabled(s, Attach(t)) && Enabled(s, Synchronize(t, u))
  {
  }

  /** The contract: resets with no call or reset in progress, and calls with an env of the VM in place. */
  lemma ContractForms(s: State, step: Step)
    requires Enabled(s, step)
    ensures Contract(s, step) <==>
              match step
              case Call(t, _) =>
                && s.threads[t].env == s.epoch
                && forall u | 0 <= u < |s.threads| && s.threads[u].stack != [] :: !InReset(Top(s.threads[u]).pc)
              case Reset(_) => forall u | 0 <= u < |s.threads| :: s.threads[u].stack == []
              case _ => true
  {
    assert ResetInProgress(s) <==>
           exists u | 0 <= u < |s.threads| :: s.threads[u].stack != [] && InReset(Top(s.threads[u]).pc) by {
      assert forall u | 0 <= u < |s.threads| ::
        Resetting(s.threads[u]) <==> s.threads[u].stack != [] && InReset(Top(s.threads[u]).pc);
    }
  }

  /** Executions begin with any number of threads, nothing cached and the flag down ... */
  lemma RunsBegin(n: nat) returns (s: State)
    ensures IsRun([s], []) && IsContractRun([s], [])
    ensures |s.threads| == n && s.epoch == 0 && s.mutex.Free?
    ensures forall t | 0 <= t < n :: s.threads[t].stack == [] && s.threads[t].env == 0
    ensures |s.flag| == 1 && !s.flag[0].value
    ensures |s.slots| == 17 && forall l: Slot :: s.slots[l] == [Null]
  {
    s := State(0, ZERO_VIEW, [FlagWrite(false, ZERO_VIEW)], seq(SLOTS, _ => [Null]), Free(ZERO_VIEW),
               seq(n, _ => Thread(0, ZERO_VIEW, [])));
  }

  /** ... and go on with any step that is possible. */
  lemma RunsGoOn(states: seq<State>, steps: seq<Step>, step: Step)
    requires IsRun(states, steps)
    requires |states[|steps|].slots| == SLOTS && Enabled(states[|steps|], step)
    ensures IsRun(states + [Apply(states[|steps|], step)], steps + [step])
    ensures IsContractRun(states, steps) && Contract(states[|steps|], step) ==>
              IsContractRun(states + [Apply(states[|steps|], step)], steps + [step])
  {
    hide Apply, Enabled, Contract;
    var states' := states + [Apply(states[|steps|], step)];
    forall i | 0 <= i < |steps| + 1 ensures StepTo(states'[i], (steps + [step])[i], states'[i + 1]) {
      if i < |steps| {
        assert StepTo(states[i], steps[i], states[i + 1]);
      }
    }
  }

  // --------------------------------------------------------------------------- when the flag changes

  lemma WhoStoresFlag(s: State, step: Step)
    requires |s.slots| == SLOTS && Enabled(s, step) && |Apply(s, step).flag| > |s.flag|
    ensures step.Act? && s.threads[step.t].stack != []
    ensures Top(s.threads[step.t]).pc == (if Apply(s, step).flag[|s.flag|].value then StoreFlag else ResetFlag)
  {
    hide Join, Saw, Pop;
  }

  /** In every run, the flag is raised only when all five classes are set, by the thread that holds the mutex. */
  lemma RaisedAfterClasses(states: seq<State>, steps: seq<Step>, i: nat)
    requires IsRun(states, steps) && i < |steps|
    requires |states[i + 1].flag| > |states[i].flag| && states[i + 1].flag[|states[i].flag|].value
    ensures Shape(states[i]) && states[i].mutex == Held(steps[i].t)
    ensures forall l: Slot | l in {0, 4, 7, 14, 16} :: Latest(states[i], l) != Null
  {
    LockingHoldsInRuns(states, steps, i);
    var s, step := states[i], steps[i];
    assert StepTo(s, step, states[i + 1]);
    WhoStoresFlag(s, step);
    hide Apply, Enabled;
    assert InCriticalSection(s.threads[step.t]);
  }

  /** In every run that keeps the contract, the flag is lowered only when all seventeen slots are cleared. */
  lemma LoweredAfterClearing(states: seq<State>, steps: seq<Step>, i: nat)
    requires IsContractRun(states, steps) && i < |steps|
    requires |states[i + 1].flag| > |states[i].flag| && !states[i + 1].flag[|states[i].flag|].value
    ensures Shape(states[i]) && states[i].mutex == Held(steps[i].t)
    ensures forall l: Slot :: Latest(states[i], l) == Null
  {
    EpochHoldsInRuns(states, steps, i);
    var s, step := states[i], steps[i];
    assert StepTo(s, step, states[i + 1]);
    WhoStoresFlag(s, step);
    hide Apply, Enabled, Contract;
    assert InCriticalSection(s.threads[step.t]);
    assert Resetting(s.threads[step.t]);
    var r: nat :| ResetOk(s, r);
    assert r == step.t;
  }
}
