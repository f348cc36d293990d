/** Calls of the getters, and resets, complete: no deadlock, and a bound on the actions still to come. */
module ConstantsProgress {
  import opened ConstantsCache
  import opened ConstantsLocking
  import opened ConstantsEpochs
  import opened ConstantsSteps

  /** The number of actions that an activation may still take itself, at most. */
  function FrameRank(pc: PC): nat {
    match pc
    case LoadFlag => 12
    case AcquireMutex => 11
    case Recheck => 10
    case InitSlot(l) =>
      if l < NIO_ACCESS_CLASS then 9 else if l < NIO_BUFFER_CLASS then 8
      else if l < REFERENCE_CLASS then 7 else if l < STRING_CLASS then 6 else 5
    case StoreFlag => 4
    case ReleaseMutex => 3
    case ReadSlot => 2
    case CheckId => 18
    case AwaitClass => 5
    case InFind(_) => 4
    case StoreId(_) => 3
    case ReadId => 2
    case Return(_) => 1
    case ResetAcquire => 21
    case ResetSlot(l) => 20 - l
    case ResetFlag => 3
    case ResetRelease => 2
    case CreateVm => 1
  }

  function StackRank(stack: seq<Frame>): nat {
    if stack == [] then 0 else StackRank(stack[..|stack| - 1]) + FrameRank(stack[|stack| - 1].pc)
  }

  function TotalRank(threads: seq<Thread>): nat {
    if threads == [] then 0 else TotalRank(threads[..|threads| - 1]) + StackRank(threads[|threads| - 1].stack)
  }

  // ------------------------------------------------------------------------------ boundedness

  lemma GotoRank(th: Thread, pc: PC)
    requires th.stack != []
    ensures StackRank(Goto(th, pc).stack) == StackRank(th.stack) - FrameRank(Top(th).pc) + FrameRank(pc)
  {
    assert Goto(th, pc).stack[..|th.stack| - 1] == th.stack[..|th.stack| - 1];
  }

  lemma PushRank(th: Thread, f: Frame)
    ensures StackRank(Push(th, f).stack) == StackRank(th.stack) + FrameRank(f.pc)
  {
    assert Push(th, f).stack[..|th.stack|] == th.stack;
  }

  lemma PopRank(th: Thread, value: Value)
    requires th.stack != [] && Top(th).pc.Return?
    ensures StackRank(Pop(th, value).stack) < StackRank(th.stack)
  {
    var rest := th.(stack := th.stack[..|th.stack| - 1]);
    if rest.stack != [] {
      GotoRank(rest, InFind(value));
    }
  }

  lemma FrameAbove(th: Thread)
    requires th.stack != []
    ensures StackRank(th.stack) == StackRank(th.stack[..|th.stack| - 1]) + FrameRank(Top(th).pc)
  {
  }

  lemma ClassGetterRank(s: State, t: nat, time: nat)
    requires CanAct(s, t, time) && InClassGetter(Top(s.threads[t]).pc) && FrameOk(Top(s.threads[t]))
    ensures StackRank(ActInClassGetter(s, t, time).thread.stack) < StackRank(s.threads[t].stack)
  {
    hide Join, Saw, StackRank;
    var th, o := s.threads[t], ActInClassGetter(s, t, time);
    GotoRank(th, Top(o.thread).pc);
    assert o.thread.stack == Goto(th, Top(o.thread).pc).stack;
  }

  lemma IdGetterRank(s: State, t: nat, time: nat)
    requires CanAct(s, t, time) && InIdGetter(Top(s.threads[t]).pc)
    ensures StackRank(ActInIdGetter(s, t, time).thread.stack) < StackRank(s.threads[t].stack)
  {
    hide Saw;
    var th := s.threads[t];
    var f := Top(th);
    if f.pc.CheckId? && s.slots[f.slot][time].Null? {
      var seen := See(th, Saw(th.view, f.slot, time));
      GotoRank(th, AwaitClass);
      PushRank(Goto(seen, AwaitClass), Frame(ClassOf(f.slot), LoadFlag));
    } else {
      GotoRank(th, Top(ActInIdGetter(s, t, time).thread).pc);
    }
  }

  lemma ResetRank(s: State, t: nat, time: nat)
    requires CanAct(s, t, time) && InReset(Top(s.threads[t]).pc)
    ensures StackRank(ActInReset(s, t, time).thread.stack) < StackRank(s.threads[t].stack)
  {
    hide Join, Saw, StackRank;
    var th, o := s.threads[t], ActInReset(s, t, time);
    if Top(th).pc.CreateVm? {
      FrameAbove(th);
    } else {
      GotoRank(th, Top(o.thread).pc);
      assert o.thread.stack == Goto(th, Top(o.thread).pc).stack;
    }
  }

  /** Whatever the other threads do, every action brings the acting thread closer to its end. */
  lemma ActLowersRank(s: State, t: nat, time: nat)
    requires Shape(s) && StacksOk(s) && CanAct(s, t, time)
    ensures StackRank(OutcomeOf(s, Act(t, time)).thread.stack) < StackRank(s.threads[t].stack)
  {
    hide ActInClassGetter, ActInIdGetter, ActInReset;
    var th := s.threads[t];
    assert StackOk(th.stack) && FrameOk(th.stack[|th.stack| - 1]);
    if Top(th).pc.Return? {
      PopRank(th, Top(th).pc.value);
    } else if InClassGetter(Top(th).pc) {
      ClassGetterRank(s, t, time);
    } else if InIdGetter(Top(th).pc) {
      IdGetterRank(s, t, time);
    } else {
      ResetRank(s, t, time);
    }
  }

  lemma {:induction false} TotalRankFollows(threads: seq<Thread>, t: nat, th: Thread)
    requires t < |threads| && StackRank(th.stack) < StackRank(threads[t].stack)
    ensures TotalRank(threads[t := th]) < TotalRank(threads)
  {
    var last := |threads| - 1;
    if t == last {
      assert threads[t := th][..last] == threads[..last];
    } else {
      assert threads[t := th][..last] == threads[..last][t := th];
      TotalRankFollows(threads[..last], t, th);
    }
  }

  lemma ActLowersTotal(s: State, step: Step, s': State)
    requires LockingInvariant(s) && StepTo(s, step, s') && step.Act?
    ensures TotalRank(s'.threads) < TotalRank(s.threads)
  {
    ActLowersRank(s, step.t, step.time);
    hide OutcomeOf, LockingInvariant;
    TotalRankFollows(s.threads, step.t, OutcomeOf(s, step).thread);
    assert s'.threads == s.threads[step.t := OutcomeOf(s, step).thread];
  }

  /** From any point of any run, as many actions in a row as the total rank says, and no more. */
  lemma {:induction false} ActionsBounded(states: seq<State>, steps: seq<Step>, i: nat, j: nat)
    requires IsRun(states, steps) && i <= j < |states|
    requires forall k | i <= k < j :: steps[k].Act?
    ensures j - i + TotalRank(states[j].threads) <= TotalRank(states[i].threads)
  {
    hide StepTo, LockingInvariant;
    if i < j {
      ActionsBounded(states, steps, i, j - 1);
      LockingHoldsInRuns(states, steps, j - 1);
      ActLowersTotal(states[j - 1], steps[j - 1], states[j]);
    }
  }

  // ---------------------------------------------------------------------------- deadlock freedom

  /** The thread is to look up an id in a class that it has been given as null. */
  predicate LacksClass(th: Thread) {
    th.stack != [] && Top(th).pc == InFind(Null)
  }

  /** A thread in a call or reset can act, unless it waits for the mutex or lacks a class. */
  lemma WaitsForMutexOnly(s: State, t: nat)
    requires LockingInvariant(s) && t < |s.threads| && s.threads[t].stack != []
    ensures CanAct(s, t, s.threads[t].view.flag) || CanAct(s, t, s.threads[t].view.slots[Top(s.threads[t]).slot])
            || (Top(s.threads[t]).pc in {AcquireMutex, ResetAcquire} && s.mutex.Held?)
            || LacksClass(s.threads[t])
  {
    assert Within(s.threads[t].view, s) && StackOk(s.threads[t].stack);
    hide LockingInvariant;
  }

  /**
   Whatever threads and resets do, as long as a call or reset is incomplete some thread can act.
   The one exception is an id getter that was handed a null class.
   */
  lemma NoDeadlock(states: seq<State>, steps: seq<Step>, i: nat, t: nat) returns (u: nat, time: nat)
    requires IsRun(states, steps) && i < |states|
    requires t < |states[i].threads| && states[i].threads[t].stack != [] && !LacksClass(states[i].threads[t])
    ensures Enabled(states[i], Act(u, time))
  {
    LockingHoldsInRuns(states, steps, i);
    var s := states[i];
    if s.mutex.Held? {
      u := s.mutex.owner;
      time := HolderCanAct(states, steps, i);
    } else {
      u := t;
      WaitsForMutexOnly(s, t);
      time := if CanAct(s, t, s.threads[t].view.flag) then s.threads[t].view.flag
              else s.threads[t].view.slots[Top(s.threads[t]).slot];
    }
  }

  /** Under the contract no thread ever lacks a class, so there is no exception. */
  lemma ContractPreventsDeadlock(states: seq<State>, steps: seq<Step>, i: nat, t: nat) returns (u: nat, time: nat)
    requires IsContractRun(states, steps) && i < |states|
    requires t < |states[i].threads| && states[i].threads[t].stack != []
    ensures !LacksClass(states[i].threads[t])
    ensures Enabled(states[i], Act(u, time))
  {
    EpochHoldsInRuns(states, steps, i);
    var s, th := states[i], states[i].threads[t];
    if !Resetting(th) {
      NoResetDuringCalls(s, t);
      assert ThreadCurrent(th, s.created, s.epoch) && FrameCurrent(th.stack[|th.stack| - 1], s.epoch);
    }
    hide EpochInvariant, CanAct, IsRun;
    u, time := NoDeadlock(states, steps, i, t);
  }

  // ------------------------------------------------------------------- the contract is needed

  /** Thread 0 alone, somewhere in the getter of the first class; thread 1 idle. */
  ghost predicate FirstInGetter(s: State) {
    && |s.threads| == 2
    && |s.threads[0].stack| == 1 && Top(s.threads[0]).slot == FILE_DESCRIPTOR_CLASS
    && InClassGetter(Top(s.threads[0]).pc)
    && s.threads[1].stack == []
    && s.mutex != Held(1)
  }

  lemma FirstActs(s: State, time: nat)
    requires FirstInGetter(s) && CanAct(s, 0, time) && !Top(s.threads[0]).pc.ReadSlot?
    ensures FirstInGetter(Apply(s, Act(0, time)))
  {
    hide Join, Saw;
  }

  /** Left alone, the getter gets as far as the read of its slot. */
  lemma {:induction false} RunToRead(states: seq<State>, steps: seq<Step>)
    returns (states': seq<State>, steps': seq<Step>)
    requires IsRun(states, steps) && FirstInGetter(states[|steps|])
    ensures IsRun(states', steps') && FirstInGetter(states'[|steps'|])
    ensures Top(states'[|steps'|].threads[0]).pc.ReadSlot?
    decreases StackRank(states[|steps|].threads[0].stack)
  {
    hide StepTo, Apply;
    var s := states[|steps|];
    if Top(s.threads[0]).pc.ReadSlot? {
      return states, steps;
    }
    LockingHoldsInRuns(states, steps, |steps|);
    var time := s.threads[0].view.flag;
    assert StackOk(s.threads[0].stack) && CanAct(s, 0, time);
    FirstActs(s, time);
    ActLowersRank(s, 0, time);
    NextThread(s, Act(0, time));
    RunsGoOn(states, steps, Act(0, time));
    states', steps' := RunToRead(states + [Apply(s, Act(0, time))], steps + [Act(0, time)]);
  }

  lemma NextThread(s: State, step: Step)
    requires |s.slots| == SLOTS && Enabled(s, step)
    ensures Apply(s, step).threads == s.threads[step.t := OutcomeOf(s, step).thread]
  {
    hide OutcomeOf;
  }

  /** Once the reset has cleared the slot, the getter that has passed the flag reads null. */
  lemma ResetUnderGetter(s: State) returns (s1: State, s2: State, s3: State, time: nat)
    requires LockingInvariant(s) && FirstInGetter(s) && Top(s.threads[0]).pc.ReadSlot?
    ensures Enabled(s, Reset(1)) && s1 == Apply(s, Reset(1))
    ensures |s1.slots| == SLOTS && Enabled(s1, Act(1, 0)) && s2 == Apply(s1, Act(1, 0))
    ensures |s2.slots| == SLOTS && Enabled(s2, Act(1, 0)) && s3 == Apply(s2, Act(1, 0))
    ensures |s3.slots| == SLOTS && Enabled(s3, Act(0, time))
    ensures Returns(Apply(s3, Act(0, time)), 0, FILE_DESCRIPTOR_CLASS, Null)
  {
    assert s.mutex.Free? by {
      assert !InCriticalSection(s.threads[0]);
    }
    assert Within(s.threads[0].view, s);
    hide LockingInvariant, Join;
    s1 := Apply(s, Reset(1));
    s2 := Apply(s1, Act(1, 0));
    s3 := Apply(s2, Act(1, 0));
    time := |s.slots[FILE_DESCRIPTOR_CLASS]|;
    assert s3.slots[FILE_DESCRIPTOR_CLASS] == s.slots[FILE_DESCRIPTOR_CLASS] + [Null];
    assert s3.threads[0] == s.threads[0];
  }

  /**
   Without the contract of the header a getter can return null: a reset may clear the slot after
   the getter has made sure that the classes are initialized and before it reads the slot.
   */
  lemma ContractIsNeeded() returns (states: seq<State>, steps: seq<Step>)
    ensures IsRun(states, steps)
    ensures |states[|steps|].threads| > 0 && states[|steps|].threads[0].stack != []
    ensures Top(states[|steps|].threads[0]) == Frame(0, Return(Null))
  {
    var start := State(0, ZERO_VIEW, [FlagWrite(false, ZERO_VIEW)], seq(SLOTS, _ => [Null]), Free(ZERO_VIEW),
                       [Thread(0, ZERO_VIEW, []), Thread(0, ZERO_VIEW, [])]);
    RunsGoOn([start], [], Call(0, FILE_DESCRIPTOR_CLASS));
    assert FirstInGetter(Apply(start, Call(0, FILE_DESCRIPTOR_CLASS)));
    states, steps := RunToRead([start, Apply(start, Call(0, FILE_DESCRIPTOR_CLASS))], [Call(0, FILE_DESCRIPTOR_CLASS)]);
    hide StepTo, Apply, Enabled, Initial, FirstInGetter;
    LockingHoldsInRuns(states, steps, |steps|);
    var s1, s2, s3, time := ResetUnderGetter(states[|steps|]);
    RunsGoOn(states, steps, Reset(1));
    states, steps := states + [s1], steps + [Reset(1)];
    RunsGoOn(states, steps, Act(1, 0));
    states, steps := states + [s2], steps + [Act(1, 0)];
    RunsGoOn(states, steps, Act(1, 0));
    states, steps := states + [s3], steps + [Act(1, 0)];
    RunsGoOn(states, steps, Act(0, time));
    states, steps := states + [Apply(s3, Act(0, time))], steps + [Act(0, time)];
  }
}
