/**
 * sleep and wakeup (proc.c:693-755) as a state machine over every interleaving of any number of
 * processes. A process tests a condition under the lock `lk` and sleeps while it does not hold;
 * whoever makes it hold does so under `lk` and then calls wakeup. `same` says that `lk` is
 * ptable.lock itself.
 */
module Sleep {

  /** Where a process is. */
  datatype Pc =
    | Idle                                // holds nothing
    | Busy                                // holds ptable.lock for something else
    | Critical(owes: bool)                // holds lk; owes a wakeup if it has made the condition hold
    | Owes                                // has released lk and is still to call wakeup
    | Tested                              // holds lk, has found that the condition does not hold
    | Both                                // in sleep, holds lk and ptable.lock
    | Going                               // in sleep, holds ptable.lock only
    | Asleep(runnable: bool)              // has given up the processor: SLEEPING or RUNNABLE
    | Back                                // runs again, holds ptable.lock
    | Relock                              // still in sleep, wants lk back
    | Waking(next: nat, inside: bool)     // in wakeup, holds ptable.lock; `inside`: and lk

  datatype Option = None | Some(t: nat)

  datatype State = State(pcs: seq<Pc>, lk: Option, pt: Option, cond: bool)

  predicate HoldsLk(pc: Pc, same: bool) {
    !same && (pc.Critical? || pc.Tested? || pc.Both? || (pc.Waking? && pc.inside))
  }

  predicate HoldsPt(pc: Pc, same: bool) {
    pc.Busy? || pc.Both? || pc.Going? || pc.Back? || pc.Waking? || (same && (pc.Critical? || pc.Tested?))
  }

  // ----- Steps -----

  datatype Step =
    | AcquireLk(t: nat)        // proc.c:728 and every caller of sleep and wakeup
    | ReleaseLk(t: nat)
    | AcquirePt(t: nat)
    | ReleasePt(t: nat)
    | Set(t: nat, value: bool)
    | Test(t: nat)
    | SleepAcquire(t: nat)     // proc.c:713
    | SleepRelease(t: nat)     // proc.c:714
    | GoToSleep(t: nat)        // proc.c:717-720
    | Dispatch(t: nat)         // proc.c:560-584
    | Resume(t: nat)           // proc.c:723-727
    | WakeStart(t: nat)        // proc.c:752
    | WakeOne(t: nat)          // proc.c:740-745
    | WakeEnd(t: nat)          // proc.c:754
    | Kill(t: nat, victim: nat) // proc.c:768-775

  /** Who holds the lock that `lk` names. */
  function Lk(s: State, same: bool): (o: Option) {
    if same then s.pt else s.lk
  }

  predicate Enabled(s: State, e: Step, same: bool) {
    && e.t < |s.pcs|
    && var pc := s.pcs[e.t];
    match e
    case AcquireLk(t) => (pc.Idle? || pc.Relock?) && Lk(s, same).None?
    case ReleaseLk(t) => pc.Critical?
    case AcquirePt(t) => pc.Idle? && s.pt.None?
    case ReleasePt(t) => pc.Busy?
    case Set(t, _) => pc.Critical?
    case Test(t) => pc == Critical(false) && !s.cond
    case SleepAcquire(t) => !same && pc.Tested? && s.pt.None?
    case SleepRelease(t) => pc.Both?
    case GoToSleep(t) => pc.Going? || (same && pc.Tested?)
    case Dispatch(t) => pc == Asleep(true) && s.pt.None?
    case Resume(t) => pc.Back?
    case WakeStart(t) => (same && pc.Critical?) || ((pc.Critical? || pc.Owes? || pc.Idle?) && s.pt.None?)
    case WakeOne(t) => pc.Waking? && pc.next < |s.pcs|
    case WakeEnd(t) => pc.Waking? && pc.next == |s.pcs|
    case Kill(t, victim) => pc.Idle? && s.pt.None? && victim < |s.pcs| && s.pcs[victim] == Asleep(false)
  }

  function At(s: State, t: nat, pc: Pc): (s': State)
    requires t < |s.pcs|
  {
    s.(pcs := s.pcs[t := pc])
  }

  function GiveLk(s: State, same: bool, o: Option): (s': State) {
    if same then s.(pt := o) else s.(lk := o)
  }

  function Apply(s: State, e: Step, same: bool): (s': State)
    requires Enabled(s, e, same)
    ensures |s'.pcs| == |s.pcs|
  {
    var t, pc := e.t, s.pcs[e.t];
    match e
    case AcquireLk(_) => GiveLk(At(s, t, Critical(false)), same, Some(t))
    case ReleaseLk(_) => GiveLk(At(s, t, if pc.owes then Owes else Idle), same, None)
    case AcquirePt(_) => At(s, t, Busy).(pt := Some(t))
    case ReleasePt(_) => At(s, t, Idle).(pt := None)
    case Set(_, value) => At(s, t, Critical(pc.owes || value)).(cond := value)
    case Test(_) => At(s, t, Tested)
    case SleepAcquire(_) => At(s, t, Both).(pt := Some(t))
    case SleepRelease(_) => At(s, t, Going).(lk := None)
    case GoToSleep(_) => At(s, t, Asleep(false)).(pt := None)
    case Dispatch(_) => At(s, t, Back).(pt := Some(t))
    case Resume(_) => if same then At(s, t, Critical(false)) else At(s, t, Relock).(pt := None)
    case WakeStart(_) => At(s, t, Waking(0, pc.Critical?)).(pt := Some(t))
    case WakeOne(_) =>
      var s1 := At(s, t, pc.(next := pc.next + 1));
      if s.pcs[pc.next] == Asleep(false) then At(s1, pc.next, Asleep(true)) else s1
    case WakeEnd(_) =>
      if !pc.inside then At(s, t, Idle).(pt := None)
      else if same then At(s, t, Critical(false))
      else At(s, t, Critical(false)).(pt := None)
    case Kill(_, victim) => At(s, victim, Asleep(true))
  }

  // ----- The invariant -----

  /** `w` is still to wake `t`. */
  predicate Coming(s: State, w: nat, t: nat)
    requires w < |s.pcs|
  {
    s.pcs[w] == Critical(true) || s.pcs[w].Owes? || (s.pcs[w].Waking? && s.pcs[w].next <= t)
  }

  ghost predicate SomeComing(s: State, t: nat) {
    exists w: nat :: w < |s.pcs| && Coming(s, w, t)
  }

  /** A process holds the locks that its place in the code says it holds. */
  predicate LocksAt(s: State, same: bool, t: nat)
    requires t < |s.pcs|
  {
    && (HoldsLk(s.pcs[t], same) <==> s.lk == Some(t)) && (HoldsPt(s.pcs[t], same) <==> s.pt == Some(t))
    && (s.pcs[t].Waking? ==> s.pcs[t].next <= |s.pcs|)
    && (same ==> !s.pcs[t].Both?)
  }

  ghost predicate Locks(s: State, same: bool) {
    && (s.lk.Some? ==> !same && s.lk.t < |s.pcs|) && (s.pt.Some? ==> s.pt.t < |s.pcs|)
    && forall t: nat :: t < |s.pcs| ==> LocksAt(s, same, t)
  }

  /** A process that is about to sleep or sleeps has not missed a wakeup. */
  ghost predicate NotMissed(s: State, t: nat)
    requires t < |s.pcs|
  {
    match s.pcs[t]
    case Tested => !s.cond
    case Both => !s.cond
    case Going => s.cond ==> SomeComing(s, t)
    case Asleep(false) => s.cond ==> SomeComing(s, t)
    case _ => true
  }

  ghost predicate NoneMissed(s: State) {
    forall t: nat :: t < |s.pcs| ==> NotMissed(s, t)
  }

  ghost predicate Inv(s: State, same: bool) {
    Locks(s, same) && NoneMissed(s)
  }

  lemma StepKeepsOwnLocks(s: State, e: Step, same: bool)
    requires Enabled(s, e, same) && LocksAt(s, same, e.t) && (same ==> s.lk.None?)
    ensures LocksAt(Apply(s, e, same), same, e.t)
  {
  }

  lemma StepKeepsOtherLocks(s: State, e: Step, same: bool, t: nat)
    requires Enabled(s, e, same) && t < |s.pcs| && t != e.t && LocksAt(s, same, t) && LocksAt(s, same, e.t)
    requires same ==> s.lk.None?
    ensures LocksAt(Apply(s, e, same), same, t)
  {
  }

  lemma StepKeepsLocks(s: State, e: Step, same: bool)
    requires Locks(s, same) && Enabled(s, e, same)
    ensures Locks(Apply(s, e, same), same)
  {
    assert LocksAt(s, same, e.t);
    forall t: nat | t < |s.pcs| ensures LocksAt(Apply(s, e, same), same, t) {
      if t == e.t {
        StepKeepsOwnLocks(s, e, same);
      } else {
        StepKeepsOtherLocks(s, e, same, t);
      }
    }
    hide LocksAt;
  }

  /** A wakeup that is coming for `t` still is after a step that does not wake `t`. */
  lemma StillComing(s: State, e: Step, same: bool, w: nat, t: nat)
    requires Enabled(s, e, same) && w < |s.pcs| && t < |s.pcs| && Coming(s, w, t)
    requires LocksAt(s, same, t) && LocksAt(s, same, w)
    requires s.pcs[t].Going? || s.pcs[t] == Asleep(false)
    requires Apply(s, e, same).pcs[t] == s.pcs[t]
    ensures Coming(Apply(s, e, same), w, t)
  {
  }

  lemma StepKeepsNotMissed(s: State, e: Step, same: bool, t: nat)
    requires Inv(s, same) && Enabled(s, e, same) && t < |s.pcs|
    ensures NotMissed(Apply(s, e, same), t)
  {
    var s' := Apply(s, e, same);
    assert NotMissed(s, t) && NotMissed(s, e.t);
    assert LocksAt(s, same, t) && LocksAt(s, same, e.t);
    hide NoneMissed;
    if (s'.pcs[t].Going? || s'.pcs[t] == Asleep(false)) && s'.cond {
      if !s.cond {
        assert Coming(s', e.t, t);
      } else if s'.pcs[t] == s.pcs[t] {
        var w: nat :| w < |s.pcs| && Coming(s, w, t);
        StillComing(s, e, same, w, t);
      } else {
        assert e.t == t && e.GoToSleep? && s.pcs[t].Going?;
        var w: nat :| w < |s.pcs| && Coming(s, w, t);
        assert Coming(s', w, t);
      }
    }
  }

  /** Every step of every process keeps the invariant. */
  lemma StepKeepsInv(s: State, e: Step, same: bool)
    requires Inv(s, same) && Enabled(s, e, same)
    ensures Inv(Apply(s, e, same), same)
  {
    StepKeepsLocks(s, e, same);
    forall t: nat | t < |s.pcs| ensures NotMissed(Apply(s, e, same), t) {
      StepKeepsNotMissed(s, e, same, t);
    }
  }

  // ----- Runs -----

  predicate Start(s: State) {
    s.lk.None? && s.pt.None? && forall t :: 0 <= t < |s.pcs| ==> s.pcs[t].Idle?
  }

  predicate Possible(s: State, steps: seq<Step>, same: bool)
    decreases |steps|
  {
    steps == [] || (Enabled(s, steps[0], same) && Possible(Apply(s, steps[0], same), steps[1..], same))
  }

  function Run(s: State, steps: seq<Step>, same: bool): (s': State)
    requires Possible(s, steps, same)
    decreases |steps|
  {
    if steps == [] then s else Run(Apply(s, steps[0], same), steps[1..], same)
  }

  lemma {:induction false} RunKeepsInv(s: State, steps: seq<Step>, same: bool)
    requires Inv(s, same) && Possible(s, steps, same)
    ensures Inv(Run(s, steps, same), same)
    decreases |steps|
  {
    if steps != [] {
      hide Apply, Enabled, Inv;
      StepKeepsInv(s, steps[0], same);
      RunKeepsInv(Apply(s, steps[0], same), steps[1..], same);
    }
  }

  /**
   * In no interleaving does a process sleep on through a wakeup that followed the change: while
   * the condition holds and a process is SLEEPING, a wakeup is still on its way to it.
   */
  lemma NoLostWakeup(s: State, steps: seq<Step>, same: bool, t: nat)
    requires Start(s) && Possible(s, steps, same)
    ensures
      var now := Run(s, steps, same);
      t < |now.pcs| && now.pcs[t] == Asleep(false) && now.cond ==> SomeComing(now, t)
  {
    RunKeepsInv(s, steps, same);
    hide Run, Possible;
    var now := Run(s, steps, same);
    assert t < |now.pcs| ==> NotMissed(now, t);
  }

  /** Neither lock is ever held by two processes. */
  lemma MutualExclusion(s: State, steps: seq<Step>, same: bool, t: nat, u: nat)
    requires Start(s) && Possible(s, steps, same)
    ensures
      var now := Run(s, steps, same);
      && (t < |now.pcs| && u < |now.pcs| && HoldsPt(now.pcs[t], same) && HoldsPt(now.pcs[u], same) ==> t == u)
      && (t < |now.pcs| && u < |now.pcs| && HoldsLk(now.pcs[t], same) && HoldsLk(now.pcs[u], same) ==> t == u)
  {
    RunKeepsInv(s, steps, same);
    hide Run, Possible, NoneMissed;
    var now := Run(s, steps, same);
    assert t < |now.pcs| ==> LocksAt(now, same, t);
    assert u < |now.pcs| ==> LocksAt(now, same, u);
  }

  // ----- The way through sleep -----

  /** The process has called sleep, or is about to, and has not returned. */
  predicate InSleep(pc: Pc) {
    pc.Tested? || pc.Both? || pc.Going? || pc.Asleep? || pc.Back? || pc.Relock?
  }

  /** Where a process in sleep can be next: it gives up lk only with ptable.lock in its hands, and returns with lk. */
  predicate Onward(pc: Pc, next: Pc, same: bool) {
    match pc
    case Tested => next == if same then Asleep(false) else Both
    case Both => next == Going
    case Going => next == Asleep(false)
    case Asleep(runnable) => next == if runnable then Back else Asleep(true)
    case Back => next == if same then Critical(false) else Relock
    case Relock => next == Critical(false)
    case _ => false
  }

  lemma OwnStepInSleep(s: State, e: Step, same: bool)
    requires Enabled(s, e, same) && InSleep(s.pcs[e.t])
    ensures Onward(s.pcs[e.t], Apply(s, e, same).pcs[e.t], same)
  {
  }

  /** Others can only wake it. */
  lemma OtherStepInSleep(s: State, e: Step, same: bool, t: nat)
    requires Enabled(s, e, same) && t < |s.pcs| && t != e.t
    ensures Apply(s, e, same).pcs[t] == s.pcs[t] || (s.pcs[t] == Asleep(false) && Apply(s, e, same).pcs[t] == Asleep(true))
  {
  }

  /** A sleeping process is made RUNNABLE by a wakeup that comes to it, by a kill, and by nothing else. */
  lemma WokenIff(s: State, e: Step, same: bool, t: nat)
    requires Enabled(s, e, same) && t < |s.pcs| && s.pcs[t] == Asleep(false)
    ensures Apply(s, e, same).pcs[t] ==
            Asleep((e.WakeOne? && s.pcs[e.t].next == t) || (e.Kill? && e.victim == t))
  {
  }

  /** With the end of a wakeup nobody is owed one any more by this process, which holds what it held before. */
  lemma WakeupEnds(s: State, t: nat, same: bool, u: nat)
    requires Locks(s, same) && Enabled(s, WakeEnd(t), same) && u < |s.pcs|
    ensures !Coming(Apply(s, WakeEnd(t), same), t, u)
    ensures Lk(Apply(s, WakeEnd(t), same), same) == Some(t) <==> s.pcs[t].inside
  {
    assert LocksAt(s, same, t);
  }

  lemma StepInSleep(s: State, e: Step, same: bool, t: nat)
    requires Enabled(s, e, same) && t < |s.pcs| && InSleep(s.pcs[t])
    ensures Apply(s, e, same).pcs[t] == s.pcs[t] || Onward(s.pcs[t], Apply(s, e, same).pcs[t], same)
  {
    if t == e.t {
      OwnStepInSleep(s, e, same);
    } else {
      OtherStepInSleep(s, e, same, t);
    }
    hide Apply;
  }

  /** The states of a run. */
  ghost function Trace(s: State, steps: seq<Step>, same: bool): (trace: seq<State>)
    requires Possible(s, steps, same)
    ensures |trace| == |steps| + 1
    decreases |steps|
  {
    [s] + if steps == [] then [] else Trace(Apply(s, steps[0], same), steps[1..], same)
  }

  lemma {:induction false} TraceAt(s: State, steps: seq<Step>, same: bool, k: nat)
    requires Inv(s, same) && Possible(s, steps, same) && k <= |steps|
    ensures var trace := Trace(s, steps, same);
            && Inv(trace[k], same) && |trace[k].pcs| == |s.pcs|
            && (k < |steps| ==> Enabled(trace[k], steps[k], same) && trace[k + 1] == Apply(trace[k], steps[k], same))
    decreases |steps|
  {
    if steps != [] {
      hide Apply, Enabled, Inv;
      StepKeepsInv(s, steps[0], same);
      if k > 0 {
        TraceAt(Apply(s, steps[0], same), steps[1..], same, k - 1);
      }
    }
  }

  /** In the states of a run, process `t` is in sleep from number `i` on to just before number `k`, on its way. */
  ghost predicate SleepsUntil(trace: seq<State>, same: bool, t: nat, i: nat, k: nat) {
    && i <= k < |trace|
    && (forall m :: i <= m <= k ==> t < |trace[m].pcs|)
    && (forall m :: i <= m < k ==> InSleep(trace[m].pcs[t]))
    && (forall m :: i <= m < k ==> trace[m + 1].pcs[t] == trace[m].pcs[t] || Onward(trace[m].pcs[t], trace[m + 1].pcs[t], same))
  }

  /** The process is back from sleep and holds the lock that it had when it called. */
  predicate Returned(s: State, same: bool, t: nat) {
    t < |s.pcs| && s.pcs[t] == Critical(false) && Lk(s, same) == Some(t)
  }

  /** From state `a` to state `b`, process `t` stays where it is in sleep, or moves on, out of sleep only with the lock. */
  predicate Moves(a: State, b: State, same: bool, t: nat) {
    && t < |a.pcs| == |b.pcs|
    && (InSleep(a.pcs[t]) ==>
          && (b.pcs[t] == a.pcs[t] || Onward(a.pcs[t], b.pcs[t], same))
          && (InSleep(b.pcs[t]) || Returned(b, same, t)))
  }

  lemma StepMoves(s: State, e: Step, same: bool, t: nat)
    requires Inv(s, same) && Enabled(s, e, same) && t < |s.pcs|
    ensures Moves(s, Apply(s, e, same), same, t)
  {
    StepKeepsInv(s, e, same);
    assert LocksAt(Apply(s, e, same), same, t);
    if InSleep(s.pcs[t]) {
      StepInSleep(s, e, same, t);
    }
    hide Apply, Enabled, Inv;
  }

  lemma {:induction false} SleepGoesOn(trace: seq<State>, same: bool, t: nat, i: nat, k: nat) returns (end: nat)
    requires i <= k < |trace| && (forall m :: i <= m < k ==> Moves(trace[m], trace[m + 1], same, t))
    requires t < |trace[i].pcs| && InSleep(trace[i].pcs[t])
    ensures SleepsUntil(trace, same, t, i, end) && end <= k
    ensures if InSleep(trace[end].pcs[t]) then end == k else Returned(trace[end], same, t)
    decreases k
  {
    hide InSleep, Onward, Returned;
    if k == i {
      end := i;
    } else {
      end := SleepGoesOn(trace, same, t, i, k - 1);
      if InSleep(trace[end].pcs[t]) {
        assert Moves(trace[end], trace[end + 1], same, t);
        end := end + 1;
      }
    }
  }

  /**
   * In every run, a process that has found the condition false and sleeps is next outside sleep only when it holds the
   * lock again: until then it is on its way from place to place, and never elsewhere.
   */
  lemma SleepReturnsHolding(s: State, steps: seq<Step>, same: bool, t: nat, i: nat)
    requires Start(s) && Possible(s, steps, same) && i <= |steps|
    requires t < |Trace(s, steps, same)[i].pcs| && Trace(s, steps, same)[i].pcs[t].Tested?
    ensures exists end: nat ::
              && SleepsUntil(Trace(s, steps, same), same, t, i, end)
              && if InSleep(Trace(s, steps, same)[end].pcs[t]) then end == |steps| else Returned(Trace(s, steps, same)[end], same, t)
  {
    var trace := Trace(s, steps, same);
    TraceAt(s, steps, same, i);
    forall m | 0 <= m < |steps| ensures Moves(trace[m], trace[m + 1], same, t) {
      TraceAt(s, steps, same, m);
      StepMoves(trace[m], steps[m], same, t);
    }
    var end := SleepGoesOn(trace, same, t, i, |steps|);
  }

  // ----- Progress -----

  /** `t` is SLEEPING in every state of the run. */
  predicate SleepsThrough(s: State, steps: seq<Step>, same: bool, t: nat)
    requires Possible(s, steps, same)
    decreases |steps|
  {
    && t < |s.pcs| && s.pcs[t] == Asleep(false)
    && (steps != [] ==> SleepsThrough(Apply(s, steps[0], same), steps[1..], same, t))
  }

  /** A wakeup on its way to a sleeping process stays on its way until it has woken it: it cannot end before. */
  lemma {:induction false} ComingUntilWoken(s: State, steps: seq<Step>, same: bool, w: nat, t: nat)
    requires Inv(s, same) && Possible(s, steps, same) && SleepsThrough(s, steps, same, t)
    requires w < |s.pcs| && Coming(s, w, t)
    ensures w < |Run(s, steps, same).pcs| && Coming(Run(s, steps, same), w, t)
    decreases |steps|
  {
    if steps != [] {
      assert LocksAt(s, same, t) && LocksAt(s, same, w);
      hide Apply, Enabled, LocksAt, NoneMissed, Coming;
      StepKeepsInv(s, steps[0], same);
      StillComing(s, steps[0], same, w, t);
      ComingUntilWoken(Apply(s, steps[0], same), steps[1..], same, w, t);
    }
  }

  /** A step that a process can take on its own once it has its locks. */
  function Own(s: State, t: nat, same: bool): (e: Step)
    requires t < |s.pcs|
  {
    match s.pcs[t]
    case Busy => ReleasePt(t)
    case Critical(owes) => if owes then WakeStart(t) else ReleaseLk(t)
    case Tested => if same then GoToSleep(t) else SleepAcquire(t)
    case Both => SleepRelease(t)
    case Going => GoToSleep(t)
    case Back => Resume(t)
    case Waking(next, _) => if next < |s.pcs| then WakeOne(t) else WakeEnd(t)
    case Asleep(_) => Dispatch(t)
    case Relock => AcquireLk(t)
    case Owes => WakeStart(t)
    case Idle => AcquireLk(t)
  }

  /** Who holds the lock that the step of process `t` takes. */
  function WaitsFor(s: State, t: nat, same: bool): (o: Option)
    requires t < |s.pcs|
  {
    match Own(s, t, same)
    case AcquireLk(_) => Lk(s, same)
    case SleepAcquire(_) => s.pt
    case Dispatch(_) => s.pt
    case WakeStart(_) => if same && s.pcs[t].Critical? then None else s.pt
    case _ => None
  }

  /** A process that is not asleep can step, or some process holds the lock that it wants. */
  lemma StepsOrWaits(s: State, same: bool, t: nat)
    requires t < |s.pcs| && LocksAt(s, same, t) && s.pcs[t] != Asleep(false)
    ensures Enabled(s, Own(s, t, same), same) || WaitsFor(s, t, same).Some?
  {
  }

  /** The holder of ptable.lock waits for nothing, and the holder of lk at most for ptable.lock. */
  lemma HolderSteps(s: State, same: bool, t: nat)
    requires t < |s.pcs| && LocksAt(s, same, t)
    ensures s.pt == Some(t) ==> Enabled(s, Own(s, t, same), same)
    ensures s.lk == Some(t) && !Enabled(s, Own(s, t, same), same) ==> WaitsFor(s, t, same) == s.pt
    ensures s.pt == Some(t) || s.lk == Some(t) ==> s.pcs[t] != Asleep(false)
  {
  }

  /**
   * Sleep and wakeup take the locks in one order and so do not deadlock: in every reachable
   * state, a process that is not asleep can step, or the holder `u` of the lock it waits for can,
   * or `u` waits for a lock whose holder `w` can.
   */
  lemma NoDeadlock(s: State, steps: seq<Step>, same: bool, t: nat)
    requires Start(s) && Possible(s, steps, same) && t < |Run(s, steps, same).pcs|
    requires Run(s, steps, same).pcs[t] != Asleep(false)
    ensures
      var now := Run(s, steps, same);
      || Enabled(now, Own(now, t, same), same)
      || (&& WaitsFor(now, t, same).Some?
          && var u := WaitsFor(now, t, same).t;
          && u < |now.pcs|
          && (|| Enabled(now, Own(now, u, same), same)
              || (&& WaitsFor(now, u, same).Some?
                  && WaitsFor(now, u, same).t < |now.pcs|
                  && Enabled(now, Own(now, WaitsFor(now, u, same).t, same), same))))
  {
    RunKeepsInv(s, steps, same);
    hide Run, Possible, NoneMissed, Enabled, Own;
    var now := Run(s, steps, same);
    assert LocksAt(now, same, t);
    StepsOrWaits(now, same, t);
    if !Enabled(now, Own(now, t, same), same) {
      var u := WaitsFor(now, t, same).t;
      assert LocksAt(now, same, u);
      HolderSteps(now, same, u);
      if !Enabled(now, Own(now, u, same), same) {
        StepsOrWaits(now, same, u);
        assert LocksAt(now, same, now.pt.t);
        HolderSteps(now, same, now.pt.t);
      }
    }
  }
}
