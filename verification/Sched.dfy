/** Processes and their scheduling (proc.c, and the timer interrupt of trap.c) as a state machine. */
module Sched {
  import opened Seqs

  /** Clock ticks a process may run before it gets a new deadline (bfs.h:1). */
  const QUANTUM: int := 50
  const NICE_FIRST: int := -20

  datatype PState = UNUSED | EMBRYO | SLEEPING | RUNNABLE | RUNNING | ZOMBIE

  datatype Proc = Proc(state: PState, pid: int, nice: int, deadline: int, ticksLeft: int, chan: int, killed: bool)

  /** A waiting process as the run queue knows it. */
  datatype Entry = Entry(pid: int, deadline: int)

  /** `cpus` says which process runs on which processor; `window` holds the processes that fork has
      made RUNNABLE and not yet inserted. */
  datatype KState = KState(
    procs: seq<Proc>, queue: seq<Entry>, ticks: nat, nextpid: int, cpus: map<nat, nat>, window: set<nat>)

  /** proc.c:218-221 */
  function VirtualDeadline(ticks: nat, nice: int): (d: int) {
    ticks + QUANTUM * (nice - NICE_FIRST + 1)
  }

  /** The deadline comes after that of the headers of the skip list. */
  predicate NiceOk(ticks: nat, nice: int) {
    VirtualDeadline(ticks, nice) > -1
  }

  /** Values from the documented range are fine at any time; below -21 it takes a clock that has run for long enough. */
  lemma NiceValues(ticks: nat, nice: int)
    ensures -20 <= nice <= 19 ==> NiceOk(ticks, nice)
    ensures NiceOk(ticks, nice) <==> nice >= -21 || ticks >= 50 * (-21 - nice)
    ensures VirtualDeadline(0, -100) == -3950 && !NiceOk(0, -100)
  {
  }

  /** A level of niceness is worth 50 ticks, and the first level one quantum. */
  lemma NiceSpacing(ticks: nat, a: int, b: int)
    ensures VirtualDeadline(ticks, b) - VirtualDeadline(ticks, a) == 50 * (b - a)
    ensures VirtualDeadline(ticks, -20) == ticks + 50
    ensures VirtualDeadline(ticks, a) == ticks + 50 * (a + 21)
  {
  }

  // ----- The run queue -----

  /** How many entries have a deadline of at most `d`. */
  function QRank(q: seq<Entry>, d: int): (r: nat)
    ensures r <= |q|
  {
    if q == [] || q[0].deadline > d then 0 else 1 + QRank(q[1..], d)
  }

  /** Insertion behind all entries with an earlier or equal deadline. */
  function QInsert(q: seq<Entry>, e: Entry): (r: seq<Entry>) {
    InsertAt(q, QRank(q, e.deadline), e)
  }

  ghost predicate Sorted(q: seq<Entry>) {
    forall j, k :: 0 <= j < k < |q| ==> q[j].deadline <= q[k].deadline
  }

  lemma {:induction false} QRankSplits(q: seq<Entry>, d: int)
    requires Sorted(q)
    ensures forall k :: 0 <= k < QRank(q, d) ==> q[k].deadline <= d
    ensures forall k :: QRank(q, d) <= k < |q| ==> q[k].deadline > d
  {
    if q != [] && q[0].deadline <= d {
      QRankSplits(q[1..], d);
      assert forall k :: 0 < k < |q| ==> q[k] == q[1..][k - 1];
    }
  }

  // ----- Steps -----

  datatype Step =
    | Alloc(i: nat)              // allocproc finds a free slot
    | AllocFails(i: nat)         // no memory for the new process
    | Ready(i: nat)              // fork makes the child RUNNABLE
    | Insert(i: nat, nice: int)  // fork gives the child its deadline and inserts it
    | Dispatch(c: nat, i: nat)   // the scheduler of processor c switches to process i
    | Tick                       // the clock advances
    | CountDown(c: nat)          // the timer takes one tick of the running process's quantum
    | Yield(c: nat)              // the running process gives up the processor
    | Sleep(c: nat, chan: int)   // the running process goes to sleep
    | Exit(c: nat)               // the running process exits
    | Wake(i: nat)               // a sleeping process is woken
    | Kill(i: nat)               // a process is marked as killed
    | Reap(i: nat)               // the parent collects an exited process

  predicate Runs(s: KState, c: nat) {
    c in s.cpus && s.cpus[c] < |s.procs| && s.procs[s.cpus[c]].state.RUNNING?
  }

  predicate Enabled(s: KState, step: Step) {
    match step
    case Alloc(i) => i < |s.procs| && s.procs[i].state.UNUSED?
    case AllocFails(i) => i < |s.procs| && s.procs[i].state.EMBRYO?
    case Ready(i) => i < |s.procs| && s.procs[i].state.EMBRYO?
    case Insert(i, nice) => i < |s.procs| && i in s.window && NiceOk(s.ticks, nice)
    case Dispatch(c, i) => c !in s.cpus && i < |s.procs| && s.queue != [] && s.procs[i].pid == s.queue[0].pid
    case Tick => true
    case CountDown(c) => Runs(s, c)
    case Yield(c) => Runs(s, c)
    case Sleep(c, chan) => Runs(s, c)
    case Exit(c) => Runs(s, c)
    case Wake(i) => i < |s.procs| && s.procs[i].state.SLEEPING?
    case Kill(i) => i < |s.procs|
    case Reap(i) => i < |s.procs| && s.procs[i].state.ZOMBIE?
  }

  function Put(s: KState, i: nat, p: Proc): (t: KState)
    requires i < |s.procs|
  {
    s.(procs := s.procs[i := p])
  }

  /** The process as it is queued again after a yield (proc.c:619-624). */
  function Requeued(s: KState, p: Proc): (r: Proc) {
    p.(state := RUNNABLE, deadline := if p.ticksLeft == 0 then VirtualDeadline(s.ticks, p.nice) else p.deadline)
  }

  function Enqueue(s: KState, i: nat, p: Proc): (t: KState)
    requires i < |s.procs|
  {
    s.(procs := s.procs[i := p], queue := QInsert(s.queue, Entry(p.pid, p.deadline)))
  }

  function Apply(s: KState, step: Step): (t: KState)
    requires Enabled(s, step)
  {
    match step
    case Alloc(i) => Put(s, i, s.procs[i].(state := EMBRYO, pid := s.nextpid)).(nextpid := s.nextpid + 1)
    case AllocFails(i) => Put(s, i, s.procs[i].(state := UNUSED))
    case Ready(i) => Put(s, i, s.procs[i].(state := RUNNABLE)).(window := s.window + {i})
    case Insert(i, nice) =>
      Enqueue(s, i, s.procs[i].(nice := nice, deadline := VirtualDeadline(s.ticks, nice))).(window := s.window - {i})
    case Dispatch(c, i) =>
      Put(s, i, s.procs[i].(state := RUNNING, ticksLeft := QUANTUM)).(queue := s.queue[1..], cpus := s.cpus[c := i])
    case Tick => s.(ticks := s.ticks + 1)
    case CountDown(c) => Put(s, s.cpus[c], s.procs[s.cpus[c]].(ticksLeft := s.procs[s.cpus[c]].ticksLeft - 1))
    case Yield(c) => Enqueue(s, s.cpus[c], Requeued(s, s.procs[s.cpus[c]])).(cpus := s.cpus - {c})
    case Sleep(c, chan) => Put(s, s.cpus[c], s.procs[s.cpus[c]].(state := SLEEPING, chan := chan)).(cpus := s.cpus - {c})
    case Exit(c) => Put(s, s.cpus[c], s.procs[s.cpus[c]].(state := ZOMBIE)).(cpus := s.cpus - {c})
    case Wake(i) => Enqueue(s, i, s.procs[i].(state := RUNNABLE))
    case Kill(i) => Put(s, i, s.procs[i].(killed := true))
    case Reap(i) => Put(s, i, s.procs[i].(state := UNUSED, pid := 0, killed := false))
  }

  predicate Takes(s: KState, step: Step, t: KState) {
    Enabled(s, step) && t == Apply(s, step)
  }

  lemma YieldStep(s: KState, c: nat)
    requires Runs(s, c)
    ensures Enabled(s, Yield(c))
    ensures var p := Requeued(s, s.procs[s.cpus[c]]);
            Apply(s, Yield(c)) == s.(
              procs := s.procs[s.cpus[c] := p], queue := QInsert(s.queue, Entry(p.pid, p.deadline)), cpus := s.cpus - {c})
  {
  }

  lemma InsertStep(s: KState, i: nat, nice: int)
    requires i < |s.procs| && i in s.window && NiceOk(s.ticks, nice)
    ensures Enabled(s, Insert(i, nice))
    ensures var p := s.procs[i].(nice := nice, deadline := VirtualDeadline(s.ticks, nice));
            Apply(s, Insert(i, nice)) == s.(
              procs := s.procs[i := p], queue := QInsert(s.queue, Entry(p.pid, p.deadline)), window := s.window - {i})
  {
  }

  lemma CountDownStep(s: KState, c: nat)
    requires Runs(s, c)
    ensures Enabled(s, CountDown(c))
    ensures var p := s.procs[s.cpus[c]];
            Apply(s, CountDown(c)) == s.(procs := s.procs[s.cpus[c] := p.(ticksLeft := p.ticksLeft - 1)])
  {
  }

  lemma DispatchStep(s: KState, c: nat, i: nat)
    requires c !in s.cpus && i < |s.procs| && s.queue != [] && s.procs[i].pid == s.queue[0].pid
    ensures Enabled(s, Dispatch(c, i))
    ensures Apply(s, Dispatch(c, i)) == s.(
              procs := s.procs[i := s.procs[i].(state := RUNNING, ticksLeft := QUANTUM)],
              queue := s.queue[1..], cpus := s.cpus[c := i])
  {
  }

  lemma TickStep(s: KState)
    ensures Enabled(s, Tick) && Apply(s, Tick) == s.(ticks := s.ticks + 1)
  {
  }

  // ----- What every step keeps -----

  /** Process numbers are given out once; a slot keeps a stale one or zero when it is free. */
  ghost predicate PidsOk(s: KState) {
    && s.nextpid > 0 && (forall i :: 0 <= i < |s.procs| ==> 0 <= s.procs[i].pid < s.nextpid)
    && (forall i :: 0 <= i < |s.procs| && !s.procs[i].state.UNUSED? ==> s.procs[i].pid > 0)
    && (forall i, j :: 0 <= i < j < |s.procs| && s.procs[i].pid == s.procs[j].pid ==> s.procs[i].pid == 0)
  }

  function EntryOf(p: Proc): (e: Entry) {
    Entry(p.pid, p.deadline)
  }

  predicate Waits(s: KState, i: nat) {
    i < |s.procs| && s.procs[i].state.RUNNABLE? && i !in s.window
  }

  /** Entry `e` is that of a waiting process, under its current deadline. */
  ghost predicate Backed(s: KState, e: Entry) {
    exists i: nat :: Waits(s, i) && EntryOf(s.procs[i]) == e
  }

  ghost predicate OncePerPid(q: seq<Entry>) {
    forall j, k :: 0 <= j < k < |q| ==> q[j].pid != q[k].pid
  }

  /** The queue holds exactly the RUNNABLE processes outside the fork window, each once. */
  ghost predicate QueueOk(s: KState) {
    && Sorted(s.queue) && OncePerPid(s.queue)
    && (forall e :: e in s.queue ==> Backed(s, e))
    && (forall i: nat :: Waits(s, i) ==> EntryOf(s.procs[i]) in s.queue)
  }

  /** The process has been given a deadline. */
  predicate Timed(s: KState, i: nat) {
    i < |s.procs| && i !in s.window && (s.procs[i].state.RUNNABLE? || s.procs[i].state.RUNNING? || s.procs[i].state.SLEEPING?)
  }

  ghost predicate TimesOk(s: KState) {
    && (forall i: nat :: i in s.window ==> i < |s.procs| && s.procs[i].state.RUNNABLE?)
    && (forall i: nat :: Timed(s, i) ==> NiceOk(s.ticks, s.procs[i].nice) && s.procs[i].deadline > -1)
  }

  /** The processes that run are those some processor runs, each on one. */
  ghost predicate CpusOk(s: KState) {
    && (forall c :: c in s.cpus ==> Runs(s, c))
    && (forall c, e :: c in s.cpus && e in s.cpus && s.cpus[c] == s.cpus[e] ==> c == e)
    && (forall i: nat :: i < |s.procs| && s.procs[i].state.RUNNING? ==> exists c :: c in s.cpus && s.cpus[c] == i)
  }

  ghost predicate Inv(s: KState) {
    PidsOk(s) && QueueOk(s) && TimesOk(s) && CpusOk(s)
  }

  lemma QInsertOk(q: seq<Entry>, e: Entry)
    requires Sorted(q)
    ensures Sorted(QInsert(q, e))
    ensures forall x :: x in QInsert(q, e) <==> x in q || x == e
    ensures OncePerPid(q) && (forall x :: x in q ==> x.pid != e.pid) ==> OncePerPid(QInsert(q, e))
  {
    hide InsertAt, QRank;
    QRankSplits(q, e.deadline);
    InsertMembers(q, QRank(q, e.deadline), e);
  }

  /** Two waiting processes with one number are the same. */
  lemma SamePid(s: KState, i: nat, j: nat)
    requires PidsOk(s) && i < |s.procs| && j < |s.procs| && s.procs[i].pid == s.procs[j].pid > 0
    ensures i == j
  {
  }

  /** A step that leaves the queue and the waiting processes alone. */
  lemma QueueKept(s: KState, t: KState)
    requires QueueOk(s) && t.queue == s.queue && |t.procs| == |s.procs|
    requires forall i: nat :: Waits(s, i) ==> Waits(t, i) && EntryOf(t.procs[i]) == EntryOf(s.procs[i])
    requires forall i: nat :: Waits(t, i) ==> Waits(s, i)
    ensures QueueOk(t)
  {
    forall e | e in t.queue ensures Backed(t, e) {
      assert Backed(s, e);
      var i: nat :| Waits(s, i) && EntryOf(s.procs[i]) == e;
      assert Waits(t, i);
    }
  }

  /** A step that queues process `i`. */
  lemma QueueGrows(s: KState, t: KState, i: nat)
    requires PidsOk(s) && QueueOk(s) && i < |s.procs| == |t.procs| && !Waits(s, i) && Waits(t, i)
    requires t.procs[i].pid == s.procs[i].pid > 0 && t.queue == QInsert(s.queue, EntryOf(t.procs[i]))
    requires forall j: nat :: j < |s.procs| && j != i ==> t.procs[j] == s.procs[j] && Waits(t, j) == Waits(s, j)
    ensures QueueOk(t)
  {
    var e := EntryOf(t.procs[i]);
    forall x | x in s.queue ensures x.pid != e.pid {
      assert Backed(s, x);
      var j: nat :| Waits(s, j) && EntryOf(s.procs[j]) == x;
      if x.pid == e.pid {
        SamePid(s, i, j);
      }
    }
    QInsertOk(s.queue, e);
    hide QInsert;
    forall x | x in t.queue ensures Backed(t, x) {
      if x == e {
        assert Waits(t, i);
      } else {
        assert Backed(s, x);
        var j: nat :| Waits(s, j) && EntryOf(s.procs[j]) == x;
        assert Waits(t, j);
      }
    }
  }

  /** A step that takes the first process off the queue. */
  lemma QueueShrinks(s: KState, t: KState, i: nat)
    requires PidsOk(s) && QueueOk(s) && i < |s.procs| == |t.procs| && s.queue != []
    requires s.procs[i].pid == s.queue[0].pid && !Waits(t, i) && t.queue == s.queue[1..]
    requires forall j: nat :: j < |s.procs| && j != i ==> t.procs[j] == s.procs[j] && Waits(t, j) == Waits(s, j)
    ensures Waits(s, i) && s.queue[0] == EntryOf(s.procs[i]) && QueueOk(t)
  {
    HeadOwner(s, i);
    forall x | x in t.queue ensures Backed(t, x) {
      assert x in s.queue && Backed(s, x);
      var j: nat :| Waits(s, j) && EntryOf(s.procs[j]) == x;
      var k :| 0 <= k < |t.queue| && t.queue[k] == x;
      assert s.queue[k + 1] == x;
      assert Waits(t, j);
    }
    forall j: nat | Waits(t, j) ensures EntryOf(t.procs[j]) in t.queue {
      assert EntryOf(s.procs[j]) in s.queue;
      var k :| 0 <= k < |s.queue| && s.queue[k] == EntryOf(s.procs[j]);
      if k == 0 {
        SamePid(s, i, j);
      }
      assert t.queue[k - 1] == s.queue[k];
    }
  }

  /** The process at the head of the queue is a waiting one. */
  lemma HeadOwner(s: KState, i: nat)
    requires PidsOk(s) && QueueOk(s) && s.queue != [] && i < |s.procs| && s.procs[i].pid == s.queue[0].pid
    ensures Waits(s, i) && s.queue[0] == EntryOf(s.procs[i])
  {
    assert s.queue[0] in s.queue && Backed(s, s.queue[0]);
    var j: nat :| Waits(s, j) && EntryOf(s.procs[j]) == s.queue[0];
    SamePid(s, i, j);
  }

  predicate OnCpu(step: Step) {
    step.CountDown? || step.Yield? || step.Sleep? || step.Exit?
  }

  /** The slot a step changes. */
  function Slot(s: KState, step: Step): (i: nat)
    requires Enabled(s, step) && !step.Tick?
  {
    if OnCpu(step) then s.cpus[step.c] else step.i
  }

  /** What a step does to the one slot it changes; the others stay as they are. */
  lemma OneSlot(s: KState, step: Step)
    requires Enabled(s, step) && !step.Tick?
    ensures var t, i := Apply(s, step), Slot(s, step);
            && |t.procs| == |s.procs| && i < |s.procs|
            && (forall j :: 0 <= j < |s.procs| && j != i ==> t.procs[j] == s.procs[j])
            && (!step.Alloc? && !step.Reap? ==> t.procs[i].pid == s.procs[i].pid && t.nextpid == s.nextpid)
            && (t.procs[i].state.UNUSED? ==> step.AllocFails? || step.Reap? || s.procs[i].state.UNUSED?)
  {
    hide QInsert;
  }

  /** The deadline that a step gives to the slot it changes. */
  function DeadlineAfter(s: KState, step: Step): (d: int)
    requires Enabled(s, step) && !step.Tick?
  {
    var p := s.procs[Slot(s, step)];
    if step.Insert? then VirtualDeadline(s.ticks, step.nice)
    else if step.Yield? && p.ticksLeft == 0 then VirtualDeadline(s.ticks, p.nice)
    else p.deadline
  }

  /** Who has a deadline after a step, and which. */
  lemma SlotTimes(s: KState, step: Step)
    requires PidsOk(s) && QueueOk(s) && Enabled(s, step) && !step.Tick?
    ensures var t, i := Apply(s, step), Slot(s, step);
            && i < |s.procs| == |t.procs| && t.ticks == s.ticks
            && (forall j: nat :: j != i ==> (Timed(t, j) <==> Timed(s, j)))
            && (forall j :: 0 <= j < |s.procs| && j != i ==> t.procs[j] == s.procs[j])
            && (Timed(t, i) ==> step.Insert? || Timed(s, i))
            && t.procs[i].deadline == DeadlineAfter(s, step)
            && t.procs[i].nice == (if step.Insert? then step.nice else s.procs[i].nice)
            && (step.Exit? ==> !Timed(t, i))
  {
    OneSlot(s, step);
    if step.Dispatch? {
      HeadOwner(s, step.i);
    }
    hide QInsert, QueueOk, PidsOk;
  }

  lemma StepKeepsPids(s: KState, step: Step)
    requires PidsOk(s) && QueueOk(s) && Enabled(s, step)
    ensures PidsOk(Apply(s, step))
  {
    if !step.Tick? {
      OneSlot(s, step);
      if step.Dispatch? {
        HeadOwner(s, step.i);
      }
      var t, i := Apply(s, step), Slot(s, step);
      assert t.procs[i].state.UNUSED? || t.procs[i].pid > 0 by {
        hide QueueOk, QInsert;
      }
      assert PidsOk(t) by {
        hide QueueOk, Apply;
      }
    }
  }

  lemma StepKeepsQueue(s: KState, step: Step)
    requires Inv(s) && Enabled(s, step)
    ensures QueueOk(Apply(s, step))
  {
    var t := Apply(s, step);
    if step.Tick? {
      QueueKept(s, t);
    } else {
      OneSlot(s, step);
      var i := Slot(s, step);
      if step.Dispatch? {
        assert forall j: nat :: j < |s.procs| && j != i ==> Waits(t, j) == Waits(s, j);
        QueueShrinks(s, t, i);
      } else if step.Insert? || step.Yield? || step.Wake? {
        assert forall j: nat :: j < |s.procs| && j != i ==> Waits(t, j) == Waits(s, j);
        assert s.procs[i].pid > 0;
        hide QueueOk, QInsert;
        QueueGrows(s, t, i);
      } else {
        assert forall j: nat :: j < |s.procs| && j != i ==> Waits(t, j) == Waits(s, j);
        assert Waits(t, i) == Waits(s, i);
        hide QueueOk;
        QueueKept(s, t);
      }
    }
  }

  lemma StepKeepsTimes(s: KState, step: Step)
    requires Inv(s) && Enabled(s, step)
    ensures TimesOk(Apply(s, step))
  {
    var t := Apply(s, step);
    if step.Tick? {
      assert forall i: nat :: Timed(t, i) ==> Timed(s, i);
    } else {
      SlotTimes(s, step);
      StepKeepsWindow(s, step);
      hide Apply, Enabled, QueueOk, PidsOk, CpusOk;
    }
  }

  lemma StepKeepsWindow(s: KState, step: Step)
    requires Inv(s) && Enabled(s, step)
    ensures forall i: nat :: i in Apply(s, step).window ==> i < |Apply(s, step).procs| && Apply(s, step).procs[i].state.RUNNABLE?
  {
    if step.Dispatch? {
      HeadOwner(s, step.i);
    }
    hide QInsert, QueueOk, PidsOk;
  }

  lemma StepKeepsCpus(s: KState, step: Step)
    requires Inv(s) && Enabled(s, step)
    ensures CpusOk(Apply(s, step))
  {
    var t := Apply(s, step);
    if step.Tick? {
      assert forall c :: c in t.cpus ==> Runs(s, c) && Runs(t, c);
    } else {
      OneSlot(s, step);
      var i := Slot(s, step);
      if step.Dispatch? {
        HeadOwner(s, i);
      }
      hide QInsert;
      CpusKept(s, t, i, if OnCpu(step) || step.Dispatch? then step.c else 0);
    }
  }

  /** Processor `c` takes on process `i`, drops it, or nothing changes. */
  lemma CpusKept(s: KState, t: KState, i: nat, c: nat)
    requires CpusOk(s) && i < |s.procs| == |t.procs|
    requires forall j :: 0 <= j < |s.procs| && j != i ==> t.procs[j] == s.procs[j]
    requires
      || (t.cpus == s.cpus && t.procs[i].state.RUNNING? == s.procs[i].state.RUNNING?)
      || (c !in s.cpus && t.cpus == s.cpus[c := i] && !s.procs[i].state.RUNNING? && t.procs[i].state.RUNNING?)
      || (c in s.cpus && s.cpus[c] == i && t.cpus == s.cpus - {c} && !t.procs[i].state.RUNNING?)
    ensures CpusOk(t)
  {
    forall e | e in t.cpus ensures Runs(t, e) {
      assert e in s.cpus ==> Runs(s, e);
    }
    forall j: nat | j < |t.procs| && t.procs[j].state.RUNNING? ensures exists e :: e in t.cpus && t.cpus[e] == j {
      if s.procs[j].state.RUNNING? {
        var e :| e in s.cpus && s.cpus[e] == j;
        assert e in t.cpus && t.cpus[e] == j;
      } else {
        assert c in t.cpus && t.cpus[c] == j;
      }
    }
  }

  /** No step breaks the order between the process table, the queue and the processors. */
  lemma StepKeepsInv(s: KState, step: Step)
    requires Inv(s) && Enabled(s, step)
    ensures Inv(Apply(s, step))
  {
    StepKeepsPids(s, step);
    StepKeepsQueue(s, step);
    StepKeepsTimes(s, step);
    StepKeepsCpus(s, step);
  }

  // ----- Who is dispatched, and how often others may come first -----

  /** The process that a processor switches to has waited in the queue, with the earliest deadline of all that wait. */
  lemma DispatchEarliest(s: KState, c: nat, i: nat)
    requires Inv(s) && Enabled(s, Dispatch(c, i))
    ensures Waits(s, i) && forall j: nat :: Waits(s, j) ==> s.procs[i].deadline <= s.procs[j].deadline
  {
    HeadOwner(s, i);
    forall j: nat | Waits(s, j) ensures s.procs[i].deadline <= s.procs[j].deadline {
      assert EntryOf(s.procs[j]) in s.queue;
    }
  }

  /** The processes other than `w` that run, wait or sleep under a deadline of at most `d`. */
  ghost function Ahead(s: KState, w: nat, d: int): (a: set<nat>) {
    set i: nat | i < |s.procs| && i != w && Timed(s, i) && s.procs[i].deadline <= d
  }

  /** Process `w` waits under deadline `d`, and whoever gets a new deadline now gets a later one. */
  ghost predicate Due(s: KState, w: nat, d: int) {
    Waits(s, w) && s.procs[w].deadline == d && s.ticks > d - QUANTUM
  }

  /** The step ends the turn of a running process: it exits, or it has used up its quantum. */
  predicate EndsTurn(s: KState, step: Step) {
    match step
    case Exit(c) => Runs(s, c)
    case Yield(c) => Runs(s, c) && s.procs[s.cpus[c]].ticksLeft == 0
    case _ => false
  }

  lemma NewDeadlineIsLater(s: KState, nice: int, d: int)
    requires nice >= NICE_FIRST && s.ticks > d - QUANTUM
    ensures VirtualDeadline(s.ticks, nice) > d
  {
  }

  /** No process has a nice value below the first. */
  ghost predicate AllNice(s: KState) {
    forall i: nat :: Timed(s, i) ==> s.procs[i].nice >= NICE_FIRST
  }

  predicate NiceStep(step: Step) {
    step.Insert? ==> step.nice >= NICE_FIRST
  }

  lemma StepKeepsNice(s: KState, step: Step)
    requires Inv(s) && Enabled(s, step) && AllNice(s) && NiceStep(step)
    ensures AllNice(Apply(s, step))
  {
    if step.Tick? {
      assert forall i: nat :: Timed(Apply(s, step), i) ==> Timed(s, i);
    } else {
      SlotTimes(s, step);
      hide Apply, Enabled, Inv;
    }
  }

  /** No step adds a process ahead of `w`, and the end of a turn removes the one that had it. */
  lemma StepAhead(s: KState, step: Step, w: nat, d: int)
    requires Inv(s) && Enabled(s, step) && Due(s, w, d) && Due(Apply(s, step), w, d) && AllNice(s) && NiceStep(step)
    ensures Ahead(Apply(s, step), w, d) <= Ahead(s, w, d)
    ensures EndsTurn(s, step) ==> Slot(s, step) !in Ahead(Apply(s, step), w, d)
  {
    var t := Apply(s, step);
    if step.Tick? {
      assert forall j: nat :: Timed(t, j) <==> Timed(s, j);
    } else {
      SlotTimes(s, step);
      var i := Slot(s, step);
      NewIsBehind(s, step, d);
      assert step.Yield? ==> Timed(s, i);
      hide Apply, Enabled, QueueOk, PidsOk, CpusOk;
    }
  }

  /** A new deadline is later than `d`, and a turn ends with one unless the process exits. */
  lemma NewIsBehind(s: KState, step: Step, d: int)
    requires Inv(s) && Enabled(s, step) && !step.Tick? && AllNice(s) && NiceStep(step) && s.ticks > d - QUANTUM
    ensures step.Insert? || (step.Yield? && EndsTurn(s, step)) ==> DeadlineAfter(s, step) > d
    ensures step.Yield? ==> Timed(s, Slot(s, step))
    ensures !step.Insert? && !EndsTurn(s, step) ==> DeadlineAfter(s, step) == s.procs[Slot(s, step)].deadline
  {
    if step.Insert? {
      NewDeadlineIsLater(s, step.nice, d);
    }
    if step.Yield? {
      assert Runs(s, step.c);
      assert Timed(s, Slot(s, step));
      NewDeadlineIsLater(s, s.procs[Slot(s, step)].nice, d);
    }
    hide Apply, QueueOk, PidsOk, CpusOk;
  }

  // ----- Runs -----

  /** The state in which the kernel starts: no process yet. */
  function Start(nproc: nat): (s: KState) {
    KState(seq(nproc, _ => Proc(UNUSED, 0, 0, 0, 0, 0, false)), [], 0, 1, map[], {})
  }

  ghost predicate Possible(s: KState, steps: seq<Step>)
    decreases |steps|
  {
    steps == [] || (Enabled(s, steps[0]) && Possible(Apply(s, steps[0]), steps[1..]))
  }

  ghost function Exec(s: KState, steps: seq<Step>): (t: KState)
    requires Possible(s, steps)
    decreases |steps|
  {
    if steps == [] then s else Exec(Apply(s, steps[0]), steps[1..])
  }

  lemma {:induction false} RunKeepsInv(s: KState, steps: seq<Step>)
    requires Inv(s) && Possible(s, steps)
    ensures Inv(Exec(s, steps))
    decreases |steps|
  {
    if steps != [] {
      StepKeepsInv(s, steps[0]);
      RunKeepsInv(Apply(s, steps[0]), steps[1..]);
    }
  }

  /** In every reachable state the queue holds exactly the waiting processes, each once and under its
      deadline, so whoever a processor switches to is an earliest of them. */
  lemma EveryReachableState(nproc: nat, steps: seq<Step>, c: nat, i: nat)
    requires Possible(Start(nproc), steps)
    ensures var s := Exec(Start(nproc), steps);
            && QueueOk(s) && CpusOk(s)
            && (Enabled(s, Dispatch(c, i)) ==>
                  Waits(s, i) && forall j: nat :: Waits(s, j) ==> s.procs[i].deadline <= s.procs[j].deadline)
  {
    var s0 := Start(nproc);
    assert Inv(s0);
    RunKeepsInv(s0, steps);
    var s := Exec(s0, steps);
    if Enabled(s, Dispatch(c, i)) {
      DispatchEarliest(s, c, i);
    }
  }

  // ----- Niceness -----

  /** The step gives process `i` a new deadline. */
  predicate Renews(s: KState, step: Step, i: nat)
    requires Enabled(s, step)
  {
    !step.Tick? && Slot(s, step) == i && (step.Insert? || (step.Yield? && EndsTurn(s, step)))
  }

  /** No step of the run gives process `i` a new deadline. */
  ghost predicate KeepsDeadline(s: KState, steps: seq<Step>, i: nat)
    requires Possible(s, steps)
    decreases |steps|
  {
    steps != [] ==> !Renews(s, steps[0], i) && KeepsDeadline(Apply(s, steps[0]), steps[1..], i)
  }

  lemma {:induction false} DeadlineKept(s: KState, steps: seq<Step>, i: nat)
    requires Inv(s) && Possible(s, steps) && KeepsDeadline(s, steps, i) && i < |s.procs|
    ensures Inv(Exec(s, steps)) && |Exec(s, steps).procs| == |s.procs|
    ensures Exec(s, steps).procs[i].deadline == s.procs[i].deadline
    decreases |steps|
  {
    if steps != [] {
      var step := steps[0];
      StepKeepsInv(s, step);
      if !step.Tick? {
        SlotTimes(s, step);
      }
      hide QInsert, QueueOk, PidsOk, CpusOk, TimesOk;
      assert Apply(s, step).procs[i].deadline == s.procs[i].deadline && |Apply(s, step).procs| == |s.procs|;
      DeadlineKept(Apply(s, step), steps[1..], i);
    }
  }

  /** Process `i` is ahead of process `j` in the queue. */
  ghost predicate AheadOf(s: KState, i: nat, j: nat) {
    && Waits(s, i) && Waits(s, j) && EntryOf(s.procs[i]) in s.queue && EntryOf(s.procs[j]) in s.queue
    && forall k, m :: 0 <= k < |s.queue| && 0 <= m < |s.queue| ==>
         s.queue[k].pid == s.procs[i].pid && s.queue[m].pid == s.procs[j].pid ==> k < m
  }

  lemma EarlierIsAhead(s: KState, i: nat, j: nat)
    requires Inv(s) && Waits(s, i) && Waits(s, j) && s.procs[i].deadline < s.procs[j].deadline
    ensures AheadOf(s, i, j)
  {
    forall k, m | 0 <= k < |s.queue| && 0 <= m < |s.queue| && s.queue[k].pid == s.procs[i].pid && s.queue[m].pid == s.procs[j].pid
      ensures k < m
    {
      QueuedUnder(s, k, i);
      QueuedUnder(s, m, j);
    }
  }

  /** An entry is under the deadline of its process. */
  lemma QueuedUnder(s: KState, k: nat, i: nat)
    requires Inv(s) && k < |s.queue| && i < |s.procs| && s.queue[k].pid == s.procs[i].pid
    ensures s.queue[k] == EntryOf(s.procs[i])
  {
    assert s.queue[k] in s.queue && Backed(s, s.queue[k]);
    var j: nat :| Waits(s, j) && EntryOf(s.procs[j]) == s.queue[k];
    SamePid(s, i, j);
  }

  /** Two children that are inserted at one tick: as long as both wait under the deadlines they got then, the nicer one
      is behind, whichever was inserted first and whatever happened between and after. */
  lemma NiceOrder(s: KState, i: nat, a: int, middle: seq<Step>, j: nat, b: int, after: seq<Step>)
    requires Inv(s) && Enabled(s, Insert(i, a)) && Possible(Apply(s, Insert(i, a)), middle)
    requires var t := Exec(Apply(s, Insert(i, a)), middle);
             && t.ticks == s.ticks && Enabled(t, Insert(j, b)) && Possible(Apply(t, Insert(j, b)), after) && i != j
             && KeepsDeadline(Apply(s, Insert(i, a)), middle, i)
             && KeepsDeadline(Apply(t, Insert(j, b)), after, i) && KeepsDeadline(Apply(t, Insert(j, b)), after, j)
             && var u := Exec(Apply(t, Insert(j, b)), after);
             Waits(u, i) && Waits(u, j)
    ensures var u := Exec(Apply(Exec(Apply(s, Insert(i, a)), middle), Insert(j, b)), after);
            && u.procs[i].deadline == s.ticks + 50 * (a + 21) && u.procs[j].deadline == s.ticks + 50 * (b + 21)
            && (a < b ==> AheadOf(u, i, j)) && (b < a ==> AheadOf(u, j, i))
  {
    var s1 := Apply(s, Insert(i, a));
    StepKeepsInv(s, Insert(i, a));
    InsertStep(s, i, a);
    DeadlineKept(s1, middle, i);
    var t := Exec(s1, middle);
    StepKeepsInv(t, Insert(j, b));
    InsertStep(t, j, b);
    var t1 := Apply(t, Insert(j, b));
    DeadlineKept(t1, after, i);
    DeadlineKept(t1, after, j);
    var u := Exec(t1, after);
    NiceSpacing(s.ticks, a, b);
    NiceSpacing(s.ticks, b, a);
    hide Apply, Enabled, Possible, Exec, KeepsDeadline, Inv, QInsert, VirtualDeadline;
    if a < b {
      EarlierIsAhead(u, i, j);
    }
    if b < a {
      EarlierIsAhead(u, j, i);
    }
  }

  // ----- Turns -----

  /** How many ticks of its quantum the timer takes from the process on processor `c`. */
  function Ticked(steps: seq<Step>, c: nat): (n: nat) {
    if steps == [] then 0 else (if steps[0] == CountDown(c) then 1 else 0) + Ticked(steps[1..], c)
  }

  predicate Leaves(step: Step, c: nat) {
    step == Yield(c) || step == Exit(c) || (step.Sleep? && step.c == c)
  }

  /** The process on processor `c` stays there; only the timer of that processor takes its time. */
  lemma StepStays(s: KState, step: Step, c: nat)
    requires Inv(s) && Enabled(s, step) && Runs(s, c) && !Leaves(step, c)
    ensures var t, i := Apply(s, step), s.cpus[c];
            && Runs(t, c) && t.cpus[c] == i && |t.procs| == |s.procs|
            && t.procs[i].ticksLeft == s.procs[i].ticksLeft - (if step == CountDown(c) then 1 else 0)
            && t.procs[i].nice == s.procs[i].nice && t.procs[i].deadline == s.procs[i].deadline
  {
    if !step.Tick? {
      OneSlot(s, step);
    }
    if step.Dispatch? {
      HeadOwner(s, step.i);
    }
    hide QInsert, QueueOk, PidsOk;
  }

  lemma {:induction false} RunStays(s: KState, steps: seq<Step>, c: nat)
    requires Inv(s) && Runs(s, c) && Possible(s, steps) && forall k :: 0 <= k < |steps| ==> !Leaves(steps[k], c)
    ensures var t, i := Exec(s, steps), s.cpus[c];
            && Runs(t, c) && t.cpus[c] == i && |t.procs| == |s.procs|
            && t.procs[i].ticksLeft == s.procs[i].ticksLeft - Ticked(steps, c)
            && t.procs[i].nice == s.procs[i].nice && t.procs[i].deadline == s.procs[i].deadline
    decreases |steps|
  {
    if steps != [] {
      StepKeepsInv(s, steps[0]);
      StepStays(s, steps[0], c);
      hide Apply, Enabled, Inv, Leaves;
      RunStays(Apply(s, steps[0]), steps[1..], c);
    }
  }

  /** A process that has been switched to has a quantum of 50 ticks. If it gives the processor up after those it gets a
      new deadline; before, it keeps the one it has. */
  lemma TurnLasts(s: KState, c: nat, i: nat, steps: seq<Step>)
    requires Inv(s) && Enabled(s, Dispatch(c, i)) && Possible(Apply(s, Dispatch(c, i)), steps)
    requires forall k :: 0 <= k < |steps| ==> !Leaves(steps[k], c)
    ensures var t := Exec(Apply(s, Dispatch(c, i)), steps);
            && Runs(t, c) && t.cpus[c] == i && i < |t.procs|
            && t.procs[i].ticksLeft == 50 - Ticked(steps, c)
            && Apply(t, Yield(c)).procs[i].deadline ==
               if Ticked(steps, c) == 50 then t.ticks + 50 * (s.procs[i].nice + 21) else s.procs[i].deadline
  {
    var s1 := Apply(s, Dispatch(c, i));
    DispatchStep(s, c, i);
    StepKeepsInv(s, Dispatch(c, i));
    RunStays(s1, steps, c);
    var t := Exec(s1, steps);
    YieldStep(t, c);
    NiceSpacing(t.ticks, t.procs[i].nice, 0);
    hide Apply, Enabled, Inv, Possible, Exec, Leaves, VirtualDeadline;
  }

  // ----- Waiting -----

  /** Process `w` waits under deadline `d` all through the run. */
  ghost predicate KeepsWaiting(s: KState, steps: seq<Step>, w: nat, d: int)
    requires Possible(s, steps)
    decreases |steps|
  {
    Due(s, w, d) && (steps != [] ==> KeepsWaiting(Apply(s, steps[0]), steps[1..], w, d))
  }

  /** Which processes run that have been switched to since the run began. */
  ghost function Since(s: KState, step: Step, since: set<nat>): (r: set<nat>)
    requires Enabled(s, step)
  {
    if step.Dispatch? then since + {step.i}
    else if step.Yield? || step.Sleep? || step.Exit? then since - {s.cpus[step.c]}
    else since
  }

  /** How many turns end in the run, of processes switched to since it began. */
  ghost function Turns(s: KState, steps: seq<Step>, since: set<nat>): (n: nat)
    requires Possible(s, steps)
    decreases |steps|
  {
    if steps == [] then 0
    else
      (if EndsTurn(s, steps[0]) && Slot(s, steps[0]) in since then 1 else 0)
      + Turns(Apply(s, steps[0]), steps[1..], Since(s, steps[0], since))
  }

  ghost predicate AllAhead(s: KState, since: set<nat>, d: int) {
    forall i :: i in since ==> i < |s.procs| && s.procs[i].state.RUNNING? && s.procs[i].deadline <= d
  }

  lemma SinceAhead(s: KState, step: Step, since: set<nat>, w: nat, d: int)
    requires Inv(s) && Enabled(s, step) && Due(s, w, d) && Due(Apply(s, step), w, d) && AllAhead(s, since, d)
    ensures AllAhead(Apply(s, step), Since(s, step, since), d)
  {
    hide QInsert;
    if !step.Tick? {
      OneSlot(s, step);
      if step.Dispatch? {
        DispatchEarliest(s, step.c, step.i);
      }
    }
    hide QueueOk, PidsOk, TimesOk;
  }

  /** A turn that begins in a run and ends in it is counted. */
  lemma {:induction false} TurnCounted(s: KState, steps: seq<Step>, since: set<nat>, c: nat, last: Step)
    requires Inv(s) && Runs(s, c) && s.cpus[c] in since && Possible(s, steps + [last])
    requires (forall k :: 0 <= k < |steps| ==> !Leaves(steps[k], c)) && (last == Yield(c) || last == Exit(c))
    requires Possible(s, steps) && EndsTurn(Exec(s, steps), last)
    ensures Turns(s, steps + [last], since) >= 1
    decreases |steps|
  {
    hide Apply, Enabled, Inv, Since, EndsTurn, Slot, Runs, Leaves;
    var all := steps + [last];
    if steps == [] {
      assert all == [last];
      assert Enabled(s, last);
      EndCounted(s, since, c, last);
    } else {
      var step, t := steps[0], Apply(s, steps[0]);
      assert all[0] == step && all[1..] == steps[1..] + [last];
      StepKeepsInv(s, step);
      StepStays(s, step, c);
      StaysSince(s, step, since, c);
      TurnCounted(t, steps[1..], Since(s, step, since), c, last);
    }
  }

  lemma EndCounted(s: KState, since: set<nat>, c: nat, last: Step)
    requires Runs(s, c) && s.cpus[c] in since && Possible(s, [last]) && (last == Yield(c) || last == Exit(c)) && EndsTurn(s, last)
    ensures Turns(s, [last], since) >= 1
  {
    assert Slot(s, last) == s.cpus[c];
  }

  lemma StaysSince(s: KState, step: Step, since: set<nat>, c: nat)
    requires Inv(s) && Enabled(s, step) && Runs(s, c) && s.cpus[c] in since && !Leaves(step, c)
    ensures s.cpus[c] in Since(s, step, since)
  {
    hide QueueOk, PidsOk, TimesOk;
  }

  /** One who gets the processor and ends its turn has overtaken once. */
  lemma OvertakingCounted(s: KState, c: nat, i: nat, steps: seq<Step>, last: Step)
    requires Inv(s) && Enabled(s, Dispatch(c, i)) && Possible(s, [Dispatch(c, i)] + (steps + [last]))
    requires (forall k :: 0 <= k < |steps| ==> !Leaves(steps[k], c)) && (last == Yield(c) || last == Exit(c))
    requires Possible(Apply(s, Dispatch(c, i)), steps) && EndsTurn(Exec(Apply(s, Dispatch(c, i)), steps), last)
    ensures Turns(s, [Dispatch(c, i)] + (steps + [last]), {}) >= 1
  {
    var run, t := [Dispatch(c, i)] + (steps + [last]), Apply(s, Dispatch(c, i));
    assert run[0] == Dispatch(c, i) && run[1..] == steps + [last];
    StepKeepsInv(s, Dispatch(c, i));
    DispatchStep(s, c, i);
    assert Since(s, Dispatch(c, i), {}) == {i};
    hide Apply, Enabled, Inv, Since, EndsTurn;
    TurnCounted(t, steps, {i}, c, last);
  }

  /** Bounded overtaking: once the clock is within a quantum of the deadline of a waiting process, the
      processes that get the processor before it end at most as many turns as there were others ahead of it. */
  lemma {:induction false} BoundedOvertaking(s: KState, steps: seq<Step>, since: set<nat>, w: nat, d: int)
    requires Inv(s) && Possible(s, steps) && KeepsWaiting(s, steps, w, d) && AllAhead(s, since, d)
    requires AllNice(s) && forall k :: 0 <= k < |steps| ==> NiceStep(steps[k])
    ensures Turns(s, steps, since) + |Ahead(Exec(s, steps), w, d)| <= |Ahead(s, w, d)|
    decreases |steps|
  {
    if steps != [] {
      hide Apply, QueueOk, Since;
      var step, t := steps[0], Apply(s, steps[0]);
      StepKeepsInv(s, step);
      StepKeepsNice(s, step);
      SinceAhead(s, step, since, w, d);
      StepAhead(s, step, w, d);
      BoundedOvertaking(t, steps[1..], Since(s, step, since), w, d);
      var before, after := Ahead(s, w, d), Ahead(t, w, d);
      if EndsTurn(s, step) && Slot(s, step) in since {
        assert Slot(s, step) in before;
        Fewer(after, before, Slot(s, step));
      } else {
        SubsetSize(after, before);
      }
    }
  }

  lemma Fewer(a: set<nat>, b: set<nat>, x: nat)
    requires a <= b && x in b && x !in a
    ensures |a| + 1 <= |b|
  {
    SubsetSize(a + {x}, b);
  }
}
