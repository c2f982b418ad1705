/** The process table and the scheduler (proc.c) at work on the skip list. */
module Kernel {
  import opened Seqs
  import opened Sched
  import Skiplist

  /** The channel of the clock (trap.c:54). */
  const TICKS_CHAN: int := -1

  /** The queue that the towers of a skip list stand for: all but the headers. */
  ghost function Entries(ts: seq<Skiplist.Tower>): (q: seq<Entry>)
    requires |ts| > 0
    ensures |q| == |ts| - 1 && forall k :: 0 <= k < |q| ==> q[k] == Entry(ts[k + 1].pid, ts[k + 1].deadline)
  {
    seq(|ts| - 1, k requires 0 <= k < |ts| - 1 => Entry(ts[k + 1].pid, ts[k + 1].deadline))
  }

  lemma SameRank(ts: seq<Skiplist.Tower>, levels: nat, d: int)
    requires Skiplist.Ordered(ts, levels) && d > -1
    ensures Skiplist.Rank(ts, d) == 1 + QRank(Entries(ts), d)
  {
    hide Entries;
    var q := Entries(ts);
    Skiplist.RankSplits(ts, d);
    QRankSplits(q, d);
    var r, k := Skiplist.Rank(ts, d), QRank(q, d);
    assert k < |q| ==> q[k].deadline == ts[k + 1].deadline;
    assert 0 < r <= |q| ==> q[r - 1].deadline == ts[r].deadline;
  }

  /** A tower inserted at its rank is an entry inserted at its rank. */
  lemma EntriesInsert(ts: seq<Skiplist.Tower>, levels: nat, t: Skiplist.Tower)
    requires Skiplist.Ordered(ts, levels) && t.deadline > -1
    ensures Entries(InsertAt(ts, Skiplist.Rank(ts, t.deadline), t)) == QInsert(Entries(ts), Entry(t.pid, t.deadline))
  {
    SameRank(ts, levels, t.deadline);
    hide Entries, InsertAt, Skiplist.Rank, QRank;
    var a, b := Entries(InsertAt(ts, Skiplist.Rank(ts, t.deadline), t)), QInsert(Entries(ts), Entry(t.pid, t.deadline));
    assert |a| == |b|;
    forall k | 0 <= k < |a| ensures a[k] == b[k] {
    }
  }

  lemma EntriesRemove(ts: seq<Skiplist.Tower>)
    requires |ts| > 1
    ensures Entries(RemoveAt(ts, 1)) == Entries(ts)[1..]
  {
  }

  /** Nothing hides the first tower from the search. */
  lemma FirstNotBlocked(ts: seq<Skiplist.Tower>, levels: nat)
    requires Skiplist.Ordered(ts, levels) && |ts| > 1
    ensures !Skiplist.Blocked(ts, 1)
  {
    assert ts[1].deadline > -1;
    Skiplist.RankSplits(ts, ts[1].deadline - 1);
  }

  /** At most one tower belongs to the process at the head of the queue, under its deadline. */
  lemma OneTower(ts: seq<Skiplist.Tower>, levels: nat)
    requires Skiplist.Ordered(ts, levels) && |ts| > 1 && OncePerPid(Entries(ts))
    ensures forall k :: 0 <= k < |ts| && ts[k].pid == ts[1].pid ==> k == 1
  {
    hide Entries;
    assert Entries(ts)[0].pid == ts[1].pid;
    forall k | 0 <= k < |ts| && ts[k].pid == ts[1].pid ensures k == 1 {
      assert k > 0;
      assert Entries(ts)[k - 1].pid == ts[k].pid;
    }
  }

  // ----- One more step of a run -----

  lemma {:induction false} OneMore(s: KState, steps: seq<Step>, step: Step)
    requires Possible(s, steps) && Enabled(Exec(s, steps), step)
    ensures Possible(s, steps + [step]) && Exec(s, steps + [step]) == Apply(Exec(s, steps), step)
    decreases |steps|
  {
    var more := steps + [step];
    if steps == [] {
      assert more == [step];
      assert Possible(Apply(s, step), more[1..]);
    } else {
      assert more[0] == steps[0] && more[1..] == steps[1..] + [step];
      OneMore(Apply(s, steps[0]), steps[1..], step);
    }
  }

  // ----- Memory for new nodes -----

  lemma {:induction false} Bounded(addrs: set<nat>) returns (b: nat)
    ensures forall a :: a in addrs ==> a < b
    decreases |addrs|
  {
    if a :| a in addrs {
      var r := Bounded(addrs - {a});
      b := if a < r then r else a + 1;
      assert forall x :: x in addrs ==> x == a || x in addrs - {a};
    } else {
      b := 0;
    }
  }

  // Pages for `n` nodes, distinct and not in use; the source takes kalloc to succeed (proc.c:42).
  method Kalloc(mem: Skiplist.Mem, n: nat) returns (pages: seq<Skiplist.Ptr>)
    ensures |pages| == n && Skiplist.Fresh(mem, pages)
  {
    pages := [];
    while |pages| < n
      invariant |pages| <= n && Skiplist.Fresh(mem, pages)
    {
      ghost var b := Bounded(mem.Keys + set x | x in pages);
      assert b + 1 !in mem && b + 1 !in pages;
      var a: nat :| a != 0 && a !in mem && a !in pages;
      pages := pages + [a];
    }
  }

  // The height of a new tower, given the results of random; every draw of 0 adds a level (proc.c:68-79).
  method RandomizeMaxLevel(max: nat, draw: seq<int>) returns (level: nat)
    requires |draw| == max + 1
    ensures level <= max + 1 && (forall i :: 0 <= i < level ==> draw[i] == 0)
    ensures level <= max ==> draw[level] != 0
    ensures level == max + 1 <==> forall i :: 0 <= i <= max ==> draw[i] == 0
  {
    level := 0;
    while level <= max
      invariant level <= max + 1 && forall i :: 0 <= i < level ==> draw[i] == 0
    {
      if draw[level] == 0 {
        level := level + 1;
      } else {
        break;
      }
    }
  }

  // With every draw 0 the height is one more than the highest level.
  method TooTall(max: nat) returns (level: nat)
    ensures level == max + 1
  {
    level := RandomizeMaxLevel(max, seq(max + 1, _ => 0));
  }

  // For a process with this nice value, delete_node backs up past the header of the list, to a null pointer, exactly
  // if its deadline does not come after the header's (proc.c:158-177).
  method LeavesList(list: Skiplist.SkipList, ticks: nat, nice: int) returns (left: bool)
    requires list.Valid()
    ensures left <==> !NiceOk(ticks, nice)
    ensures left <==> nice < NICE_FIRST - 1 && ticks < QUANTUM * (NICE_FIRST - 1 - nice)
  {
    hide Skiplist.Level, Skiplist.Apart, Skiplist.NoLeak, Skiplist.AllLinked;
    var top := list.levels - 1;
    ghost var s := Skiplist.Level(list.towers, top);
    Skiplist.HeaderNode(list.mem, list.towers, list.levels, top);
    ghost var j: nat :| j < |s| && s[j] == list.headers[top];
    var current := list.BackUp(list.headers[top], top, VirtualDeadline(ticks, nice), j);
    left := current == 0;
  }

  class Kernel {
    const list: Skiplist.SkipList
    // ptable.proc
    var procs: seq<Proc>
    var ticks: nat
    var nextpid: int
    // The process each processor runs.
    var cpus: map<nat, nat>
    ghost var window: set<nat>
    // The steps taken since the start.
    ghost const nproc: nat
    ghost var steps: seq<Step>

    ghost function State(): (s: KState)
      reads this, list
      requires |list.towers| > 0
    {
      KState(procs, Entries(list.towers), ticks, nextpid, cpus, window)
    }

    ghost predicate Valid()
      reads this, list
    {
      && list.Valid() && |list.towers| > 0
      && Possible(Start(nproc), steps) && State() == Exec(Start(nproc), steps)
    }

    constructor (nproc: nat, levels: nat, pages: seq<Skiplist.Ptr>, garbage: Skiplist.Ptr)
      requires levels > 0 && |pages| == levels && Skiplist.Fresh(map[], pages)
      ensures Valid() && steps == [] && this.nproc == nproc && list.levels == levels
      ensures |procs| == nproc && (forall j :: 0 <= j < nproc ==> procs[j].state.UNUSED?) && ticks == 0 && nextpid == 1
    {
      list := new Skiplist.SkipList(levels, pages, garbage);
      procs := seq(nproc, _ => Proc(UNUSED, 0, 0, 0, 0, 0, false));
      ticks, nextpid, cpus, window, steps := 0, 1, map[], {}, [];
      this.nproc := nproc;
    }

    // All that is known of every reachable state.
    lemma Reached()
      requires Valid()
      ensures Inv(State())
    {
      assert Inv(Start(nproc));
      RunKeepsInv(Start(nproc), steps);
    }

    // The first free slot gets a new process; -1 if there is none (proc.c:285-305).
    method AllocProc() returns (i: int)
      requires Valid()
      modifies this`procs, this`nextpid, this`steps
      ensures Valid() && -1 <= i < |procs|
      ensures i == -1 ==> steps == old(steps) && forall j :: 0 <= j < |procs| ==> !procs[j].state.UNUSED?
      ensures i >= 0 ==> steps == old(steps) + [Alloc(i)] && Takes(old(State()), Alloc(i), State())
      ensures i >= 0 ==> forall j :: 0 <= j < i ==> !procs[j].state.UNUSED?
      ensures i >= 0 ==> i < |old(procs)| && procs == old(procs[i := procs[i].(state := EMBRYO, pid := nextpid)])
      ensures nextpid == old(nextpid) + if i >= 0 then 1 else 0
    {
      i := 0;
      while i < |procs|
        invariant 0 <= i <= |procs| && forall j :: 0 <= j < i ==> !procs[j].state.UNUSED?
      {
        if procs[i].state.UNUSED? {
          break;
        }
        i := i + 1;
      }
      if i == |procs| {
        return -1;
      }
      OneMore(Start(nproc), steps, Alloc(i));
      procs := procs[i := procs[i].(state := EMBRYO, pid := nextpid)];
      nextpid := nextpid + 1;
      steps := steps + [Alloc(i)];
    }

    // Memory for the new process ran out: its slot is free again (proc.c:308-311, proc.c:415-420).
    method ForkFails(i: nat)
      requires Valid() && i < |procs| && procs[i].state.EMBRYO?
      modifies this`procs, this`steps
      ensures Valid() && steps == old(steps) + [AllocFails(i)] && Takes(old(State()), AllocFails(i), State())
      ensures procs == old(procs[i := procs[i].(state := UNUSED)])
    {
      OneMore(Start(nproc), steps, AllocFails(i));
      procs := procs[i := procs[i].(state := UNUSED)];
      steps := steps + [AllocFails(i)];
    }

    // The child can run; it is not in the queue yet (proc.c:438-442).
    method ForkReady(i: nat)
      requires Valid() && i < |procs| && procs[i].state.EMBRYO?
      modifies this`procs, this`window, this`steps
      ensures Valid() && steps == old(steps) + [Ready(i)] && Takes(old(State()), Ready(i), State())
      ensures procs == old(procs[i := procs[i].(state := RUNNABLE)]) && window == old(window) + {i}
    {
      OneMore(Start(nproc), steps, Ready(i));
      procs := procs[i := procs[i].(state := RUNNABLE)];
      window := window + {i};
      steps := steps + [Ready(i)];
    }

    // Insert slot `i` into the skip list under its deadline, with a tower of any height (proc.c:97-135).
    method InsertProc(i: nat)
      requires list.Valid() && i < |procs| && procs[i].pid != -1 && procs[i].deadline > -1
      modifies list
      ensures list.Valid() && |list.towers| > 0 && |old(list.towers)| > 0
      ensures Entries(list.towers) == QInsert(Entries(old(list.towers)), Entry(procs[i].pid, procs[i].deadline))
    {
      hide Skiplist.Apart, Skiplist.Built, Skiplist.AllLinked, Skiplist.NoLeak, QInsert, InsertAt;
      var height: nat :| height < list.levels;
      var pages := Kalloc(list.mem, height + 1);
      EntriesInsert(list.towers, list.levels, Skiplist.Tower(procs[i].pid, procs[i].deadline, pages));
      list.InsertNode(procs[i].pid, procs[i].deadline, height, pages);
    }

    // The child gets its nice value and deadline and is inserted (proc.c:445-447); NiceValues says which
    // nice values give a deadline that the skip list can hold.
    method ForkInsert(i: nat, nice: int)
      requires Valid() && i in window && NiceOk(ticks, nice)
      modifies this`procs, this`window, this`steps, list
      ensures Valid() && steps == old(steps) + [Insert(i, nice)] && Takes(old(State()), Insert(i, nice), State())
      ensures i < |old(procs)| && procs == old(procs[i := procs[i].(nice := nice, deadline := ticks + 50 * (nice + 21))])
    {
      Reached();
      hide QInsert, Start, Exec, Possible, Skiplist.WellFormed, Skiplist.Ordered, Entries, Inv, Apply, Enabled, Waits,
        EntryOf, VirtualDeadline;
      ghost var s := State();
      InWindow(s, i);
      InsertStep(s, i, nice);
      NiceSpacing(ticks, nice, nice);
      OneMore(Start(nproc), steps, Insert(i, nice));
      procs := procs[i := procs[i].(nice := nice, deadline := VirtualDeadline(ticks, nice))];
      window := window - {i};
      InsertProc(i);
      steps := steps + [Insert(i, nice)];
    }

    // The slot of process `pid`, or -1 (proc.c:570-573).
    method FindPid(pid: int) returns (i: int)
      ensures -1 <= i < |procs|
      ensures i >= 0 ==> procs[i].pid == pid
      ensures i == -1 ==> forall j :: 0 <= j < |procs| ==> procs[j].pid != pid
    {
      i := 0;
      while i < |procs|
        invariant 0 <= i <= |procs| && forall j :: 0 <= j < i ==> procs[j].pid != pid
      {
        if procs[i].pid == pid {
          return;
        }
        i := i + 1;
      }
      i := -1;
    }

    // Remove the process at the head of the queue: the search for it always succeeds (proc.c:583).
    method RemoveHead(pid: int, deadline: int)
      requires list.Valid() && |list.towers| > 1 && OncePerPid(Entries(list.towers))
      requires Entries(list.towers)[0] == Entry(pid, deadline)
      modifies list
      ensures list.Valid() && |list.towers| > 0 && Entries(list.towers) == Entries(old(list.towers))[1..]
    {
      hide Skiplist.Apart, Skiplist.Built, Skiplist.AllLinked, Skiplist.NoLeak, Skiplist.Blocked, RemoveAt;
      OneTower(list.towers, list.levels);
      FirstNotBlocked(list.towers, list.levels);
      EntriesRemove(list.towers);
      list.DeleteNode(pid, deadline);
    }

    // Processor `c` switches to the process with the earliest deadline, if any waits (proc.c:567-583).
    method Schedule(c: nat) returns (i: int)
      requires Valid() && c !in cpus
      modifies this`procs, this`cpus, this`steps, list
      ensures Valid() && -1 <= i < |procs|
      ensures i == -1 <==> old(State()).queue == []
      ensures i == -1 ==> steps == old(steps) && State() == old(State())
      ensures i >= 0 ==> steps == old(steps) + [Dispatch(c, i)] && Takes(old(State()), Dispatch(c, i), State())
      ensures i >= 0 ==> i < |old(procs)| && procs == old(procs[i := procs[i].(state := RUNNING, ticksLeft := 50)])
    {
      Reached();
      hide QInsert, Start, Exec, Possible, Skiplist.WellFormed, Skiplist.Ordered, Entries, CpusOk, TimesOk, PidsOk, QueueOk, Apply, Enabled;
      ghost var s := State();
      var pid := list.GetMinimum();
      i := FindPid(pid);
      NoneOrHead(s, pid, i);
      Once(s);
      if i >= 0 {
        HeadOwner(s, i);
        SwitchTo(c, i);
      }
    }

    // The process at the head of the queue gets the processor (proc.c:579-583).
    method SwitchTo(c: nat, i: nat)
      requires Valid() && c !in cpus && i < |procs| && State().queue != [] && State().queue[0] == EntryOf(procs[i])
      requires OncePerPid(State().queue)
      modifies this`procs, this`cpus, this`steps, list
      ensures Valid() && |procs| == |old(procs)|
      ensures steps == old(steps) + [Dispatch(c, i)] && Takes(old(State()), Dispatch(c, i), State())
      ensures procs == old(procs[i := procs[i].(state := RUNNING, ticksLeft := 50)])
    {
      hide QInsert, Start, Exec, Possible, Skiplist.WellFormed, Skiplist.Ordered, Entries, OncePerPid, Apply, Enabled;
      ghost var s := State();
      DispatchStep(s, c, i);
      OneMore(Start(nproc), steps, Dispatch(c, i));
      procs := procs[i := procs[i].(state := RUNNING, ticksLeft := QUANTUM)];
      cpus := cpus[c := i];
      RemoveHead(procs[i].pid, procs[i].deadline);
      steps := steps + [Dispatch(c, i)];
    }

    // The running process gives up the processor: a new deadline if its quantum is used up, and back
    // into the queue (proc.c:664-670, proc.c:619-627).
    method YieldCpu(c: nat)
      requires Valid() && c in cpus
      modifies this`procs, this`cpus, this`steps, list
      ensures Valid() && steps == old(steps) + [Yield(c)] && Takes(old(State()), Yield(c), State())
      ensures old(cpus[c] < |procs|) && cpus == old(cpus) - {c}
      ensures var p := old(procs[cpus[c]]);
              procs == old(procs)[old(cpus[c]) :=
                p.(state := RUNNABLE, deadline := if p.ticksLeft == 0 then ticks + 50 * (p.nice + 21) else p.deadline)]
    {
      hide QInsert, Start, Exec, Possible, Skiplist.WellFormed, Skiplist.Ordered, Entries, Inv, Apply, Enabled;
      Reached();
      ghost var s := State();
      RunningOk(s, c);
      YieldStep(s, c);
      OneMore(Start(nproc), steps, Yield(c));
      var i := cpus[c];
      var p := procs[i].(state := RUNNABLE);
      if p.ticksLeft == 0 {
        p := p.(deadline := VirtualDeadline(ticks, p.nice));
      }
      assert p == Requeued(s, procs[i]);
      NiceSpacing(ticks, p.nice, p.nice);
      procs := procs[i := p];
      InsertProc(i);
      cpus := cpus - {c};
      steps := steps + [Yield(c)];
    }

    // The running process sleeps on `chan` (proc.c:717-720).
    method SleepOn(c: nat, chan: int)
      requires Valid() && c in cpus
      modifies this`procs, this`cpus, this`steps
      ensures Valid() && steps == old(steps) + [Sleep(c, chan)] && Takes(old(State()), Sleep(c, chan), State())
      ensures old(cpus[c] < |procs|) && cpus == old(cpus) - {c}
      ensures procs == old(procs[cpus[c] := procs[cpus[c]].(state := SLEEPING, chan := chan)])
    {
      hide QInsert, Start, Exec, Possible, Skiplist.WellFormed, Skiplist.Ordered, Entries, Inv;
      Reached();
      RunningOk(State(), c);
      OneMore(Start(nproc), steps, Sleep(c, chan));
      procs := procs[cpus[c] := procs[cpus[c]].(state := SLEEPING, chan := chan)];
      cpus := cpus - {c};
      steps := steps + [Sleep(c, chan)];
    }

    // The running process exits and never runs again (proc.c:497-498).
    method ExitProc(c: nat)
      requires Valid() && c in cpus
      modifies this`procs, this`cpus, this`steps
      ensures Valid() && steps == old(steps) + [Exit(c)] && Takes(old(State()), Exit(c), State())
      ensures old(cpus[c] < |procs|) && cpus == old(cpus) - {c}
      ensures procs == old(procs[cpus[c] := procs[cpus[c]].(state := ZOMBIE)])
    {
      hide QInsert, Start, Exec, Possible, Skiplist.WellFormed, Skiplist.Ordered, Entries, Inv;
      Reached();
      RunningOk(State(), c);
      OneMore(Start(nproc), steps, Exit(c));
      procs := procs[cpus[c] := procs[cpus[c]].(state := ZOMBIE)];
      cpus := cpus - {c};
      steps := steps + [Exit(c)];
    }

    // Free the slot of an exited process (proc.c:519-531).
    method ReapChild(i: nat) returns (pid: int)
      requires Valid() && i < |procs| && procs[i].state.ZOMBIE?
      modifies this`procs, this`steps
      ensures Valid() && steps == old(steps) + [Reap(i)] && Takes(old(State()), Reap(i), State())
      ensures pid == old(procs[i].pid)
      ensures procs == old(procs[i := procs[i].(state := UNUSED, pid := 0, killed := false)])
    {
      OneMore(Start(nproc), steps, Reap(i));
      pid := procs[i].pid;
      procs := procs[i := procs[i].(state := UNUSED, pid := 0, killed := false)];
      steps := steps + [Reap(i)];
    }

    // Wake one sleeping process (proc.c:742-743, proc.c:771-772).
    method WakeOne(i: nat)
      requires Valid() && i < |procs| && procs[i].state.SLEEPING?
      modifies this`procs, this`steps, list
      ensures Valid() && steps == old(steps) + [Wake(i)] && Takes(old(State()), Wake(i), State())
      ensures procs == old(procs)[i := old(procs)[i].(state := RUNNABLE)]
    {
      hide QInsert, Start, Exec, Possible, Skiplist.WellFormed, Skiplist.Ordered, Entries, Inv;
      Reached();
      SleepingOk(State(), i);
      OneMore(Start(nproc), steps, Wake(i));
      procs := procs[i := procs[i].(state := RUNNABLE)];
      InsertProc(i);
      steps := steps + [Wake(i)];
    }

    // Wake every process that sleeps on `chan`, and no other (proc.c:735-746).
    method Wakeup1(chan: int)
      requires Valid()
      modifies this`procs, this`steps, list
      ensures Valid() && |procs| == |old(procs)| && old(steps) <= steps
      ensures forall j :: 0 <= j < |procs| ==>
                procs[j] ==
                if old(procs[j].state.SLEEPING? && procs[j].chan == chan) then old(procs[j].(state := RUNNABLE)) else old(procs[j])
      ensures forall j: nat :: j < |procs| && old(procs[j].state.SLEEPING? && procs[j].chan == chan) ==>
                Waits(State(), j) && EntryOf(procs[j]) in State().queue
      ensures forall k :: |old(steps)| <= k < |steps| ==> steps[k].Wake?
    {
      hide QInsert, Start, Exec, Possible, Skiplist.WellFormed, Skiplist.Ordered, Entries, Takes, Apply, Enabled, Inv;
      Reached();
      ghost var s0 := State();
      var i := 0;
      while i < |procs|
        invariant Valid() && 0 <= i <= |procs| == |old(procs)| && old(steps) <= steps
        invariant forall j :: 0 <= j < i ==>
          procs[j] ==
          if old(procs[j].state.SLEEPING? && procs[j].chan == chan) then old(procs[j].(state := RUNNABLE)) else old(procs[j])
        invariant forall j :: i <= j < |procs| ==> procs[j] == old(procs)[j]
        invariant forall k :: |old(steps)| <= k < |steps| ==> steps[k].Wake?
      {
        if procs[i].state.SLEEPING? && procs[i].chan == chan {
          WakeOne(i);
        }
        i := i + 1;
      }
      Reached();
      forall j: nat | j < |procs| && old(procs[j].state.SLEEPING? && procs[j].chan == chan)
        ensures Waits(State(), j) && EntryOf(procs[j]) in State().queue
      {
        NotInWindow(s0, j);
        Queued(State(), j);
      }
    }

    // A process that sleeps on `chan` is woken by a wakeup on that channel, and by no other.
    method SleepAndWakeup(c: nat, chan: int, called: int)
      requires Valid() && c in cpus
      modifies this`procs, this`cpus, this`steps, list
      ensures Valid() && |procs| == |old(procs)| && old(cpus[c] < |procs|)
      ensures var p := old(procs[cpus[c]]);
              && procs[old(cpus[c])] == p.(state := if called == chan then RUNNABLE else SLEEPING, chan := chan)
              && (Entry(p.pid, p.deadline) in State().queue <==> called == chan)
    {
      hide QInsert, Start, Exec, Possible, Skiplist.WellFormed, Skiplist.Ordered, Entries, Inv, Takes, Apply, Enabled;
      SleepOn(c, chan);
      Wakeup1(called);
      Reached();
      Queued(State(), old(cpus[c]));
    }

    // Mark process `pid` as killed and wake it if it sleeps; a free slot with that number also counts (proc.c:761-780).
    method KillPid(pid: int) returns (r: int)
      requires Valid()
      modifies this`procs, this`steps, list
      ensures Valid() && |procs| == |old(procs)|
      ensures r == if exists i :: 0 <= i < |procs| && old(procs)[i].pid == pid then 0 else -1
      ensures r == -1 ==> State() == old(State())
      ensures r == 0 ==>
                exists i ::
                  && 0 <= i < |procs| && old(procs)[i].pid == pid
                  && procs == old(procs[i :=
                       procs[i].(killed := true, state := if procs[i].state.SLEEPING? then RUNNABLE else procs[i].state)])
    {
      var i := FindPid(pid);
      if i == -1 {
        return -1;
      }
      hide QInsert, Start, Exec, Possible, Skiplist.WellFormed, Skiplist.Ordered, Entries, Takes, Apply, Enabled;
      KillOne(i);
      if procs[i].state.SLEEPING? {
        WakeOne(i);
      }
      assert procs == old(procs[i := procs[i].(killed := true, state := if procs[i].state.SLEEPING? then RUNNABLE else procs[i].state)]);
      return 0;
    }

    method KillOne(i: nat)
      requires Valid() && i < |procs|
      modifies this`procs, this`steps
      ensures Valid() && steps == old(steps) + [Kill(i)] && Takes(old(State()), Kill(i), State())
      ensures procs == old(procs)[i := old(procs)[i].(killed := true)]
    {
      OneMore(Start(nproc), steps, Kill(i));
      procs := procs[i := procs[i].(killed := true)];
      steps := steps + [Kill(i)];
    }

    // Take one tick of the running process's quantum (trap.c:107).
    method TakeTick(c: nat)
      requires Valid() && c in cpus
      modifies this`procs, this`steps
      ensures Valid() && steps == old(steps) + [CountDown(c)] && Takes(old(State()), CountDown(c), State())
      ensures cpus[c] < |procs|
    {
      hide QInsert, Start, Exec, Possible, Skiplist.WellFormed, Skiplist.Ordered, Entries, Inv, Apply, Enabled;
      Reached();
      RunningOk(State(), c);
      CountDownStep(State(), c);
      OneMore(Start(nproc), steps, CountDown(c));
      procs := procs[cpus[c] := procs[cpus[c]].(ticksLeft := procs[cpus[c]].ticksLeft - 1)];
      steps := steps + [CountDown(c)];
    }

    method AdvanceClock()
      requires Valid()
      modifies this`ticks, this`steps
      ensures Valid() && steps == old(steps) + [Tick] && Takes(old(State()), Tick, State())
    {
      OneMore(Start(nproc), steps, Tick);
      ticks := ticks + 1;
      steps := steps + [Tick];
    }

    // A timer interrupt on processor `c` (trap.c:50-58, trap.c:105-109).
    method Timer(c: nat)
      requires Valid()
      modifies this`procs, this`cpus, this`ticks, this`steps, list
      ensures Valid() && ticks == old(ticks) + (if c == 0 then 1 else 0) && |procs| == |old(procs)|
      ensures c !in old(cpus) ==> cpus == old(cpus)
      ensures c in old(cpus) ==> old(cpus)[c] < |procs|
      ensures forall j :: 0 <= j < |procs| && !(c in old(cpus) && j == old(cpus)[c]) ==>
                procs[j] ==
                if c == 0 && old(procs[j].state.SLEEPING? && procs[j].chan == TICKS_CHAN) then old(procs[j].(state := RUNNABLE))
                else old(procs[j])
      ensures c in old(cpus) ==>
                var p := old(procs)[old(cpus)[c]];
                if p.ticksLeft == 1 then
                  && cpus == old(cpus) - {c}
                  && procs[old(cpus)[c]] == p.(state := RUNNABLE, ticksLeft := 0, deadline := ticks + 50 * (p.nice + 21))
                else
                  cpus == old(cpus) && procs[old(cpus)[c]] == p.(ticksLeft := p.ticksLeft - 1)
    {
      hide QInsert, Start, Exec, Possible, Skiplist.WellFormed, Skiplist.Ordered, Entries, Inv, Apply, Enabled;
      Reached();
      ghost var s := State();
      if c in cpus {
        RunningOk(s, c);
      }
      if c == 0 {
        TickStep(s);
        AdvanceClock();
        Wakeup1(TICKS_CHAN);
      }
      if c in cpus {
        CountDownStep(State(), c);
        TakeTick(c);
        if procs[cpus[c]].ticksLeft == 0 {
          YieldCpu(c);
        }
      }
    }
  }

  /** What is known of a process that sleeps. */
  lemma SleepingOk(s: KState, i: nat)
    requires Inv(s) && i < |s.procs| && s.procs[i].state.SLEEPING?
    ensures i !in s.window && s.procs[i].pid > 0 && s.procs[i].deadline > -1
  {
    assert i !in s.window;
    assert Timed(s, i);
  }

  /** What is known of a process that runs. */
  lemma RunningOk(s: KState, c: nat)
    requires Inv(s) && c in s.cpus
    ensures Runs(s, c) && s.procs[s.cpus[c]].pid > 0 && s.procs[s.cpus[c]].deadline > -1
    ensures VirtualDeadline(s.ticks, s.procs[s.cpus[c]].nice) > -1
  {
    assert Runs(s, c);
    assert Timed(s, s.cpus[c]);
  }

  /** A process is in the queue exactly if it waits. */
  lemma Queued(s: KState, i: nat)
    requires Inv(s) && i < |s.procs| && !s.procs[i].state.UNUSED?
    ensures EntryOf(s.procs[i]) in s.queue <==> Waits(s, i)
  {
    if EntryOf(s.procs[i]) in s.queue {
      assert Backed(s, EntryOf(s.procs[i]));
      var j: nat :| Waits(s, j) && EntryOf(s.procs[j]) == EntryOf(s.procs[i]);
      SamePid(s, i, j);
    }
  }

  lemma NotInWindow(s: KState, i: nat)
    requires Inv(s) && i < |s.procs| && !s.procs[i].state.RUNNABLE?
    ensures i !in s.window
  {
  }

  lemma InWindow(s: KState, i: nat)
    requires Inv(s) && i in s.window
    ensures i < |s.procs| && s.procs[i].pid > 0 && s.procs[i].state.RUNNABLE?
  {
  }

  lemma Once(s: KState)
    requires QueueOk(s)
    ensures OncePerPid(s.queue)
  {
  }

  lemma NoneOrHead(s: KState, pid: int, i: int)
    requires PidsOk(s) && QueueOk(s) && pid == if |s.queue| > 0 then s.queue[0].pid else -69
    requires -1 <= i < |s.procs| && (i >= 0 ==> s.procs[i].pid == pid)
    requires i == -1 ==> forall j :: 0 <= j < |s.procs| ==> s.procs[j].pid != pid
    ensures i == -1 <==> s.queue == []
  {
    if s.queue != [] {
      assert s.queue[0] in s.queue && Backed(s, s.queue[0]);
    }
  }
}
