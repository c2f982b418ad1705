/** The log of file system transactions (log.c) on top of the buffer cache. */
module Log {
  import opened Bio
  import opened Recovery
  import opened Seqs

  /** Most blocks one operation may log (param.h:10). */
  const MAXOPBLOCKS: nat := 10

  // ----- Pinned buffers -----

  ghost predicate Idle(buf: seq<Buf>) {
    forall i :: 0 <= i < |buf| ==> !buf[i].locked && buf[i].refcnt == 0
  }

  ghost predicate Pinned(buf: seq<Buf>, l: Loc) {
    exists i :: 0 <= i < |buf| && buf[i].at == l && buf[i].dirty
  }

  /** The dirty buffers are those of `pins`. */
  ghost predicate Pins(buf: seq<Buf>, pins: set<Loc>) {
    && (forall i :: 0 <= i < |buf| && buf[i].dirty ==> buf[i].at in pins)
    && (forall l :: l in pins ==> Pinned(buf, l))
  }

  /** A block that is neither pinned nor in use is on disk as last written. */
  lemma Settled(buf: seq<Buf>, disk: DiskState, view: DiskState, pins: set<Loc>)
    requires Coherent(buf, disk, view) && Idle(buf) && Pins(buf, pins)
    ensures view.Keys == disk.Keys && forall l :: l in disk && l !in pins ==> view[l] == disk[l]
  {
  }

  /** No other buffer holds the block of a buffer in use. */
  lemma OnlyBuffer(buf: seq<Buf>, disk: DiskState, view: DiskState, b: nat)
    requires Coherent(buf, disk, view) && b < |buf| && buf[b].at.dev != 0
    ensures forall i :: 0 <= i < |buf| && i != b ==> buf[i].at != buf[b].at
  {
  }

  /** Buffers that each hold another block of `s` are no more than those blocks. */
  lemma {:induction false} Pigeonhole(buf: seq<Buf>, s: set<Loc>)
    requires forall i :: 0 <= i < |buf| ==> buf[i].at in s
    requires forall i, j :: 0 <= i < j < |buf| ==> buf[i].at != buf[j].at
    ensures |buf| <= |s|
  {
    if |buf| > 0 {
      var rest := buf[..|buf| - 1];
      Pigeonhole(rest, s - {buf[|buf| - 1].at});
    }
  }

  /** With fewer blocks pinned or in use than buffers, bget does not panic. */
  lemma SomeFree(buf: seq<Buf>, disk: DiskState, view: DiskState, s: set<Loc>)
    requires Coherent(buf, disk, view) && |s| < |buf|
    requires forall i :: 0 <= i < |buf| && !Free(buf[i]) ==> buf[i].at in s && buf[i].valid
    ensures exists i :: 0 <= i < |buf| && Free(buf[i])
  {
    if forall i :: 0 <= i < |buf| ==> !Free(buf[i]) {
      Pigeonhole(buf, s);
    }
  }

  lemma NoPanic(buf: seq<Buf>, disk: DiskState, view: DiskState, l: Loc, pins: set<Loc>, held: set<nat>)
    requires Coherent(buf, disk, view) && Pins(buf, pins)
    requires forall i :: 0 <= i < |buf| && buf[i].refcnt > 0 ==> i in held && buf[i].valid
    requires forall i :: i in held ==> i < |buf|
    requires l in pins || |pins| + |held| < |buf|
    ensures exists i :: 0 <= i < |buf| && (buf[i].at == l || Free(buf[i]))
  {
    if l !in pins {
      var s := pins + set i | i in held :: buf[i].at;
      Image(buf, held);
      SomeFree(buf, disk, view, s);
    }
  }

  lemma {:induction false} Image(buf: seq<Buf>, held: set<nat>)
    requires forall i :: i in held ==> i < |buf|
    ensures |set i | i in held :: buf[i].at| <= |held|
    decreases |held|
  {
    if i :| i in held {
      Image(buf, held - {i});
      assert (set j | j in held :: buf[j].at) == (set j | j in held - {i} :: buf[j].at) + {buf[i].at};
    }
  }

  lemma PinsKept(buf: seq<Buf>, nbuf: seq<Buf>, pins: set<Loc>)
    requires |buf| == |nbuf| && Pins(buf, pins)
    requires forall i :: 0 <= i < |buf| ==> nbuf[i].dirty == buf[i].dirty && (buf[i].dirty ==> nbuf[i].at == buf[i].at)
    ensures Pins(nbuf, pins)
  {
    forall l | l in pins ensures Pinned(nbuf, l) {
      var i :| 0 <= i < |buf| && buf[i].at == l && buf[i].dirty;
      assert nbuf[i].at == l;
    }
  }

  lemma Unpinned(buf: seq<Buf>, nbuf: seq<Buf>, pins: set<Loc>, home: Loc)
    requires |buf| == |nbuf| && Pins(buf, pins)
    requires forall i :: 0 <= i < |buf| && nbuf[i].dirty ==> buf[i].dirty && nbuf[i].at == buf[i].at != home
    requires forall i :: 0 <= i < |buf| && buf[i].dirty && buf[i].at != home ==> nbuf[i].dirty && nbuf[i].at == buf[i].at
    ensures Pins(nbuf, pins - {home})
  {
    forall l | l in pins - {home} ensures Pinned(nbuf, l) {
      var i :| 0 <= i < |buf| && buf[i].at == l && buf[i].dirty;
      assert nbuf[i].at == l;
    }
  }

  // ----- Reserved space -----

  /** The number of logged blocks; how many of them each outstanding operation added; the operations between the
      test at the start of log_write, which takes no lock, and its locked part; whether a commit is under way. */
  datatype Space = Space(n: nat, used: map<nat, nat>, passed: set<nat>, committing: bool)

  /** What an operation does to the space: begin_op, the test of log_write (log.c:218-221), the entry of a new block or
      of one that is logged already (log.c:223-232), end_op, and the end of the commit. */
  datatype Step = Begin(op: nat) | Test(op: nat) | Append(op: nat) | Absorb(op: nat) | End(op: nat) | Clear

  const NOSPACE: Space := Space(0, map[], {}, false)

  /** What the outstanding operations may still append. */
  ghost function Unused(used: map<nat, nat>): (u: int) {
    if used == map[] then 0 else
      var op :| op in used;
      MAXOPBLOCKS - used[op] + Unused(used - {op})
  }

  lemma {:induction false} UnusedOf(used: map<nat, nat>, op: nat)
    requires op in used
    ensures Unused(used) == MAXOPBLOCKS - used[op] + Unused(used - {op})
    decreases |used|
  {
    var o :| o in used && Unused(used) == MAXOPBLOCKS - used[o] + Unused(used - {o});
    if o != op {
      UnusedOf(used - {o}, op);
      assert used - {o} - {op} == used - {op} - {o};
      UnusedOf(used - {op}, o);
    }
  }

  lemma {:induction false} UnusedBound(used: map<nat, nat>)
    requires forall op :: op in used ==> used[op] <= MAXOPBLOCKS
    ensures 0 <= Unused(used) <= |used| * MAXOPBLOCKS
    decreases |used|
  {
    if used != map[] {
      var op :| op in used;
      UnusedOf(used, op);
      UnusedBound(used - {op});
    }
  }

  /** The logged blocks and the unused reservations fit in the header. */
  ghost predicate SpaceOk(s: Space) {
    && (forall op :: op in s.used ==> s.used[op] <= MAXOPBLOCKS)
    && s.n + Unused(s.used) <= LOGSIZE
  }

  predicate MayBegin(s: Space) {
    !s.committing && s.n + (|s.used| + 1) * MAXOPBLOCKS <= LOGSIZE
  }

  /** The operation has a block of its reservation left. */
  predicate HasReservation(s: Space, op: nat) {
    op in s.used && s.used[op] < MAXOPBLOCKS
  }

  /** The panic "too big a transaction" does not fire. */
  predicate Fits(size: nat, s: Space) {
    s.n < LOGSIZE && s.n < size - 1
  }

  /** An operation does one thing at a time and keeps to its reservation. */
  predicate Enabled(size: nat, s: Space, a: Step) {
    match a
    case Begin(op) => op !in s.used && MayBegin(s)
    case Test(op) => op in s.used && op !in s.passed && Fits(size, s)
    case Append(op) => op in s.passed && HasReservation(s, op)
    case Absorb(op) => op in s.passed && s.n > 0
    case End(op) => op in s.used && op !in s.passed
    case Clear => s.committing
  }

  /** The last operation to end starts the commit (log.c:153-155). */
  function After(s: Space, a: Step): (t: Space)
    requires a.Append? ==> a.op in s.used
  {
    match a
    case Begin(op) => s.(used := s.used[op := 0])
    case Test(op) => s.(passed := s.passed + {op})
    case Append(op) => s.(n := s.n + 1, used := s.used[op := s.used[op] + 1], passed := s.passed - {op})
    case Absorb(op) => s.(passed := s.passed - {op})
    case End(op) => s.(used := s.used - {op}, committing := |s.used| == 1)
    case Clear => NOSPACE
  }

  ghost predicate SpaceStep(size: nat, s: Space, t: Space) {
    exists a :: Enabled(size, s, a) && t == After(s, a)
  }

  ghost predicate SpaceRun(size: nat, run: seq<Space>) {
    && |run| > 0 && run[0] == NOSPACE
    && (forall i :: 0 <= i < |run| - 1 ==> SpaceStep(size, run[i], run[i + 1]))
  }

  ghost predicate Reachable(size: nat, s: Space) {
    exists run :: SpaceRun(size, run) && run[|run| - 1] == s
  }

  lemma BeginKeepsSpace(s: Space, op: nat)
    requires SpaceOk(s) && op !in s.used && MayBegin(s)
    ensures SpaceOk(After(s, Begin(op)))
  {
    hide Unused;
    UnusedBound(s.used);
    UnusedOf(s.used[op := 0], op);
    assert s.used[op := 0] - {op} == s.used;
  }

  lemma WithoutUpdated(used: map<nat, nat>, op: nat, k: nat)
    ensures used[op := k] - {op} == used - {op}
  {
  }

  lemma AppendKeepsSpace(s: Space, op: nat)
    requires SpaceOk(s) && HasReservation(s, op)
    ensures s.n < LOGSIZE && SpaceOk(After(s, Append(op)))
  {
    hide Unused;
    var k := s.used[op] + 1;
    UnusedOf(s.used, op);
    UnusedOf(s.used[op := k], op);
    WithoutUpdated(s.used, op, k);
    UnusedBound(s.used - {op});
  }

  lemma StepKeepsSpace(size: nat, s: Space, a: Step)
    requires SpaceOk(s) && Enabled(size, s, a)
    ensures SpaceOk(After(s, a))
  {
    match a
    case Begin(op) => BeginKeepsSpace(s, op);
    case Append(op) => AppendKeepsSpace(s, op);
    case End(op) => UnusedOf(s.used, op);
    case _ =>
  }

  /** In every run, whatever the size of the log, the logged blocks and the unused reservations fit in the header. */
  lemma {:induction false} RunKeepsSpace(size: nat, run: seq<Space>)
    requires SpaceRun(size, run)
    ensures SpaceOk(run[|run| - 1])
  {
    if |run| > 1 {
      var s := run[|run| - 2];
      RunKeepsSpace(size, run[..|run| - 1]);
      assert SpaceStep(size, s, run[|run| - 1]);
      var a :| Enabled(size, s, a) && run[|run| - 1] == After(s, a);
      StepKeepsSpace(size, s, a);
    }
  }

  /** The most blocks that get logged. The header has room for LOGSIZE. In a log of fewer blocks the test lets the
      log grow to size - 1, and up to three operations can have passed it when it does. */
  function Most(size: nat): (n: nat) {
    if size <= 1 then 0 else if size + 1 < LOGSIZE then size + 1 else LOGSIZE
  }

  /** What keeps the log from growing further: at most three operations are outstanding, and each that has passed
      the test appends at most one block. */
  ghost predicate Bounded(size: nat, s: Space) {
    && s.passed <= s.used.Keys && |s.used| * MAXOPBLOCKS <= LOGSIZE
    && (s.committing ==> s.used == map[])
    && s.n + |s.passed| <= size + 1 && (size <= 1 ==> s.n == 0 && s.passed == {})
  }

  lemma TestKeepsBound(size: nat, s: Space, op: nat)
    requires Bounded(size, s) && Enabled(size, s, Test(op))
    ensures Bounded(size, After(s, Test(op)))
  {
    SubsetSize(s.passed + {op}, s.used.Keys);
  }

  lemma AppendKeepsBound(size: nat, s: Space, op: nat)
    requires Bounded(size, s) && Enabled(size, s, Append(op))
    ensures Bounded(size, After(s, Append(op)))
  {
    OneFewer(s.passed, op);
    assert s.used[op := s.used[op] + 1].Keys == s.used.Keys;
  }

  lemma EndKeepsBound(size: nat, s: Space, op: nat)
    requires Bounded(size, s) && Enabled(size, s, End(op))
    ensures Bounded(size, After(s, End(op)))
  {
    var used := s.used - {op};
    assert used.Keys == s.used.Keys - {op};
    OneFewer(s.used.Keys, op);
    if |s.used| == 1 {
      NoneLeft(used);
    }
  }

  lemma StepKeepsBound(size: nat, s: Space, a: Step)
    requires Bounded(size, s) && Enabled(size, s, a)
    ensures Bounded(size, After(s, a))
  {
    match a
    case Begin(op) => assert s.passed <= s.used[op := 0].Keys;
    case Test(op) => TestKeepsBound(size, s, op);
    case Append(op) => AppendKeepsBound(size, s, op);
    case Absorb(op) => OneFewer(s.passed, op);
    case End(op) => EndKeepsBound(size, s, op);
    case Clear =>
  }

  lemma OneFewer(a: set<nat>, x: nat)
    requires x in a
    ensures |a - {x}| == |a| - 1
  {
  }

  lemma {:induction false} RunKeepsBound(size: nat, run: seq<Space>)
    requires SpaceRun(size, run)
    ensures Bounded(size, run[|run| - 1])
  {
    if |run| > 1 {
      var s := run[|run| - 2];
      RunKeepsBound(size, run[..|run| - 1]);
      assert SpaceStep(size, s, run[|run| - 1]);
      var a :| Enabled(size, s, a) && run[|run| - 1] == After(s, a);
      StepKeepsBound(size, s, a);
    }
  }

  /** What holds in every reachable state. */
  lemma ReachableOk(size: nat, s: Space)
    requires Reachable(size, s)
    ensures SpaceOk(s) && Bounded(size, s) && s.n <= Most(size)
  {
    var run :| SpaceRun(size, run) && run[|run| - 1] == s;
    RunKeepsSpace(size, run);
    RunKeepsBound(size, run);
    UnusedBound(s.used);
  }

  lemma ReachStart(size: nat)
    ensures Reachable(size, NOSPACE)
  {
    var run := [NOSPACE];
    assert SpaceRun(size, run) && run[|run| - 1] == NOSPACE;
  }

  lemma ReachNext(size: nat, s: Space, a: Step)
    requires Reachable(size, s) && Enabled(size, s, a)
    ensures Reachable(size, After(s, a))
  {
    var t := After(s, a);
    assert SpaceStep(size, s, t);
    hide SpaceStep, Enabled, After;
    var run :| SpaceRun(size, run) && run[|run| - 1] == s;
    var more := run + [t];
    forall i | 0 <= i < |more| - 1 ensures SpaceStep(size, more[i], more[i + 1]) {
      if i < |run| - 1 {
        assert more[i] == run[i] && more[i + 1] == run[i + 1];
      }
    }
    assert SpaceRun(size, more) && more[|more| - 1] == t;
  }

  // ----- The runs that fill the log -----

  /** Three operations that have logged `n` blocks in turn; the next is that of `Turn(n)`. */
  function Three(n: nat): (used: map<nat, nat>) {
    map[0 := (n + 2) / 3, 1 := (n + 1) / 3, 2 := n / 3]
  }

  function Turn(n: nat): (op: nat) {
    n % 3
  }

  /** Those whose turn it is for the next `k` blocks. */
  function Ahead(n: nat, k: nat): (ops: set<nat>)
    decreases k
  {
    if k == 0 then {} else Ahead(n + 1, k - 1) + {Turn(n)}
  }

  /** `n` blocks are logged and the operations for the next `k` have passed the test. */
  function Filled(n: nat, k: nat): (s: Space) {
    Space(n, Three(n), Ahead(n, k), false)
  }

  lemma NextTurn(n: nat)
    ensures Turn(n) in Three(n) && Three(n)[Turn(n)] == n / 3
    ensures Three(n + 1) == Three(n)[Turn(n) := n / 3 + 1]
  {
    var q, r := n / 3, n % 3;
    assert n == 3 * q + r;
    assert r == 0 || r == 1 || r == 2;
  }

  lemma AheadOf(n: nat, k: nat)
    requires 0 < k <= 3
    ensures Turn(n) !in Ahead(n + 1, k - 1)
    ensures Turn(n + k - 1) !in Ahead(n, k - 1) && Ahead(n, k) == Ahead(n, k - 1) + {Turn(n + k - 1)}
  {
    assert Turn(n) != Turn(n + 1) && Turn(n) != Turn(n + 2) && Turn(n + 1) != Turn(n + 2);
    assert Ahead(n + 1, 1) == {Turn(n + 1)} && Ahead(n + 2, 1) == {Turn(n + 2)};
    assert Ahead(n + 1, 2) == {Turn(n + 1), Turn(n + 2)} && Ahead(n, 2) == {Turn(n), Turn(n + 1)};
  }

  lemma {:induction false} TestAhead(size: nat, n: nat, k: nat)
    requires Reachable(size, Filled(n, 0)) && Fits(size, Filled(n, 0)) && k <= 3
    ensures Reachable(size, Filled(n, k))
  {
    if k > 0 {
      TestAhead(size, n, k - 1);
      AheadOf(n, k);
      NextTurn(n + k - 1);
      assert Enabled(size, Filled(n, k - 1), Test(Turn(n + k - 1)));
      ReachNext(size, Filled(n, k - 1), Test(Turn(n + k - 1)));
      assert After(Filled(n, k - 1), Test(Turn(n + k - 1))) == Filled(n, k);
    }
  }

  lemma {:induction false} AppendAhead(size: nat, n: nat, k: nat)
    requires Reachable(size, Filled(n, k)) && k <= 3 && n + k <= LOGSIZE
    ensures Reachable(size, Filled(n + k, 0))
    decreases k
  {
    if k > 0 {
      AheadOf(n, k);
      NextTurn(n);
      assert Enabled(size, Filled(n, k), Append(Turn(n)));
      ReachNext(size, Filled(n, k), Append(Turn(n)));
      assert After(Filled(n, k), Append(Turn(n))) == Filled(n + 1, k - 1);
      AppendAhead(size, n + 1, k - 1);
    }
  }

  lemma ReachThree(size: nat)
    ensures Reachable(size, Filled(0, 0))
  {
    var s1, s2 := NOSPACE.(used := map[0 := 0]), NOSPACE.(used := map[0 := 0, 1 := 0]);
    ReachStart(size);
    assert After(NOSPACE, Begin(0)) == s1 && After(s1, Begin(1)) == s2 && After(s2, Begin(2)) == Filled(0, 0);
    assert |s1.used| == 1 && |s2.used| == 2;
    ReachNext(size, NOSPACE, Begin(0));
    ReachNext(size, s1, Begin(1));
    ReachNext(size, s2, Begin(2));
  }

  lemma {:induction false} ReachFilled(size: nat, n: nat)
    requires n <= size - 1 && n <= LOGSIZE
    ensures Reachable(size, Filled(n, 0))
  {
    if n == 0 {
      ReachThree(size);
    } else {
      ReachFilled(size, n - 1);
      TestAhead(size, n - 1, 1);
      AppendAhead(size, n - 1, 1);
    }
  }

  /** A run that logs as many blocks as any: up to three operations pass the test while there is room for one. */
  lemma ReachMost(size: nat)
    requires size > 0
    ensures Reachable(size, Filled(Most(size), 0))
  {
    if size == 1 || size > LOGSIZE {
      ReachFilled(size, Most(size));
    } else {
      ReachFilled(size, size - 2);
      TestAhead(size, size - 2, Most(size) - (size - 2));
      AppendAhead(size, size - 2, Most(size) - (size - 2));
    }
  }

  // ----- What the sizes of the log and the cache promise -----

  /** The log never runs over its end if and only if it has more than LOGSIZE blocks, or none but the header: the test
      and the entry are separate steps, and between them others can enter their blocks. */
  lemma NeverOverrun(size: nat)
    requires size > 0
    ensures (forall s :: Reachable(size, s) ==> s.n < size) <==> size > LOGSIZE || size == 1
  {
    forall s | Reachable(size, s) ensures s.n <= Most(size) {
      ReachableOk(size, s);
    }
    ReachMost(size);
    assert Filled(Most(size), 0).n == Most(size);
  }

  /** How an operation can end: with the panic "bget: no buffers", or with a commit that writes log blocks behind the
      end of the log, as there are more blocks than slots for them. */
  datatype Outcome = Done | NoBuffers | Overrun

  /** The outcome of a commit of `n` blocks with `nbuf` buffers. */
  function CommitOutcome(size: nat, n: nat, nbuf: nat): (r: Outcome) {
    if n == 0 then Done else if n >= nbuf then NoBuffers else if n >= size then Overrun else Done
  }

  /** Every commit of every run goes through if and only if both the log and the cache have more than LOGSIZE blocks,
      or nothing can be logged at all. */
  lemma CommitsGoThrough(size: nat, nbuf: nat)
    requires size > 0
    ensures (forall s :: Reachable(size, s) ==> CommitOutcome(size, s.n, nbuf) == Done) <==>
            size == 1 || (size > LOGSIZE && nbuf > LOGSIZE)
  {
    forall s | Reachable(size, s) ensures s.n <= Most(size) {
      ReachableOk(size, s);
    }
    ReachMost(size);
    assert Filled(Most(size), 0).n == Most(size);
  }

  /** Some run writes behind the end of the log if and only if the log has at most LOGSIZE blocks and fewer than there
      are buffers. */
  lemma OverrunIff(size: nat, nbuf: nat)
    requires size > 0
    ensures (exists s :: Reachable(size, s) && CommitOutcome(size, s.n, nbuf) == Overrun) <==> 1 < size <= LOGSIZE && size < nbuf
  {
    forall s | Reachable(size, s) ensures s.n <= Most(size) {
      ReachableOk(size, s);
    }
    if 1 < size <= LOGSIZE && size < nbuf {
      ReachFilled(size, size - 2);
      TestAhead(size, size - 2, 2);
      AppendAhead(size, size - 2, 2);
      assert CommitOutcome(size, Filled(size, 0).n, nbuf) == Overrun;
    }
  }

  /** The number of buffers that the kernel has (param.h:12). */
  const NBUF: nat := MAXOPBLOCKS * 3

  /** The kernel's own log has LOGSIZE blocks. In some run as many get logged, one more than there are slots; they pin
      every buffer, so that the commit panics. */
  lemma KernelLogFills() returns (s: Space)
    ensures Reachable(LOGSIZE, s) && s.n == LOGSIZE == NBUF == 30 && CommitOutcome(LOGSIZE, s.n, NBUF) == NoBuffers
    ensures forall dev, start :: !InLog(Geo(dev, start, LOGSIZE), Slot(Geo(dev, start, LOGSIZE), s.n - 1))
  {
    ReachMost(LOGSIZE);
    s := Filled(LOGSIZE, 0);
  }

  /** The blocks that a transaction pins leave a buffer for the commit to work with, in every run, if and only if
      there are more buffers than blocks that can get logged. */
  lemma BuffersSuffice(size: nat, nbuf: nat)
    requires size > 0
    ensures (forall s :: Reachable(size, s) ==> s.n < nbuf) <==> Most(size) < nbuf
  {
    forall s | Reachable(size, s) ensures s.n <= Most(size) {
      ReachableOk(size, s);
    }
    ReachMost(size);
    assert Filled(Most(size), 0).n == Most(size);
  }

  /** An operation about to call log_write within its reservation, for a block not logged yet or for one that is. */
  predicate Within(s: Space, op: nat, again: bool) {
    op !in s.passed && if again then op in s.used && s.n > 0 else HasReservation(s, op)
  }

  /** A state in which an operation within its reservation runs into a panic with a block not logged yet. */
  ghost predicate Stuck(size: nat, s: Space) {
    exists op: nat :: Within(s, op, false) && !Fits(size, s)
  }

  /** A full header means that every outstanding operation has used up its reservation. */
  lemma FullIsUsedUp(s: Space, op: nat)
    requires SpaceOk(s) && s.n == LOGSIZE && op in s.used
    ensures s.used[op] == MAXOPBLOCKS
  {
    UnusedOf(s.used, op);
    UnusedBound(s.used - {op});
  }

  /** No operation that keeps to MAXOPBLOCKS new blocks can run into the "too big a transaction" panic with
      a block not logged yet if and only if the log has room for a header and LOGSIZE blocks. */
  lemma ReservationSuffices(size: nat)
    requires size > 0
    ensures (forall s :: Reachable(size, s) ==> !Stuck(size, s)) <==> size > LOGSIZE
  {
    if size > LOGSIZE {
      forall s | Reachable(size, s) ensures !Stuck(size, s) {
        ReachableOk(size, s);
        forall op: nat | HasReservation(s, op) ensures Fits(size, s) {
          AppendKeepsSpace(s, op);
        }
      }
    } else {
      var n := size - 1;
      ReachFilled(size, n);
      NextTurn(n);
      assert Within(Filled(n, 0), Turn(n), false);
      assert Stuck(size, Filled(n, 0));
    }
  }

  /** In every reachable state, a log_write within the reservation panics exactly if the log is full: in a log of more
      than LOGSIZE blocks if the header is, and then the block was logged before and every outstanding operation has
      used up its reservation; in a smaller one if every slot is taken, and up to two blocks beyond may be. */
  lemma WriteFailsIff(size: nat, s: Space, op: nat, again: bool)
    requires size > 0 && Reachable(size, s) && Within(s, op, again)
    ensures size > LOGSIZE ==> (!Fits(size, s) <==> s.n == LOGSIZE)
    ensures size > LOGSIZE && !Fits(size, s) ==> again && forall o :: o in s.used ==> s.used[o] == MAXOPBLOCKS
    ensures size <= LOGSIZE ==> (!Fits(size, s) <==> size - 1 <= s.n <= size + 1)
  {
    ReachableOk(size, s);
    if size > LOGSIZE && s.n == LOGSIZE {
      forall o | o in s.used ensures s.used[o] == MAXOPBLOCKS {
        FullIsUsedUp(s, o);
      }
    }
  }

  /** The test for a full log comes before the search for the block, so logging a block again can panic. A log of any
      size can get there. */
  lemma LoggingAgainFails(size: nat) returns (s: Space, op: nat)
    requires size > 1
    ensures Reachable(size, s) && Within(s, op, true) && !Fits(size, s)
  {
    ReachMost(size);
    s, op := Filled(Most(size), 0), 0;
  }

  /** With NBUF buffers, a log of more than LOGSIZE blocks lets a transaction pin them all. */
  lemma LargerLogNeedsBuffers(size: nat) returns (s: Space)
    requires size > LOGSIZE
    ensures Reachable(size, s) && s.n == NBUF
  {
    ReachMost(size);
    s := Filled(NBUF, 0);
  }

  // ----- Copying one block between the log and its home -----

  // Read a block that is cached, or for which a buffer is left.
  method ReadBlock(bc: Bcache, l: Loc, ghost pins: set<Loc>, ghost held: set<nat>) returns (b: nat)
    requires bc.Valid() && l.dev != 0 && l in bc.disk && Pins(bc.buf, pins)
    requires forall i :: 0 <= i < |bc.buf| ==> (i in held <==> bc.buf[i].refcnt > 0) && bc.buf[i].locked == (i in held)
    requires forall i :: i in held ==> i < |bc.buf| && bc.buf[i].valid && bc.buf[i].at != l
    requires l in pins || |pins| + |held| < |bc.buf|
    modifies bc`buf, bc`disk, bc`trace
    ensures bc.Valid() && bc.disk == old(bc.disk) && bc.trace == old(bc.trace) && Pins(bc.buf, pins)
    ensures |bc.buf| == |old(bc.buf)| && b < |bc.buf| && b !in held
    ensures bc.buf == old(bc.buf)[b := Buf(l, true, l in pins, true, 1, bc.view[l])]
  {
    hide Coherent, Linked, Onto, Aged;
    b := bc.Bread(l);
    if b == |bc.buf| {
      NoPanic(bc.buf, bc.disk, bc.view, l, pins, held);
    }
    OnlyBuffer(bc.buf, bc.disk, bc.view, b);
    assert l in pins ==> Pinned(old(bc.buf), l);
    PinsKept(old(bc.buf), bc.buf, pins);
  }

  // Read two blocks.
  method ReadPair(bc: Bcache, l: Loc, m: Loc, ghost pins: set<Loc>) returns (a: nat, b: nat)
    requires bc.Valid() && Idle(bc.buf) && Pins(bc.buf, pins) && |pins| < |bc.buf|
    requires m in pins || |pins| + 1 < |bc.buf|
    requires l in bc.disk && l.dev != 0 && m in bc.disk && m.dev != 0 && l != m
    modifies bc`buf, bc`disk, bc`trace
    ensures bc.Valid() && bc.disk == old(bc.disk) && bc.trace == old(bc.trace)
    ensures |bc.buf| == |old(bc.buf)| && a < |bc.buf| && b < |bc.buf| && a != b
    ensures forall i :: 0 <= i < |bc.buf| && i != a && i != b ==> bc.buf[i] == old(bc.buf[i])
    ensures bc.buf[a] == Buf(l, true, l in pins, true, 1, bc.view[l])
    ensures bc.buf[b] == Buf(m, true, m in pins, true, 1, bc.view[m])
    ensures Pins(bc.buf, pins)
  {
    a := ReadBlock(bc, l, pins, {});
    b := ReadBlock(bc, m, pins, {a});
  }

  // Copy one held buffer to another, write that one to disk and release both (log.c:77-80, log.c:185-188).
  method WriteCopy(bc: Bcache, src: nat, dst: nat)
    requires bc.Valid() && src < |bc.buf| && dst < |bc.buf| && src != dst
    requires bc.buf[src].locked && bc.buf[src].valid && bc.buf[dst].locked && bc.buf[dst].valid
    requires bc.buf[src].dirty || bc.buf[src].data == bc.disk[bc.buf[src].at]
    requires bc.buf[src].at != bc.buf[dst].at
    modifies bc
    ensures bc.Valid() && |bc.buf| == |old(bc.buf)|
    ensures forall i :: 0 <= i < |bc.buf| && i != src && i != dst ==> bc.buf[i] == old(bc.buf[i])
    ensures bc.buf[src] == old(bc.buf[src].(locked := false, refcnt := bc.buf[src].refcnt - 1))
    ensures bc.buf[dst] == old(Buf(bc.buf[dst].at, true, false, false, bc.buf[dst].refcnt - 1, bc.buf[src].data))
    ensures bc.view == old(bc.view[bc.buf[dst].at := bc.buf[src].data])
    ensures bc.disk == old(bc.disk[bc.buf[dst].at := bc.buf[src].data]) && bc.trace == old(bc.trace) + [bc.disk]
  {
    hide Coherent, Linked, Onto, Aged;
    bc.SetData(dst, bc.buf[src].data);
    bc.Bwrite(dst);
    bc.Brelse(src);
    bc.Brelse(dst);
  }

  // Give a held buffer new data, write it to disk and release it.
  method WriteBack(bc: Bcache, b: nat, d: Block)
    requires bc.Valid() && b < |bc.buf| && bc.buf[b].locked && bc.buf[b].valid
    modifies bc
    ensures bc.Valid()
    ensures bc.buf == old(bc.buf[b := Buf(bc.buf[b].at, true, false, false, bc.buf[b].refcnt - 1, d)])
    ensures bc.view == old(bc.view[bc.buf[b].at := d])
    ensures bc.disk == old(bc.disk[bc.buf[b].at := d]) && bc.trace == old(bc.trace) + [bc.disk]
  {
    hide Coherent, Linked, Onto, Aged;
    bc.SetData(b, d);
    bc.Bwrite(b);
    bc.Brelse(b);
  }

  /** Each pinned block has a dirty buffer of its own, so a buffer that is not dirty is one more. */
  lemma PinsBound(buf: seq<Buf>, pins: set<Loc>, b: nat)
    requires Pins(buf, pins) && b < |buf| && !buf[b].dirty
    ensures |pins| < |buf|
  {
    var others := Others(|buf|, b);
    OthersAre(|buf|, b);
    OthersSize(|buf|, b);
    hide Others;
    Image(buf, others);
    var places := set i | i in others :: buf[i].at;
    forall l | l in pins ensures l in places {
      assert Pinned(buf, l);
      var i :| 0 <= i < |buf| && buf[i].at == l && buf[i].dirty;
      assert i in others;
    }
    SubsetSize(pins, places);
  }

  /** The numbers below `n` without `b`. */
  ghost function Others(n: nat, b: nat): (s: set<nat>) {
    if n == 0 then {} else Others(n - 1, b) + if b == n - 1 then {} else {n - 1}
  }

  lemma {:induction false} OthersAre(n: nat, b: nat)
    ensures forall i :: i in Others(n, b) <==> 0 <= i < n && i != b
  {
    if n > 0 {
      OthersAre(n - 1, b);
    }
  }

  lemma {:induction false} OthersSize(n: nat, b: nat)
    ensures |Others(n, b)| == if b < n then n - 1 else n
  {
    if n > 0 {
      OthersSize(n - 1, b);
      OthersAre(n - 1, b);
      OneMoreMember(Others(n - 1, b), n - 1);
      hide Others;
    }
  }

  lemma OneMoreMember(s: set<nat>, x: nat)
    ensures s + {} == s && (x !in s ==> |s + {x}| == |s| + 1)
  {
  }

  // Read a block that is not pinned; there is a buffer for it exactly if not all are pinned, and otherwise
  // the length of the list stands for the panic "bget: no buffers".
  method ReadUnpinned(bc: Bcache, l: Loc, ghost pins: set<Loc>) returns (b: nat)
    requires bc.Valid() && Idle(bc.buf) && Pins(bc.buf, pins) && l in bc.disk && l.dev != 0 && l !in pins
    modifies bc`buf, bc`disk, bc`trace
    ensures bc.Valid() && bc.disk == old(bc.disk) && bc.trace == old(bc.trace) && |bc.buf| == |old(bc.buf)| && b <= |bc.buf|
    ensures b < |bc.buf| <==> |pins| < |bc.buf|
    ensures b == |bc.buf| ==> bc.buf == old(bc.buf)
    ensures b < |bc.buf| ==> Pins(bc.buf, pins) && bc.buf == old(bc.buf)[b := Buf(l, true, false, true, 1, bc.view[l])]
  {
    hide Coherent, Linked, Onto, Aged;
    b := bc.Bread(l);
    if b == |bc.buf| {
      if |pins| < |bc.buf| {
        NoPanic(bc.buf, bc.disk, bc.view, l, pins, {});
      }
    } else {
      PinsBound(old(bc.buf), pins, b);
      PinsKept(old(bc.buf), bc.buf, pins);
    }
  }

  // Copy the cached value of block `home` to the log block `slot`; false stands for the panic of
  // ReadUnpinned (log.c:183-188).
  method CopyToLog(bc: Bcache, slot: Loc, home: Loc, ghost pins: set<Loc>) returns (ok: bool)
    requires bc.Valid() && Idle(bc.buf) && Pins(bc.buf, pins)
    requires slot in bc.disk && slot.dev != 0 && slot !in pins && home in bc.disk && home.dev != 0 && home in pins
    modifies bc
    ensures bc.Valid() && Idle(bc.buf) && Pins(bc.buf, pins) && |bc.buf| == |old(bc.buf)|
    ensures ok <==> |pins| < |bc.buf|
    ensures !ok ==> bc.view == old(bc.view) && bc.disk == old(bc.disk) && bc.trace == old(bc.trace) && bc.buf == old(bc.buf)
    ensures ok ==> bc.view == old(bc.view)[slot := old(bc.view)[home]]
    ensures ok ==> bc.disk == old(bc.disk)[slot := old(bc.view)[home]] && bc.trace == old(bc.trace) + [bc.disk]
  {
    hide Coherent, Linked, Onto, Aged;
    var to := ReadUnpinned(bc, slot, pins);
    if to == |bc.buf| {
      return false;
    }
    var from := ReadBlock(bc, home, pins, {to});
    label read:
    WriteCopy(bc, from, to);
    PinsKept(old@read(bc.buf), bc.buf, pins);
    ok := true;
  }

  // Copy log block `slot` to its home (log.c:75-80).
  method CopyHome(bc: Bcache, slot: Loc, home: Loc, ghost pins: set<Loc>)
    requires bc.Valid() && Idle(bc.buf) && Pins(bc.buf, pins) && |pins| < |bc.buf|
    requires home in pins || |pins| + 1 < |bc.buf|
    requires slot in bc.disk && slot.dev != 0 && slot !in pins && home in bc.disk && home.dev != 0 && home != slot
    modifies bc
    ensures bc.Valid() && Idle(bc.buf) && Pins(bc.buf, pins - {home}) && |bc.buf| == |old(bc.buf)|
    ensures bc.view == old(bc.view)[home := old(bc.disk)[slot]]
    ensures bc.disk == old(bc.disk)[home := old(bc.disk)[slot]] && bc.trace == old(bc.trace) + [bc.disk]
  {
    hide Coherent, Linked, Onto, Aged;
    Settled(bc.buf, bc.disk, bc.view, pins);
    var lbuf, dbuf := ReadPair(bc, slot, home, pins);
    OnlyBuffer(bc.buf, bc.disk, bc.view, dbuf);
    label read:
    WriteCopy(bc, lbuf, dbuf);
    Unpinned(old@read(bc.buf), bc.buf, pins, home);
  }

  // ----- The log -----

  ghost function PinSet(g: Geo, blocks: seq<nat>): (s: set<Loc>) {
    set b | b in blocks :: Loc(g.dev, b)
  }

  lemma {:induction false} PinSetExact(g: Geo, blocks: seq<nat>)
    requires forall i, j :: 0 <= i < j < |blocks| ==> blocks[i] != blocks[j]
    ensures |PinSet(g, blocks)| == |blocks|
  {
    if |blocks| > 0 {
      var rest := blocks[..|blocks| - 1];
      PinSetExact(g, rest);
      assert blocks == rest + [blocks[|blocks| - 1]];
      assert PinSet(g, blocks) == PinSet(g, rest) + {Loc(g.dev, blocks[|blocks| - 1])};
      assert Loc(g.dev, blocks[|blocks| - 1]) !in PinSet(g, rest);
    }
  }

  /** The blocks of `pins` that are not among the first `k` installed. */
  ghost function StillPinned(g: Geo, block: seq<nat>, k: nat, pins: set<Loc>): (s: set<Loc>)
    requires k <= |block|
  {
    pins - PinSet(g, block[..k])
  }

  lemma NextPin(g: Geo, d: DiskState, block: seq<nat>, tail: nat, n: nat, pins: set<Loc>)
    requires tail < n <= LOGSIZE == |block| && WellFormed(g, d) && Count(d[Head(g)]) == n
    requires forall i: nat :: i < n ==> HomeOf(g, d[Head(g)], i) == Loc(g.dev, block[i])
    requires pins == {} || (pins == PinSet(g, block[..n]) && forall i, j :: 0 <= i < j < n ==> block[i] != block[j])
    ensures pins != {} ==> Loc(g.dev, block[tail]) in StillPinned(g, block, tail, pins)
    ensures Slot(g, tail) !in StillPinned(g, block, tail, pins)
    ensures |StillPinned(g, block, tail, pins)| <= |pins|
    ensures StillPinned(g, block, tail + 1, pins) == StillPinned(g, block, tail, pins) - {Loc(g.dev, block[tail])}
  {
    assert InLog(g, Slot(g, tail));
    assert block[tail] == block[..n][tail];
    assert block[..tail + 1] == block[..tail] + [block[tail]];
    forall l | l in pins ensures !InLog(g, l) {
      var b :| b in block[..n] && l == Loc(g.dev, b);
      var i :| 0 <= i < n && block[..n][i] == b;
      assert HomeOf(g, d[Head(g)], i) == l;
    }
  }

  lemma NoPins(g: Geo, block: seq<nat>, n: nat, pins: set<Loc>)
    requires n <= |block| && (pins == {} || pins == PinSet(g, block[..n]))
    ensures StillPinned(g, block, 0, pins) == pins && StillPinned(g, block, n, pins) == {}
  {
  }

  lemma NotPinned(g: Geo, d: DiskState, blocks: seq<nat>)
    requires LogOk(g, d, blocks)
    ensures Head(g) !in PinSet(g, blocks)
  {
    assert InLog(g, Head(g));
  }

  lemma PinOne(g: Geo, buf: seq<Buf>, b: nat, blocks: seq<nat>)
    requires Pins(buf, PinSet(g, blocks)) && b < |buf| && buf[b].at.dev == g.dev
    ensures Pins(buf[b := buf[b].(dirty := true)], PinSet(g, blocks + [buf[b].at.blockno]))
    ensures buf[b].at.blockno in blocks ==> Pins(buf[b := buf[b].(dirty := true)], PinSet(g, blocks))
  {
    var nbuf, more := buf[b := buf[b].(dirty := true)], blocks + [buf[b].at.blockno];
    assert forall x :: x in more <==> x in blocks || x == buf[b].at.blockno;
    assert PinSet(g, more) == PinSet(g, blocks) + {buf[b].at};
    forall l | l in PinSet(g, more) ensures Pinned(nbuf, l) {
      if l == buf[b].at {
        assert nbuf[b].at == l;
      } else {
        assert Pinned(buf, l);
        var i :| 0 <= i < |buf| && buf[i].at == l && buf[i].dirty;
        assert nbuf[i].at == l;
      }
    }
  }

  lemma OneMoreBlock(g: Geo, disk: DiskState, blocks: seq<nat>, b: nat)
    requires LogOk(g, disk, blocks) && Loc(g.dev, b) in disk && !InLog(g, Loc(g.dev, b))
    ensures |blocks| < LOGSIZE ==> LogOk(g, disk, blocks + [b])
  {
    hide WellFormed;
  }

  lemma NoneLogged(g: Geo, disk: DiskState, blocks: seq<nat>)
    requires LogOk(g, disk, blocks)
    ensures LogOk(g, disk, [])
  {
  }

  lemma InDisk(buf: seq<Buf>, disk: DiskState, view: DiskState, b: nat)
    requires Coherent(buf, disk, view) && b < |buf| && buf[b].valid
    ensures buf[b].at in disk
  {
  }

  /** An idle cache whose pinned buffers are `blocks` is ready to commit. */
  lemma IdleIsReady(g: Geo, buf: seq<Buf>, disk: DiskState, view: DiskState, blocks: seq<nat>)
    requires Coherent(buf, disk, view) && Idle(buf) && Pins(buf, PinSet(g, blocks))
    requires LogOk(g, disk, blocks) && |blocks| < g.size
    ensures Ready(g, disk, blocks, view)
  {
    Settled(buf, disk, view, PinSet(g, blocks));
  }

  /** The disk's log is empty and `blocks` can be entered in the header. */
  ghost predicate LogOk(g: Geo, disk: DiskState, blocks: seq<nat>) {
    && WellFormed(g, disk) && Count(disk[Head(g)]) == 0
    && |blocks| <= LOGSIZE
    && (forall i :: 0 <= i < |blocks| ==> Loc(g.dev, blocks[i]) in disk && !InLog(g, Loc(g.dev, blocks[i])))
  }

  // ----- The history of a disk -----

  /** From disk state number `from` on, the file system is `fs`. */
  datatype Mark = Mark(from: nat, fs: DiskState)

  /** The file system of the last commit before disk state number `j`. */
  ghost function LastCommit(marks: seq<Mark>, j: nat): (fs: DiskState)
    requires |marks| > 0
  {
    var last := marks[|marks| - 1];
    if |marks| == 1 || last.from <= j then last.fs else LastCommit(marks[..|marks| - 1], j)
  }

  ghost predicate Recovers(g: Geo, d: DiskState, fs: DiskState) {
    WellFormed(g, d) && Homes(g, Recover(g, d)) == fs
  }

  /** Every disk state recovers to the file system of the last commit before it. */
  ghost predicate History(g: Geo, t: seq<DiskState>, marks: seq<Mark>) {
    && |marks| > 0 && (forall k :: 0 <= k < |marks| ==> marks[k].from < |t|)
    && forall j: nat :: j < |t| ==> Recovers(g, t[j], LastCommit(marks, j))
  }

  lemma StartHistory(g: Geo, d: DiskState, t: seq<DiskState>)
    requires WellFormed(g, d) && |t| > 0 && t[0] == d && RecoveryStates(g, d, t, 1)
    ensures History(g, t, [Mark(0, Homes(g, Recover(g, d)))])
  {
    hide Recover, WellFormed, Homes, Install;
    InstallNone(g, d);
    InstallState(g, d, 0);
    forall j: nat | j < |t| ensures Recovers(g, t[j], Homes(g, Recover(g, d))) {
      assert DuringRecovery(g, d, t[j]);
      RecoverAfterCrash(g, d, t[j]);
    }
  }

  /** With an empty log, the file system is what is on the disk. */
  lemma EmptyLog(g: Geo, d: DiskState)
    requires WellFormed(g, d) && Count(d[Head(g)]) == 0
    ensures Homes(g, Recover(g, d)) == Homes(g, d)
  {
    assert InLog(g, Head(g));
  }

  /** A commit from disk `d`, the last of the states `t`, goes on with the history. */
  lemma LongerHistory(g: Geo, t: seq<DiskState>, marks: seq<Mark>, t': seq<DiskState>, c: nat, d: DiskState, v: DiskState)
    requires History(g, t, marks) && |t| > 0 && t[|t| - 1] == d && LogOk(g, d, []) && t <= t' && |t| <= c < |t'|
    requires forall j: nat :: |t| <= j < |t'| ==>
               WellFormed(g, t'[j]) && Homes(g, Recover(g, t'[j])) == Homes(g, if c <= j then v else d)
    ensures History(g, t', marks + [Mark(c, Homes(g, v))])
  {
    hide Recover, Homes, LogOk, WellFormed;
    var more := marks + [Mark(c, Homes(g, v))];
    assert more[..|marks|] == marks;
    LogIsEmpty(g, d);
    EmptyLog(g, d);
    assert Recovers(g, t[|t| - 1], LastCommit(marks, |t| - 1));
    forall j: nat | j < |t'| ensures Recovers(g, t'[j], LastCommit(more, j)) {
      if j < |t| {
        assert Recovers(g, t[j], LastCommit(marks, j));
      } else if j < c {
        assert LastCommit(marks, j) == LastCommit(marks, |t| - 1);
      }
    }
  }

  lemma LogIsEmpty(g: Geo, d: DiskState)
    requires LogOk(g, d, [])
    ensures WellFormed(g, d) && Count(d[Head(g)]) == 0
  {
  }

  class Log {
    const bc: Bcache
    const g: Geo
    // The in-memory header.
    var n: nat
    var block: seq<nat>
    var outstanding: nat
    var committing: bool
    // The outstanding operations, with the number of blocks each has added to the log.
    ghost var used: map<nat, nat>
    // Those that have passed the test of log_write and not taken the lock yet.
    ghost var passed: set<nat>
    // The file systems committed since the machine started, the first one by recovery.
    ghost var marks: seq<Mark>

    // One round of WriteLog: log block `tail` gets the value in `v` of its block.
    method LogOne(tail: nat, ghost d: DiskState, ghost v: DiskState, ghost pins: set<Loc>) returns (ok: bool)
      requires n <= |block| && tail < n && bc.Valid() && Idle(bc.buf) && Pins(bc.buf, pins)
      requires Ready(g, d, block[..n], v) && pins == PinSet(g, block[..n])
      requires bc.disk == Logged(g, d, block[..n], v, tail) && Homes(g, bc.view) == Homes(g, v)
      modifies bc
      ensures bc.Valid() && Idle(bc.buf) && Pins(bc.buf, pins) && |bc.buf| == |old(bc.buf)|
      ensures ok <==> |pins| < |bc.buf|
      ensures !ok ==> bc.view == old(bc.view) && bc.disk == old(bc.disk) && bc.trace == old(bc.trace) && bc.buf == old(bc.buf)
      ensures ok ==> bc.disk == Logged(g, d, block[..n], v, tail + 1) && Homes(g, bc.view) == Homes(g, v)
      ensures ok ==> bc.trace == old(bc.trace) + [bc.disk]
    {
      hide Coherent, Linked, Onto, Aged, Idle, Pins;
      LoggedAt(g, d, block[..n], v, tail);
      var home := Loc(g.dev, block[tail]);
      assert block[tail] == block[..n][tail];
      assert home in Homes(g, v);
      assert InLog(g, Slot(g, tail)) && Slot(g, tail) in bc.disk;
      ok := CopyToLog(bc, Slot(g, tail), home, pins);
    }

    // Copy the changed blocks from the cache to the log; false stands for the panic of LogOne, which the
    // first block meets (log.c:177-190).
    method WriteLog() returns (ok: bool)
      requires n <= |block| && bc.Valid() && Idle(bc.buf)
      requires Ready(g, bc.disk, block[..n], bc.view) && Pins(bc.buf, PinSet(g, block[..n]))
      modifies bc
      ensures bc.Valid() && Idle(bc.buf) && Pins(bc.buf, PinSet(g, block[..n])) && |bc.buf| == |old(bc.buf)|
      ensures ok <==> n == 0 || |PinSet(g, block[..n])| < |bc.buf|
      ensures !ok ==> bc.view == old(bc.view) && bc.disk == old(bc.disk) && bc.trace == old(bc.trace) && bc.buf == old(bc.buf)
      ensures ok ==> bc.disk == Logged(g, old(bc.disk), block[..n], old(bc.view), n) && old(bc.trace) <= bc.trace
      ensures ok ==> forall i: nat :: i < n ==> InSlot(g, bc.disk, i, old(bc.view), block[i])
      ensures forall j :: |old(bc.trace)| <= j < |bc.trace| ==>
                DuringCommit(g, old(bc.disk), block[..n], old(bc.view), bc.trace[j], false)
    {
      hide Coherent, Linked, Onto, Aged, Idle, Pins, DuringCommit, PinSet, Homes;
      ghost var d, v, blocks, pins := bc.disk, bc.view, block[..n], PinSet(g, block[..n]);
      var tail := 0;
      while tail < n
        invariant tail <= n && bc.Valid() && Idle(bc.buf) && Pins(bc.buf, pins) && |bc.buf| == |old(bc.buf)|
        invariant bc.disk == Logged(g, d, blocks, v, tail) && Homes(g, bc.view) == Homes(g, v)
        invariant old(bc.trace) <= bc.trace
        invariant if tail == 0 then bc.buf == old(bc.buf) && bc.view == v && bc.trace == old(bc.trace) else |pins| < |bc.buf|
        invariant forall j :: |old(bc.trace)| <= j < |bc.trace| ==> DuringCommit(g, d, blocks, v, bc.trace[j], false)
      {
        ok := LogOne(tail, d, v, pins);
        if !ok {
          return;
        }
        tail := tail + 1;
        LoggedState(g, d, blocks, v, tail);
      }
      LoggedLies(g, d, blocks, v);
      ok := true;
    }

    // One round of InstallTrans: the block of log slot `tail` goes home.
    method InstallOne(tail: nat, ghost d: DiskState, ghost left: set<Loc>)
      requires n <= LOGSIZE == |block| && tail < n && bc.Valid() && Idle(bc.buf) && Pins(bc.buf, left)
      requires WellFormed(g, d) && Count(d[Head(g)]) == n && HomeOf(g, d[Head(g)], tail) == Loc(g.dev, block[tail])
      requires bc.disk == Install(g, d, tail) && Slot(g, tail) !in left && |left| < |bc.buf|
      requires Loc(g.dev, block[tail]) in left || |left| + 1 < |bc.buf|
      modifies bc
      ensures bc.Valid() && Idle(bc.buf) && Pins(bc.buf, left - {Loc(g.dev, block[tail])}) && |bc.buf| == |old(bc.buf)|
      ensures bc.disk == Install(g, d, tail + 1) && bc.trace == old(bc.trace) + [bc.disk]
    {
      hide Coherent, Linked, Onto, Aged, Idle, Pins;
      InstallKeepsLog(g, d, tail);
      assert InLog(g, Slot(g, tail)) && Slot(g, tail) in bc.disk;
      CopyHome(bc, Slot(g, tail), Loc(g.dev, block[tail]), left);
    }

    // Copy the logged blocks to their homes (log.c:69-82).
    method InstallTrans(ghost pins: set<Loc>)
      requires n <= LOGSIZE == |block| && bc.Valid() && Idle(bc.buf) && Pins(bc.buf, pins) && |pins| < |bc.buf|
      requires WellFormed(g, bc.disk) && Count(bc.disk[Head(g)]) == n
      requires forall i: nat :: i < n ==> HomeOf(g, bc.disk[Head(g)], i) == Loc(g.dev, block[i])
      requires pins == {} || (pins == PinSet(g, block[..n]) && forall i, j :: 0 <= i < j < n ==> block[i] != block[j])
      requires pins == {} ==> |bc.buf| > 1
      modifies bc
      ensures bc.Valid() && Idle(bc.buf) && Pins(bc.buf, {}) && |bc.buf| == |old(bc.buf)|
      ensures bc.disk == Install(g, old(bc.disk), n) && old(bc.trace) <= bc.trace
      ensures RecoveryStates(g, old(bc.disk), bc.trace, |old(bc.trace)|)
    {
      hide Coherent, Linked, Onto, Aged, Idle, Pins, RecoveryStates, DuringRecovery, StillPinned, PinSet, Install;
      ghost var d := bc.disk;
      NoPins(g, block, n, pins);
      NoStates(g, d, bc.trace);
      InstallNone(g, d);
      var tail := 0;
      while tail < n
        invariant tail <= n && bc.Valid() && Idle(bc.buf) && |bc.buf| == |old(bc.buf)|
        invariant Pins(bc.buf, StillPinned(g, block, tail, pins))
        invariant bc.disk == Install(g, d, tail) && old(bc.trace) <= bc.trace
        invariant RecoveryStates(g, d, bc.trace, |old(bc.trace)|)
      {
        NextPin(g, d, block, tail, n, pins);
        InstallOne(tail, d, StillPinned(g, block, tail, pins));
        tail := tail + 1;
        InstallState(g, d, tail);
        OneMoreState(g, d, bc.trace[..|bc.trace| - 1], |old(bc.trace)|, bc.disk);
      }
    }

    // The header block `h` with the in-memory header copied over it (log.c:107-110).
    method FillHead(h: Block) returns (d: Block)
      requires n <= LOGSIZE == |block|
      ensures d == Headed(h, block[..n])
    {
      d := h[0 := n];
      var i := 0;
      while i < n
        invariant i <= n && d == [n] + block[..i] + h[1 + i..]
      {
        d := d[1 + i := block[i]];
        i := i + 1;
      }
    }

    // Write the in-memory header to the log's header block (log.c:101-113).
    method WriteHead(ghost pins: set<Loc>)
      requires n <= LOGSIZE == |block| && bc.Valid() && Idle(bc.buf) && Pins(bc.buf, pins) && |pins| < |bc.buf|
      requires g.dev != 0 && Head(g) in bc.disk && Head(g) !in pins
      modifies bc
      ensures bc.Valid() && Idle(bc.buf) && Pins(bc.buf, pins) && |bc.buf| == |old(bc.buf)|
      ensures bc.disk == old(bc.disk)[Head(g) := Headed(old(bc.disk)[Head(g)], block[..n])]
      ensures bc.view == old(bc.view)[Head(g) := bc.disk[Head(g)]] && bc.trace == old(bc.trace) + [bc.disk]
      ensures Loc(g.dev, g.start) in bc.disk && HeaderOf(bc.disk[Loc(g.dev, g.start)], block[..n])
    {
      hide Coherent, Linked, Onto, Aged, Headed, Pins, HeaderOf;
      HeadedWords(bc.disk[Head(g)], block[..n]);
      Settled(bc.buf, bc.disk, bc.view, pins);
      var b := ReadBlock(bc, Head(g), pins, {});
      label read:
      var d := FillHead(bc.buf[b].data);
      WriteBack(bc, b, d);
      PinsKept(old@read(bc.buf), bc.buf, pins);
    }

    // Load the in-memory header from disk (log.c:85-96).
    method ReadHead()
      requires |block| == LOGSIZE && bc.Valid() && Idle(bc.buf) && Pins(bc.buf, {}) && |bc.buf| > 0
      requires WellFormed(g, bc.disk)
      modifies this`n, this`block, bc
      ensures bc.Valid() && Idle(bc.buf) && Pins(bc.buf, {}) && |bc.buf| == |old(bc.buf)|
      ensures bc.disk == old(bc.disk) && bc.trace == old(bc.trace)
      ensures |block| == LOGSIZE && n == Count(bc.disk[Head(g)])
      ensures forall i: nat :: i < n ==> HomeOf(g, bc.disk[Head(g)], i) == Loc(g.dev, block[i])
      ensures n <= LOGSIZE && Loc(g.dev, g.start) in bc.disk && HeaderOf(bc.disk[Loc(g.dev, g.start)], block[..n])
    {
      hide Coherent, Linked, Onto, Aged;
      Settled(bc.buf, bc.disk, bc.view, {});
      var b := ReadBlock(bc, Head(g), {}, {});
      label read:
      var h := bc.buf[b].data;
      n := Count(h);
      var i := 0;
      while i < n
        invariant i <= n <= |block| == LOGSIZE
        invariant forall k: nat :: k < i ==> HomeOf(g, h, k) == Loc(g.dev, block[k])
        modifies this`block
      {
        block := block[i := h[1 + i]];
        i := i + 1;
      }
      bc.Brelse(b);
      PinsKept(old@read(bc.buf), bc.buf, {});
    }

    // Install the logged blocks and empty the log (log.c:119-121, log.c:198-200).
    method Finish(ghost pins: set<Loc>)
      requires n <= LOGSIZE == |block| && bc.Valid() && Idle(bc.buf) && Pins(bc.buf, pins) && |pins| < |bc.buf|
      requires WellFormed(g, bc.disk) && Count(bc.disk[Head(g)]) == n
      requires forall i: nat :: i < n ==> HomeOf(g, bc.disk[Head(g)], i) == Loc(g.dev, block[i])
      requires pins == {} || (pins == PinSet(g, block[..n]) && forall i, j :: 0 <= i < j < n ==> block[i] != block[j])
      requires pins == {} ==> |bc.buf| > 1
      modifies this`n, bc
      ensures n == 0 && bc.Valid() && Idle(bc.buf) && Pins(bc.buf, {}) && |bc.buf| == |old(bc.buf)|
      ensures bc.disk == Recover(g, old(bc.disk)) && old(bc.trace) <= bc.trace
      ensures RecoveryStates(g, old(bc.disk), bc.trace, |old(bc.trace)|)
    {
      hide Coherent, Linked, Onto, Aged, Idle, Pins, RecoveryStates, DuringRecovery, PinSet, Install, Headed;
      ghost var d := bc.disk;
      InstallKeepsLog(g, d, n);
      InstallTrans(pins);
      n := 0;
      WriteHead({});
      HeadedNone(d[Head(g)], block);
      RecoveredState(g, d);
      OneMoreState(g, d, bc.trace[..|bc.trace| - 1], |old(bc.trace)|, bc.disk);
    }

    // Write the changed blocks and then the header to the log; false stands for the panic of WriteLog (log.c:196-197).
    method WriteTransaction() returns (ok: bool)
      requires 0 < n <= LOGSIZE == |block| && bc.Valid() && Idle(bc.buf)
      requires Ready(g, bc.disk, block[..n], bc.view) && Pins(bc.buf, PinSet(g, block[..n]))
      modifies bc
      ensures bc.Valid() && Idle(bc.buf) && Pins(bc.buf, PinSet(g, block[..n])) && |bc.buf| == |old(bc.buf)|
      ensures ok <==> |PinSet(g, block[..n])| < |bc.buf|
      ensures !ok ==> bc.view == old(bc.view) && bc.disk == old(bc.disk) && bc.trace == old(bc.trace) && bc.buf == old(bc.buf)
      ensures ok ==> bc.disk == Logged(g, old(bc.disk), block[..n], old(bc.view), n)
                                      [Head(g) := Headed(old(bc.disk)[Head(g)], block[..n])]
      ensures ok ==> |old(bc.trace)| < |bc.trace| && old(bc.trace) <= bc.trace && bc.trace[|bc.trace| - 1] == bc.disk
      ensures ok ==> forall j :: |old(bc.trace)| <= j < |bc.trace| - 1 ==>
                DuringCommit(g, old(bc.disk), block[..n], old(bc.view), bc.trace[j], false)
    {
      hide Coherent, Linked, Onto, Aged, Idle, Pins, DuringCommit, PinSet, Logged, Headed;
      NotPinned(g, bc.disk, block[..n]);
      LoggedAt(g, bc.disk, block[..n], bc.view, n);
      ok := WriteLog();
      if ok {
        WriteHead(PinSet(g, block[..n]));
      }
    }

    // Write the transaction to the log, commit it, install it and empty the log; `c` is the number
    // of the first disk state from which the transaction is committed. False stands for the panic
    // "bget: no buffers" (log.c:192-202). The transaction must not run over the end of the log.
    method Commit() returns (ok: bool, ghost c: nat)
      requires n <= LOGSIZE == |block| && forall i, j :: 0 <= i < j < n ==> block[i] != block[j]
      requires bc.Valid() && Idle(bc.buf)
      requires LogOk(g, bc.disk, block[..n]) && n < g.size && Pins(bc.buf, PinSet(g, block[..n]))
      modifies this`n, bc
      ensures ok <==> old(n) == 0 || old(n) < |bc.buf|
      ensures bc.Valid() && Idle(bc.buf) && |bc.buf| == |old(bc.buf)| && old(bc.trace) <= bc.trace
      ensures !ok ==> n == old(n) && bc.view == old(bc.view) && bc.disk == old(bc.disk) && bc.trace == old(bc.trace) && bc.buf == old(bc.buf)
      ensures ok ==> n == 0 && Pins(bc.buf, {}) && LogOk(g, bc.disk, []) && Homes(g, bc.disk) == Homes(g, old(bc.view))
      ensures if ok && old(n) > 0 then |old(bc.trace)| <= c < |bc.trace| else bc.trace == old(bc.trace)
      ensures Ready(g, old(bc.disk), block[..old(n)], old(bc.view))
      ensures forall j :: |old(bc.trace)| <= j < |bc.trace| ==>
                DuringCommit(g, old(bc.disk), block[..old(n)], old(bc.view), bc.trace[j], c <= j)
    {
      hide Coherent, Linked, Onto, Aged, Idle, Pins, DuringCommit, DuringRecovery, RecoveryStates, Logged, Headed, Install,
        Homes, Recover, Ready, Committed, WellFormed, Headed, PinSet;
      ghost var d, v, blocks := bc.disk, bc.view, block[..n];
      IdleIsReady(g, bc.buf, d, v, blocks);
      PinSetExact(g, blocks);
      c := |bc.trace|;
      ok := true;
      if n > 0 {
        ok := WriteTransaction();
        if !ok {
          return;
        }
        c := |bc.trace| - 1;
        ghost var e := bc.disk;
        ghost var t := bc.trace;
        HeaderWritten(g, d, e, blocks, v);
        CommitPoint(g, d, e, blocks, v);
        CommittedHead(g, d, e, blocks, v);
        Finish(PinSet(g, blocks));
        RecoverTwice(g, e);
        CommitStates(g, d, blocks, v, bc.trace, |old(bc.trace)|, c, |t|);
      } else {
        NoBlocks(g, block);
        Settled(bc.buf, d, v, {});
        assert d == v;
      }
    }

    ghost function Now(): (s: Space)
      reads this
    {
      Space(n, used, passed, committing)
    }

    ghost predicate Valid()
      reads this, bc
    {
      && n <= LOGSIZE == |block| && (forall i, j :: 0 <= i < j < n ==> block[i] != block[j])
      && bc.Valid()
      && LogOk(g, bc.disk, block[..n]) && Pins(bc.buf, PinSet(g, block[..n]))
      && outstanding == |used| && Reachable(g.size, Now())
      && History(g, bc.trace, marks)
    }

    // Wherever in its history the machine stops, recovery gives the file system of the last commit before.
    lemma EveryCrash(j: nat)
      requires Valid() && j < |bc.trace|
      ensures WellFormed(g, bc.trace[j]) && Homes(g, Recover(g, bc.trace[j])) == LastCommit(marks, j)
    {
      assert Recovers(g, bc.trace[j], LastCommit(marks, j));
    }

    // Finish what the log holds, then empty it (log.c:115-122).
    method RecoverFromLog()
      requires |block| == LOGSIZE && bc.Valid() && Idle(bc.buf) && Pins(bc.buf, {}) && |bc.buf| > 1
      requires WellFormed(g, bc.disk)
      modifies this`n, this`block, bc
      ensures n == 0 && |block| == LOGSIZE && bc.Valid() && Idle(bc.buf) && |bc.buf| == |old(bc.buf)|
      ensures bc.disk == Recover(g, old(bc.disk)) && bc.view == bc.disk
      ensures LogOk(g, bc.disk, block[..n]) && Pins(bc.buf, PinSet(g, block[..n]))
      ensures old(bc.trace) <= bc.trace && RecoveryStates(g, old(bc.disk), bc.trace, |old(bc.trace)|)
    {
      hide Coherent, Linked, Onto, Aged, Install, Recover, RecoveryStates, DuringRecovery, Idle, Pins;
      ghost var d := bc.disk;
      ReadHead();
      Finish({});
      RecoverTwice(g, d);
      Settled(bc.buf, bc.disk, bc.view, {});
      assert bc.view == bc.disk;
      assert block[..n] == [] && PinSet(g, block[..n]) == {};
    }

    // Start on disk `d` after a reboot (log.c:54-66).
    constructor (nbuf: nat, g: Geo, d: DiskState)
      requires nbuf > 1 && WellFormed(g, d)
      ensures Valid() && this.g == g && fresh(bc) && Idle(bc.buf) && |bc.buf| == nbuf
      ensures n == 0 && outstanding == 0 && !committing
      ensures bc.disk == Recover(g, d) && bc.view == bc.disk && RecoveryStates(g, d, bc.trace, 1)
      ensures bc.trace[0] == d && marks == [Mark(0, Homes(g, Recover(g, d)))]
    {
      this.g := g;
      bc := new Bcache(nbuf, d);
      n, block, outstanding, committing, used, passed := 0, seq(LOGSIZE, _ => 0), 0, false, map[], {};
      marks := [Mark(0, Homes(g, Recover(g, d)))];
      new;
      FreshCache(bc.buf);
      Boot(d);
    }

    // The recovery at the start (log.c:65).
    method Boot(ghost d: DiskState)
      requires |block| == LOGSIZE && bc.Valid() && |bc.buf| > 1 && WellFormed(g, d) && bc.disk == d && bc.trace == [d]
      requires Idle(bc.buf) && Pins(bc.buf, {}) && outstanding == 0 && !committing
      requires used == map[] && passed == {} && marks == [Mark(0, Homes(g, Recover(g, d)))]
      modifies this`n, this`block, bc
      ensures Valid() && n == 0 && Idle(bc.buf) && |bc.buf| == |old(bc.buf)|
      ensures bc.disk == Recover(g, d) && bc.view == bc.disk && RecoveryStates(g, d, bc.trace, 1)
      ensures |bc.trace| > 0 && bc.trace[0] == d
    {
      hide Coherent, Linked, Onto, Aged, Install, Recover, RecoveryStates, LogOk, PinSet, WellFormed, History, Homes, Pins,
        Reachable, Idle;
      ReachStart(g.size);
      RecoverFromLog();
      StartHistory(g, d, bc.trace);
    }

    // Start an operation, unless it has to wait for a commit or for log space (log.c:125-141).
    method BeginOp(ghost op: nat) returns (started: bool)
      requires Valid() && op !in used
      modifies this`outstanding, this`used
      ensures Valid()
      ensures started == (!committing && n + (old(outstanding) + 1) * 10 <= 30)
      ensures used == if started then old(used)[op := 0] else old(used)
    {
      hide Coherent, Linked, Onto, Aged, Pins, LogOk, Reachable, PinSet, History;
      if committing || n + (outstanding + 1) * MAXOPBLOCKS > LOGSIZE {
        return false;
      }
      ReachNext(g.size, Now(), Begin(op));
      outstanding := outstanding + 1;
      used := used[op := 0];
      return true;
    }

    // The place of `b` among the logged blocks, or their number (log.c:224-227).
    method FindLogged(b: nat) returns (i: nat)
      requires n <= |block|
      ensures i <= n && b !in block[..i] && (i < n ==> block[i] == b)
    {
      i := 0;
      while i < n
        invariant i <= n && b !in block[..i]
      {
        if block[i] == b {
          break;
        }
        i := i + 1;
      }
    }

    // Enter a block among those logged, unless it is there already (log.c:224-230).
    method Record(blockno: nat)
      requires n <= LOGSIZE == |block| && forall i, j :: 0 <= i < j < n ==> block[i] != block[j]
      requires n == LOGSIZE ==> blockno in block[..n]
      modifies this`n, this`block
      ensures n <= LOGSIZE == |block| && forall i, j :: 0 <= i < j < n ==> block[i] != block[j]
      ensures blockno in old(block[..n]) ==> block == old(block) && n == old(n)
      ensures blockno !in old(block[..n]) ==> n == old(n) + 1 && block[..n] == old(block[..n]) + [blockno]
    {
      var i := FindLogged(blockno);
      ghost var blocks := block[..n];
      assert i < n ==> blocks[i] == blockno;
      block := block[i := blockno];
      if i == n {
        n := n + 1;
        assert block[..n] == blocks + [blockno];
      } else {
        assert block == old(block);
      }
    }

    // The test at the start of log_write, which takes no lock; false stands for a panic (log.c:218-221).
    method LogTest(ghost op: nat) returns (ok: bool)
      requires Valid() && op !in passed && (outstanding > 0 ==> op in used)
      modifies this`passed
      ensures Valid() && ok == (n < LOGSIZE && n < g.size - 1 && outstanding >= 1)
      ensures HasReservation(Now(), op) && g.size > LOGSIZE ==> ok
      ensures passed == if ok then old(passed) + {op} else old(passed)
    {
      hide Coherent, Linked, Onto, Aged, Pins, LogOk, Reachable, SpaceOk, Bounded, PinSet, History;
      ReachableOk(g.size, Now());
      if op in used && used[op] < MAXOPBLOCKS {
        AppendKeepsSpace(Now(), op);
      }
      if n >= LOGSIZE || n >= g.size - 1 {
        return false;
      }
      if outstanding < 1 {
        return false;
      }
      ReachNext(g.size, Now(), Test(op));
      passed := passed + {op};
      return true;
    }

    // The locked part of log_write: record that the held buffer `b` is changed, and pin it (log.c:223-232). Other
    // operations may have entered blocks since the test.
    method LogAppend(b: nat, ghost op: nat)
      requires Valid() && op in passed && b < |bc.buf| && bc.buf[b].locked && bc.buf[b].valid
      requires bc.buf[b].at.dev == g.dev && !InLog(g, bc.buf[b].at)
      requires bc.buf[b].at.blockno !in block[..n] ==> HasReservation(Now(), op)
      modifies this`n, this`block, this`used, this`passed, bc`buf
      ensures Valid() && passed == old(passed) - {op}
      ensures bc.buf == old(bc.buf[b := bc.buf[b].(dirty := true)])
      ensures bc.buf[b].at.blockno in old(block[..n]) ==> block == old(block) && n == old(n) && used == old(used)
      ensures bc.buf[b].at.blockno !in old(block[..n]) ==>
                && block[..n] == old(block[..n]) + [bc.buf[b].at.blockno]
                && op in old(used) && used == old(used[op := used[op] + 1])
    {
      hide Coherent, Linked, Onto, Aged, Pins, LogOk, Reachable, SpaceOk, Bounded, PinSet, History, InLog;
      ghost var blocks, s := block[..n], Now();
      ReachableOk(g.size, s);
      var blockno := bc.buf[b].at.blockno;
      if blockno in blocks {
        ReachNext(g.size, s, Absorb(op));
      } else {
        AppendKeepsSpace(s, op);
        ReachNext(g.size, s, Append(op));
      }
      PinOne(g, bc.buf, b, blocks);
      InDisk(bc.buf, bc.disk, bc.view, b);
      OneMoreBlock(g, bc.disk, blocks, blockno);
      Record(blockno);
      if blockno !in blocks {
        used := used[op := used[op] + 1];
      }
      passed := passed - {op};
      bc.Pin(b);
    }

    // End an operation; the last one outstanding commits, and `c` then is the number of the first disk state with
    // the transaction (log.c:145-174). Nothing is said about the disk after the log has been overrun.
    method EndOp(ghost op: nat) returns (r: Outcome, ghost c: nat)
      requires Valid() && op in used && op !in passed && (outstanding == 1 ==> Idle(bc.buf))
      modifies this`n, this`outstanding, this`committing, this`used, this`marks, bc
      ensures r == if old(outstanding) > 1 then Done else CommitOutcome(g.size, old(n), |old(bc.buf)|)
      ensures r.Overrun? ==> 1 < g.size <= LOGSIZE
      ensures g.size > LOGSIZE && |old(bc.buf)| > LOGSIZE ==> r.Done?
      ensures !r.Overrun? ==> Valid() && committing == r.NoBuffers? && used == old(used) - {op}
      ensures old(outstanding) > 1 || r.NoBuffers? ==>
                n == old(n) && bc.buf == old(bc.buf) && bc.view == old(bc.view) && bc.disk == old(bc.disk) && bc.trace == old(bc.trace)
      ensures old(outstanding) == 1 && r.Done? ==>
                n == 0 && Homes(g, bc.disk) == Homes(g, old(bc.view)) && old(bc.trace) <= bc.trace
      ensures !r.Overrun? ==>
                if old(outstanding) == 1 && r.Done? && old(n) > 0
                then |old(bc.trace)| <= c < |bc.trace| && marks == old(marks) + [Mark(c, Homes(g, old(bc.view)))]
                else bc.trace == old(bc.trace) && marks == old(marks)
      ensures !r.Overrun? ==> forall j :: |old(bc.trace)| <= j < |bc.trace| ==>
                && WellFormed(g, bc.trace[j])
                && Homes(g, Recover(g, bc.trace[j])) == Homes(g, if c <= j then old(bc.view) else old(bc.disk))
    {
      hide Coherent, Linked, Onto, Aged, Pins, Idle, Recover, Homes, WellFormed, History, LogOk, PinSet, SpaceOk, Reachable;
      ReachableOk(g.size, Now());
      ReachNext(g.size, Now(), End(op));
      r, c := Done, 0;
      outstanding := outstanding - 1;
      used := used - {op};
      if outstanding == 0 {
        committing := true;
        r, c := CommitLast();
      }
    }

    // The commit of the last operation to end (log.c:165-173).
    method CommitLast() returns (r: Outcome, ghost c: nat)
      requires Valid() && outstanding == 0 && committing && Idle(bc.buf)
      modifies this`n, this`committing, this`marks, bc
      ensures r == CommitOutcome(g.size, old(n), |old(bc.buf)|)
      ensures !r.Overrun? ==> Valid() && committing == r.NoBuffers?
      ensures r.NoBuffers? ==>
                n == old(n) && bc.buf == old(bc.buf) && bc.view == old(bc.view) && bc.disk == old(bc.disk) && bc.trace == old(bc.trace)
      ensures r.Done? ==> n == 0 && Homes(g, bc.disk) == Homes(g, old(bc.view)) && old(bc.trace) <= bc.trace
      ensures !r.Overrun? ==>
                if r.Done? && old(n) > 0
                then |old(bc.trace)| <= c < |bc.trace| && marks == old(marks) + [Mark(c, Homes(g, old(bc.view)))]
                else bc.trace == old(bc.trace) && marks == old(marks)
      ensures !r.Overrun? ==> forall j :: |old(bc.trace)| <= j < |bc.trace| ==>
                && WellFormed(g, bc.trace[j])
                && Homes(g, Recover(g, bc.trace[j])) == Homes(g, if c <= j then old(bc.view) else old(bc.disk))
    {
      hide Coherent, Linked, Onto, Aged, Pins, Idle, Recover, DuringCommit, Homes, WellFormed, History, Ready, Reachable,
        LogOk, PinSet, SpaceOk;
      ghost var blocks, d, v, t := block[..n], bc.disk, bc.view, bc.trace;
      ReachableOk(g.size, Now());
      r, c := Done, 0;
      if n >= g.size {
        r := ReadFirst();
        return;
      }
      var ok;
      ok, c := Commit();
      if ok {
        AllStates(g, d, blocks, v, bc.trace, |t|, c);
        if |t| < |bc.trace| {
          NoneLogged(g, d, blocks);
          LongerHistory(g, t, marks, bc.trace, c, d, v);
          marks := marks + [Mark(c, Homes(g, v))];
        }
        NoBlocks(g, block);
        NothingLeft(g.size, old(Now()));
        committing := false;
      } else {
        r := NoBuffers;
      }
    }

    // A commit that will run over the end of the log reads the first log block, unless every buffer is pinned.
    method ReadFirst() returns (r: Outcome)
      requires n <= LOGSIZE == |block| && forall i, j :: 0 <= i < j < n ==> block[i] != block[j]
      requires bc.Valid() && Idle(bc.buf) && LogOk(g, bc.disk, block[..n]) && Pins(bc.buf, PinSet(g, block[..n]))
      requires g.size <= n && (g.size == 1 ==> n == 0)
      modifies bc
      ensures r == CommitOutcome(g.size, n, |old(bc.buf)|) && r != Done
      ensures r.NoBuffers? ==> bc.Valid() && bc.view == old(bc.view) && bc.disk == old(bc.disk)
                               && bc.trace == old(bc.trace) && bc.buf == old(bc.buf)
    {
      hide Coherent, Linked, Onto, Aged, Idle, Pins;
      PinSetExact(g, block[..n]);
      var b := ReadUnpinned(bc, Slot(g, 0), PinSet(g, block[..n]));
      r := if b < |bc.buf| then Overrun else NoBuffers;
    }
  }

  lemma CommittedHead(g: Geo, d: DiskState, e: DiskState, blocks: seq<nat>, v: DiskState)
    requires Committed(g, d, blocks, v, e) && |blocks| <= LOGSIZE
    ensures WellFormed(g, e) && Head(g) in e && Count(e[Head(g)]) == |blocks|
    ensures forall i: nat :: i < |blocks| ==> HomeOf(g, e[Head(g)], i) == Loc(g.dev, blocks[i])
  {
  }

  lemma NoBlocks(g: Geo, block: seq<nat>)
    ensures block[..0] == [] && PinSet(g, block[..0]) == {}
  {
  }

  lemma FreshCache(buf: seq<Buf>)
    requires forall i :: 0 <= i < |buf| ==> Free(buf[i]) && !buf[i].locked
    ensures Idle(buf) && Pins(buf, {})
  {
  }

  /** The end of a commit. */
  lemma NothingLeft(size: nat, s: Space)
    requires Reachable(size, s) && s.committing
    ensures s.used == map[] && s.passed == {} && Reachable(size, Space(0, s.used, s.passed, false))
  {
    hide Reachable;
    ReachableOk(size, s);
    ReachNext(size, s, Clear);
  }

  lemma NoneLeft(used: map<nat, nat>)
    requires |used| == 0
    ensures used == map[]
  {
    assert |used.Keys| == 0;
    assert used.Keys == {};
  }

  lemma AllStates(g: Geo, d: DiskState, blocks: seq<nat>, v: DiskState, t: seq<DiskState>, first: nat, c: nat)
    requires Ready(g, d, blocks, v) && forall j :: first <= j < |t| ==> DuringCommit(g, d, blocks, v, t[j], c <= j)
    ensures forall j :: first <= j < |t| ==>
              WellFormed(g, t[j]) && Homes(g, Recover(g, t[j])) == Homes(g, if c <= j then v else d)
  {
    hide Homes, Recover, WellFormed, DuringCommit, Ready;
    forall j | first <= j < |t|
      ensures WellFormed(g, t[j]) && Homes(g, Recover(g, t[j])) == Homes(g, if c <= j then v else d)
    {
      CrashInCommit(g, d, blocks, v, t[j], c <= j);
    }
  }
}
