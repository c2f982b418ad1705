/** The on-disk redo log (log.c) as a transformation of disk states: what recovery
    makes of any state the disk can be in when the machine stops. */
module Recovery {
  import opened Bio

  /** Blocks the in-memory and on-disk headers have room for (param.h:11). */
  const LOGSIZE: nat := 30

  /** Where the log lies: a header block and `size - 1` data blocks. */
  datatype Geo = Geo(dev: nat, start: nat, size: nat)

  function Head(g: Geo): (l: Loc) {
    Loc(g.dev, g.start)
  }

  function Slot(g: Geo, i: nat): (l: Loc) {
    Loc(g.dev, g.start + 1 + i)
  }

  predicate InLog(g: Geo, l: Loc) {
    l.dev == g.dev && g.start <= l.blockno < g.start + g.size
  }

  /** The header block: word 0 is the count, then the home block numbers. */
  function Count(h: Block): (n: nat) {
    h[0]
  }

  function HomeOf(g: Geo, h: Block, i: nat): (l: Loc)
    requires i < LOGSIZE
  {
    Loc(g.dev, h[1 + i])
  }

  /** A disk on which recovery can run: the header names `Count` home blocks outside the log. */
  ghost predicate WellFormed(g: Geo, d: DiskState) {
    && g.dev != 0
    && Head(g) in d
    && Count(d[Head(g)]) <= LOGSIZE && Count(d[Head(g)]) < g.size
    && (forall i: nat :: i < g.size - 1 ==> Slot(g, i) in d)
    && (forall i: nat :: i < Count(d[Head(g)]) ==>
          && HomeOf(g, d[Head(g)], i) in d
          && !InLog(g, HomeOf(g, d[Head(g)], i)))
  }

  /** The disk after the first `k` logged blocks have been copied home. */
  ghost function Install(g: Geo, d: DiskState, k: nat): (e: DiskState)
    requires WellFormed(g, d) && k <= Count(d[Head(g)])
    ensures e.Keys == d.Keys
  {
    if k == 0 then d else Install(g, d, k - 1)[HomeOf(g, d[Head(g)], k - 1) := d[Slot(g, k - 1)]]
  }

  lemma InstallNone(g: Geo, d: DiskState)
    requires WellFormed(g, d)
    ensures Install(g, d, 0) == d
  {
  }

  /** The header with its count erased. */
  function Erased(h: Block): (e: Block) {
    h[0 := 0]
  }

  /** What a completed recovery leaves on the disk (log.c:115-122). */
  ghost function Recover(g: Geo, d: DiskState): (e: DiskState)
    requires WellFormed(g, d)
  {
    Install(g, d, Count(d[Head(g)]))[Head(g) := Erased(d[Head(g)])]
  }

  /** The file system proper: every block outside the log. */
  ghost function Homes(g: Geo, d: DiskState): (m: DiskState) {
    map l | l in d && !InLog(g, l) :: d[l]
  }

  // ----- Installing leaves the log alone and can be repeated -----

  /** The last of the first `k` log entries that is for block `l`, or -1. */
  function LastEntry(g: Geo, h: Block, k: nat, l: Loc): (i: int)
    requires k <= LOGSIZE
    ensures -1 <= i < k
  {
    if k == 0 then -1 else if HomeOf(g, h, k - 1) == l then k - 1 else LastEntry(g, h, k - 1, l)
  }

  lemma {:induction false} InstallAt(g: Geo, d: DiskState, k: nat, l: Loc)
    requires WellFormed(g, d) && k <= Count(d[Head(g)]) && l in d
    ensures var i := LastEntry(g, d[Head(g)], k, l);
            Install(g, d, k)[l] == if i < 0 then d[l] else d[Slot(g, i)]
  {
    if k > 0 {
      InstallAt(g, d, k - 1, l);
    }
  }

  lemma {:induction false} NoEntryForLog(g: Geo, d: DiskState, k: nat, l: Loc)
    requires WellFormed(g, d) && k <= Count(d[Head(g)]) && InLog(g, l)
    ensures LastEntry(g, d[Head(g)], k, l) == -1
  {
    if k > 0 {
      NoEntryForLog(g, d, k - 1, l);
    }
  }

  lemma {:induction false} EntryStays(g: Geo, h: Block, k: nat, n: nat, l: Loc)
    requires k <= n <= LOGSIZE
    ensures LastEntry(g, h, k, l) >= 0 ==> LastEntry(g, h, n, l) >= 0
  {
    if k < n {
      EntryStays(g, h, k, n - 1, l);
    }
  }

  lemma InstallKeepsLog(g: Geo, d: DiskState, k: nat)
    requires WellFormed(g, d) && k <= Count(d[Head(g)])
    ensures forall l :: l in d && InLog(g, l) ==> Install(g, d, k)[l] == d[l]
    ensures WellFormed(g, Install(g, d, k)) && Install(g, d, k)[Head(g)] == d[Head(g)]
  {
    hide Install, LastEntry;
    forall l | l in d && InLog(g, l) ensures Install(g, d, k)[l] == d[l] {
      InstallAt(g, d, k, l);
      NoEntryForLog(g, d, k, l);
    }
    assert InLog(g, Head(g));
  }

  /** Installing again from wherever a first attempt stopped gives what one whole attempt gives. */
  lemma InstallTwice(g: Geo, d: DiskState, k: nat)
    requires WellFormed(g, d) && k <= Count(d[Head(g)])
    ensures WellFormed(g, Install(g, d, k)) && Recover(g, Install(g, d, k)) == Recover(g, d)
  {
    hide Install, LastEntry;
    var e, n, h := Install(g, d, k), Count(d[Head(g)]), d[Head(g)];
    InstallKeepsLog(g, d, k);
    forall l | l in d ensures Install(g, e, n)[l] == Install(g, d, n)[l] {
      InstallAt(g, e, n, l);
      InstallAt(g, d, n, l);
      InstallAt(g, d, k, l);
      EntryStays(g, h, k, n, l);
      var i := LastEntry(g, h, n, l);
      assert i >= 0 ==> InLog(g, Slot(g, i));
    }
    assert Install(g, e, n) == Install(g, d, n);
  }

  /** A recovered disk has an empty log, so recovering it again changes nothing. */
  lemma RecoverTwice(g: Geo, d: DiskState)
    requires WellFormed(g, d)
    ensures WellFormed(g, Recover(g, d)) && Count(Recover(g, d)[Head(g)]) == 0
    ensures Recover(g, Recover(g, d)) == Recover(g, d)
  {
    hide Install;
    var n := Count(d[Head(g)]);
    InstallKeepsLog(g, d, n);
    var r := Recover(g, d);
    assert InLog(g, Head(g));
    InstallNone(g, r);
    assert r[Head(g)] == Erased(r[Head(g)]);
  }

  /** What recovery does, word by word of the header at the start of the log: word 0 counts the entries, and word 1 + i
      names the block that gets the value of block start + 1 + i, unless a later word names it again. */
  lemma RecoverNamed(g: Geo, d: DiskState, i: nat)
    requires WellFormed(g, d) && Loc(g.dev, g.start) in d && i < d[Loc(g.dev, g.start)][0] < BWORDS
    requires forall k :: 1 + i < k <= d[Loc(g.dev, g.start)][0] ==> d[Loc(g.dev, g.start)][k] != d[Loc(g.dev, g.start)][1 + i]
    ensures var l := Loc(g.dev, d[Loc(g.dev, g.start)][1 + i]);
            && l in Recover(g, d) && Loc(g.dev, g.start + 1 + i) in d
            && Recover(g, d)[l] == d[Loc(g.dev, g.start + 1 + i)]
  {
    var h, n := d[Head(g)], Count(d[Head(g)]);
    var l := HomeOf(g, h, i);
    InstallAt(g, d, n, l);
    LastEntryIs(g, h, n, l);
    assert InLog(g, Head(g)) && Slot(g, i) in d;
  }

  /** All other blocks outside the log are left as they are. */
  lemma RecoverOther(g: Geo, d: DiskState, l: Loc)
    requires WellFormed(g, d) && l in d && !InLog(g, l) && Loc(g.dev, g.start) in d
    requires l.dev != g.dev || forall k :: 1 <= k <= d[Loc(g.dev, g.start)][0] && k < BWORDS ==> d[Loc(g.dev, g.start)][k] != l.blockno
    ensures Recover(g, d)[l] == d[l]
  {
    var h, n := d[Head(g)], Count(d[Head(g)]);
    InstallAt(g, d, n, l);
    LastEntryIs(g, h, n, l);
    assert InLog(g, Head(g));
  }

  lemma {:induction false} LastEntryIs(g: Geo, h: Block, k: nat, l: Loc)
    requires k <= LOGSIZE
    ensures var i := LastEntry(g, h, k, l);
            && (i >= 0 ==> HomeOf(g, h, i) == l)
            && (forall j: nat :: i < j < k ==> HomeOf(g, h, j) != l)
  {
    if k > 0 {
      LastEntryIs(g, h, k - 1, l);
    }
  }

  // ----- Crashes -----

  /** The states the disk goes through while recovery runs from `d` (each is a crash point). */
  ghost predicate DuringRecovery(g: Geo, d: DiskState, e: DiskState)
    requires WellFormed(g, d)
  {
    || (exists k: nat :: k <= Count(d[Head(g)]) && e == Install(g, d, k))
    || e == Recover(g, d)
  }

  /** The disk states of `t` from number `first` on are states of a recovery from `d`. */
  ghost predicate RecoveryStates(g: Geo, d: DiskState, t: seq<DiskState>, first: nat)
    requires WellFormed(g, d)
  {
    forall j :: first <= j < |t| ==> DuringRecovery(g, d, t[j])
  }

  lemma NoStates(g: Geo, d: DiskState, t: seq<DiskState>)
    requires WellFormed(g, d)
    ensures RecoveryStates(g, d, t, |t|)
  {
  }

  lemma OneMoreState(g: Geo, d: DiskState, t: seq<DiskState>, first: nat, e: DiskState)
    requires WellFormed(g, d) && RecoveryStates(g, d, t, first) && DuringRecovery(g, d, e)
    ensures RecoveryStates(g, d, t + [e], first)
  {
  }

  lemma InstallState(g: Geo, d: DiskState, k: nat)
    requires WellFormed(g, d) && k <= Count(d[Head(g)])
    ensures DuringRecovery(g, d, Install(g, d, k))
  {
  }

  lemma RecoveredState(g: Geo, d: DiskState)
    requires WellFormed(g, d)
    ensures DuringRecovery(g, d, Recover(g, d))
  {
  }

  /** `run` is a sequence of recoveries, each started from where the last one crashed. */
  ghost predicate CrashRun(g: Geo, run: seq<DiskState>) {
    && |run| > 0
    && (forall i :: 0 <= i < |run| ==> WellFormed(g, run[i]))
    && (forall i :: 0 <= i < |run| - 1 ==> DuringRecovery(g, run[i], run[i + 1]))
  }

  lemma RecoverAfterCrash(g: Geo, d: DiskState, e: DiskState)
    requires WellFormed(g, d) && DuringRecovery(g, d, e)
    ensures WellFormed(g, e) && Recover(g, e) == Recover(g, d)
  {
    if e == Recover(g, d) {
      RecoverTwice(g, d);
    } else {
      var k: nat :| k <= Count(d[Head(g)]) && e == Install(g, d, k);
      InstallTwice(g, d, k);
    }
  }

  /** However often recovery is itself cut short, the recovery that completes gives the same disk. */
  lemma {:induction false} RecoverAfterCrashes(g: Geo, run: seq<DiskState>)
    requires CrashRun(g, run)
    ensures Recover(g, run[|run| - 1]) == Recover(g, run[0])
  {
    if |run| > 1 {
      RecoverAfterCrashes(g, run[..|run| - 1]);
      RecoverAfterCrash(g, run[|run| - 2], run[|run| - 1]);
    }
  }

  // ----- Commit -----

  /** The disk after the new values `v` of the first `k` blocks have been copied to the log (log.c:177-190). */
  ghost function Logged(g: Geo, d: DiskState, blocks: seq<nat>, v: DiskState, k: nat): (e: DiskState)
    requires k <= |blocks| && forall b :: b in blocks ==> Loc(g.dev, b) in v
  {
    if k == 0 then d else Logged(g, d, blocks, v, k - 1)[Slot(g, k - 1) := v[Loc(g.dev, blocks[k - 1])]]
  }

  /** The header block with `blocks` written over its start (log.c:107-110). */
  function Headed(h: Block, blocks: seq<nat>): (e: Block)
    requires |blocks| <= LOGSIZE
  {
    [|blocks|] + blocks + h[1 + |blocks|..]
  }

  lemma HeadedNone(h: Block, blocks: seq<nat>)
    ensures Headed(h, blocks[..0]) == Erased(h)
  {
  }

  /** A transaction ready to commit: the disk's log is empty, `blocks` are the changed blocks. */
  ghost predicate Ready(g: Geo, d: DiskState, blocks: seq<nat>, v: DiskState) {
    && WellFormed(g, d) && Count(d[Head(g)]) == 0 && v.Keys == d.Keys
    && |blocks| <= LOGSIZE && |blocks| < g.size
    && (forall i :: 0 <= i < |blocks| ==> Loc(g.dev, blocks[i]) in d && !InLog(g, Loc(g.dev, blocks[i])))
    && (forall l :: l in d && !InLog(g, l) && v[l] != d[l] ==> l.dev == g.dev && l.blockno in blocks)
  }

  lemma {:induction false} LoggedAt(g: Geo, d: DiskState, blocks: seq<nat>, v: DiskState, k: nat)
    requires Ready(g, d, blocks, v) && k <= |blocks|
    ensures Logged(g, d, blocks, v, k).Keys == d.Keys
    ensures forall i: nat :: i < k ==> Logged(g, d, blocks, v, k)[Slot(g, i)] == v[Loc(g.dev, blocks[i])]
    ensures forall l :: l in d && (!InLog(g, l) || l == Head(g)) ==> Logged(g, d, blocks, v, k)[l] == d[l]
  {
    if k > 0 {
      LoggedAt(g, d, blocks, v, k - 1);
    }
  }

  /** Log block `i`, counted from behind the header, has the value of block `b`. */
  predicate InSlot(g: Geo, e: DiskState, i: nat, v: DiskState, b: nat) {
    var l, home := Loc(g.dev, g.start + 1 + i), Loc(g.dev, b);
    l in e && home in v && e[l] == v[home]
  }

  lemma LoggedLies(g: Geo, d: DiskState, blocks: seq<nat>, v: DiskState)
    requires Ready(g, d, blocks, v)
    ensures forall i: nat :: i < |blocks| ==> InSlot(g, Logged(g, d, blocks, v, |blocks|), i, v, blocks[i])
  {
    LoggedAt(g, d, blocks, v, |blocks|);
    hide Logged;
    forall i: nat | i < |blocks| ensures InSlot(g, Logged(g, d, blocks, v, |blocks|), i, v, blocks[i]) {
      assert Slot(g, i) in d;
    }
  }

  /** The words of the header block are the count and the block numbers. */
  predicate HeaderOf(h: Block, blocks: seq<nat>) {
    |blocks| < BWORDS && h[0] == |blocks| && forall i :: 0 <= i < |blocks| ==> h[1 + i] == blocks[i]
  }

  lemma HeadedWords(h: Block, blocks: seq<nat>)
    requires |blocks| <= LOGSIZE
    ensures HeaderOf(Headed(h, blocks), blocks)
  {
  }

  /** A crash while the log is being written recovers the state before the transaction. */
  lemma CrashBeforeCommit(g: Geo, d: DiskState, blocks: seq<nat>, v: DiskState, k: nat)
    requires Ready(g, d, blocks, v) && k <= |blocks|
    ensures WellFormed(g, Logged(g, d, blocks, v, k))
    ensures Homes(g, Recover(g, Logged(g, d, blocks, v, k))) == Homes(g, d)
  {
    LoggedAt(g, d, blocks, v, k);
    assert InLog(g, Head(g));
  }

  lemma {:induction false} LoggedAnywhere(g: Geo, d: DiskState, blocks: seq<nat>, v: DiskState, k: nat)
    requires k <= |blocks| && forall b :: b in blocks ==> Loc(g.dev, b) in v
    requires forall i: nat :: i < k ==> Slot(g, i) in d
    ensures Logged(g, d, blocks, v, k).Keys == d.Keys
    ensures forall i: nat :: i < k ==> Logged(g, d, blocks, v, k)[Slot(g, i)] == v[Loc(g.dev, blocks[i])]
    ensures forall l :: l in d && !(l.dev == g.dev && g.start < l.blockno <= g.start + k) ==>
              Logged(g, d, blocks, v, k)[l] == d[l]
  {
    if k > 0 {
      LoggedAnywhere(g, d, blocks, v, k - 1);
    }
  }

  lemma HomesOfEmpty(g: Geo, d: DiskState)
    requires WellFormed(g, d) && Count(d[Head(g)]) == 0
    ensures Homes(g, Recover(g, d)) == Homes(g, d)
  {
    assert InLog(g, Head(g));
  }

  /** With more blocks than slots the log blocks go on behind the end of the log. A crash while they are written
      recovers the state before the transaction if and only if none of them changes what it is written over. */
  lemma OverrunHarmlessIff(g: Geo, d: DiskState, blocks: seq<nat>, v: DiskState, k: nat)
    requires WellFormed(g, d) && Count(d[Head(g)]) == 0 && k <= |blocks|
    requires forall b :: b in blocks ==> Loc(g.dev, b) in v
    requires forall i: nat :: i < k ==> Slot(g, i) in d
    ensures WellFormed(g, Logged(g, d, blocks, v, k))
    ensures Homes(g, Recover(g, Logged(g, d, blocks, v, k))) == Homes(g, d) <==>
            forall i: nat :: g.size - 1 <= i < k ==> v[Loc(g.dev, blocks[i])] == d[Slot(g, i)]
  {
    var e := Logged(g, d, blocks, v, k);
    LoggedAnywhere(g, d, blocks, v, k);
    hide Logged;
    HomesOfEmpty(g, e);
    hide Recover;
    if forall i: nat :: g.size - 1 <= i < k ==> v[Loc(g.dev, blocks[i])] == d[Slot(g, i)] {
      forall l | l in d && !InLog(g, l) ensures e[l] == d[l] {
        if l.dev == g.dev && g.start < l.blockno <= g.start + k {
          assert l == Slot(g, l.blockno - g.start - 1);
        }
      }
      assert Homes(g, e) == Homes(g, d);
    } else {
      var i: nat :| g.size - 1 <= i < k && v[Loc(g.dev, blocks[i])] != d[Slot(g, i)];
      assert Homes(g, e)[Slot(g, i)] != Homes(g, d)[Slot(g, i)];
    }
  }

  /** Disk `e` holds a committed transaction: the log says to give `blocks` their values in `v`. */
  ghost predicate Committed(g: Geo, d: DiskState, blocks: seq<nat>, v: DiskState, e: DiskState) {
    && WellFormed(g, e) && e.Keys == d.Keys && Count(e[Head(g)]) == |blocks|
    && (forall i: nat :: i < |blocks| ==> HomeOf(g, e[Head(g)], i) == Loc(g.dev, blocks[i]))
    && (forall i: nat :: i < |blocks| ==> Loc(g.dev, blocks[i]) in v && e[Slot(g, i)] == v[Loc(g.dev, blocks[i])])
    && (forall l :: l in d && !InLog(g, l) ==> e[l] == d[l])
  }

  lemma {:induction false} InstallValues(g: Geo, d: DiskState, e: DiskState, blocks: seq<nat>, v: DiskState, k: nat, l: Loc)
    requires Committed(g, d, blocks, v, e) && k <= |blocks| && l in d && l in v && !InLog(g, l)
    ensures Install(g, e, k)[l] == if l.dev == g.dev && l.blockno in blocks[..k] then v[l] else d[l]
  {
    if k > 0 {
      assert blocks[..k] == blocks[..k - 1] + [blocks[k - 1]];
      InstallValues(g, d, e, blocks, v, k - 1, l);
    }
  }

  lemma HeadedHomes(g: Geo, h: Block, blocks: seq<nat>)
    requires |blocks| <= LOGSIZE
    ensures Count(Headed(h, blocks)) == |blocks|
    ensures forall i: nat :: i < |blocks| ==> HomeOf(g, Headed(h, blocks), i) == Loc(g.dev, blocks[i])
  {
    forall i: nat | i < |blocks| ensures HomeOf(g, Headed(h, blocks), i) == Loc(g.dev, blocks[i]) {
      assert Headed(h, blocks)[1 + i] == blocks[i];
    }
  }

  lemma HeaderWritten(g: Geo, d: DiskState, e: DiskState, blocks: seq<nat>, v: DiskState)
    requires Ready(g, d, blocks, v)
    requires e == Logged(g, d, blocks, v, |blocks|)[Head(g) := Headed(d[Head(g)], blocks)]
    ensures Committed(g, d, blocks, v, e)
  {
    HeadedHomes(g, d[Head(g)], blocks);
    hide Logged, Headed, HomeOf, Count;
    LoggedAt(g, d, blocks, v, |blocks|);
    assert InLog(g, Head(g));
    assert forall i: nat :: Slot(g, i) != Head(g);
  }

  /** Once the header is on disk, recovery gives the state after the transaction. */
  lemma CommitPoint(g: Geo, d: DiskState, e: DiskState, blocks: seq<nat>, v: DiskState)
    requires Ready(g, d, blocks, v) && Committed(g, d, blocks, v, e)
    ensures Homes(g, Recover(g, e)) == Homes(g, v)
  {
    assert InLog(g, Head(g));
    assert blocks[..|blocks|] == blocks;
    forall l | l in d && !InLog(g, l) ensures Recover(g, e)[l] == v[l] {
      InstallValues(g, d, e, blocks, v, |blocks|, l);
    }
  }

  /** The states the disk goes through while a transaction commits (log.c:192-202). */
  ghost predicate DuringCommit(g: Geo, d: DiskState, blocks: seq<nat>, v: DiskState, e: DiskState, committed: bool)
    requires Ready(g, d, blocks, v)
  {
    if committed then
      var c := Logged(g, d, blocks, v, |blocks|)[Head(g) := Headed(d[Head(g)], blocks)];
      HeaderWritten(g, d, c, blocks, v);
      DuringRecovery(g, c, e)
    else
      exists k: nat :: k <= |blocks| && e == Logged(g, d, blocks, v, k)
  }

  lemma LoggedState(g: Geo, d: DiskState, blocks: seq<nat>, v: DiskState, k: nat)
    requires Ready(g, d, blocks, v) && k <= |blocks|
    ensures DuringCommit(g, d, blocks, v, Logged(g, d, blocks, v, k), false)
  {
  }

  /** The states of a whole commit: those of writing the log, then from `c` on those of finishing it. */
  lemma CommitStates(g: Geo, d: DiskState, blocks: seq<nat>, v: DiskState, t: seq<DiskState>, first: nat, c: nat, last: nat)
    requires Ready(g, d, blocks, v) && first <= c < |t| && last == c + 1
    requires t[c] == Logged(g, d, blocks, v, |blocks|)[Head(g) := Headed(d[Head(g)], blocks)]
    requires forall j :: first <= j < c ==> DuringCommit(g, d, blocks, v, t[j], false)
    requires WellFormed(g, t[c]) && RecoveryStates(g, t[c], t, last)
    ensures forall j :: first <= j < |t| ==> DuringCommit(g, d, blocks, v, t[j], c <= j)
  {
    hide Logged, Headed, Install;
    InstallNone(g, t[c]);
    InstallState(g, t[c], 0);
    forall j | c <= j < |t| ensures DuringCommit(g, d, blocks, v, t[j], true) {
      assert DuringRecovery(g, t[c], t[j]);
    }
  }

  lemma CrashInCommit(g: Geo, d: DiskState, blocks: seq<nat>, v: DiskState, e: DiskState, committed: bool)
    requires Ready(g, d, blocks, v) && DuringCommit(g, d, blocks, v, e, committed)
    ensures WellFormed(g, e) && Homes(g, Recover(g, e)) == Homes(g, if committed then v else d)
  {
    if committed {
      var c := Logged(g, d, blocks, v, |blocks|)[Head(g) := Headed(d[Head(g)], blocks)];
      HeaderWritten(g, d, c, blocks, v);
      CommitPoint(g, d, c, blocks, v);
      RecoverAfterCrash(g, c, e);
    } else {
      var k: nat :| k <= |blocks| && e == Logged(g, d, blocks, v, k);
      CrashBeforeCommit(g, d, blocks, v, k);
    }
  }

  /** Crash atomicity: stop anywhere in commit, crash any number of times during recovery; the recovery
      that completes yields exactly the old file system, or exactly the new one if and only if the
      header had been written. */
  lemma CrashAtomicity(g: Geo, d: DiskState, blocks: seq<nat>, v: DiskState, run: seq<DiskState>, committed: bool)
    requires Ready(g, d, blocks, v)
    requires |run| > 0 && DuringCommit(g, d, blocks, v, run[0], committed) && CrashRun(g, run)
    ensures Homes(g, Recover(g, run[|run| - 1])) == Homes(g, if committed then v else d)
  {
    RecoverAfterCrashes(g, run);
    CrashInCommit(g, d, blocks, v, run[0], committed);
  }
}
