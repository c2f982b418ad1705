/**
 * User page tables (vm.c) over the page frames of kalloc.c. Frames are numbered; a page
 * directory holds 512 page tables for the user half of the address space and the frames of the
 * tables for the kernel half, which are all alike and not looked into.
 */
module Vm {
  import opened Seqs

  const PGSIZE: nat := 4096
  const NPTENTRIES: nat := 1024
  const USERTABLES: nat := 512                  // below KERNBASE
  const USERPAGES: nat := USERTABLES * NPTENTRIES
  const KERNBASE: nat := USERPAGES * PGSIZE

  type Page = seq<nat>

  function Filled(x: nat): (p: Page)
    ensures |p| == PGSIZE && forall i :: 0 <= i < PGSIZE ==> p[i] == x
  {
    seq(PGSIZE, i requires 0 <= i < PGSIZE => x)
  }

  /** A page table entry: absent, or a frame with the rest of its flags. */
  datatype Pte = Absent | Pte(frame: nat, flags: nat)

  datatype Table = NoTable | Table(frame: nat, entries: seq<Pte>)

  // ----- Frames (kalloc.c) -----

  predicate Distinct(free: seq<nat>) {
    forall i, j :: 0 <= i < j < |free| ==> free[i] != free[j]
  }

  function Content(bytes: map<nat, Page>, f: nat): (p: Page) {
    if f in bytes then bytes[f] else Filled(0)
  }

  class Kmem {
    var free: seq<nat>
    var bytes: map<nat, Page>

    constructor (frames: seq<nat>)
      requires Distinct(frames)
      ensures free == frames
    {
      free, bytes := frames, map[];
    }

    /** kalloc.c:84-96 */
    method Kalloc() returns (ok: bool, f: nat)
      requires Distinct(free)
      modifies this`free
      ensures Distinct(free) && ok == (old(free) != [])
      ensures ok ==> old(free) == [f] + free && f !in free
      ensures !ok ==> free == []
    {
      if free == [] {
        return false, 0;
      }
      ok, f := true, free[0];
      free := free[1..];
    }

    /** kalloc.c:61-78 */
    method Kfree(f: nat)
      requires Distinct(free) && f !in free
      modifies this
      ensures Distinct(free) && free == [f] + old(free)
      ensures bytes == old(bytes)[f := Filled(1)]
    {
      bytes := bytes[f := Filled(1)];
      free := [f] + free;
    }
  }

  // ----- Entries -----

  predicate TableOk(t: Table) {
    t.Table? ==> |t.entries| == NPTENTRIES
  }

  predicate TablesOk(user: seq<Table>) {
    |user| == USERTABLES && forall i :: 0 <= i < |user| ==> TableOk(user[i])
  }

  /** The entry for a user page. */
  function Entry(user: seq<Table>, v: nat): (e: Pte)
    requires TablesOk(user) && v < USERPAGES
  {
    if user[v / NPTENTRIES].NoTable? then Absent else user[v / NPTENTRIES].entries[v % NPTENTRIES]
  }

  function SetEntry(user: seq<Table>, v: nat, e: Pte): (u: seq<Table>)
    requires TablesOk(user) && v < USERPAGES && user[v / NPTENTRIES].Table?
    ensures TablesOk(u)
    ensures forall w: nat :: w < USERPAGES ==> Entry(u, w) == if w == v then e else Entry(user, w)
    ensures forall i :: 0 <= i < USERTABLES ==>
              u[i].Table? == user[i].Table? && (u[i].Table? ==> u[i].frame == user[i].frame)
  {
    var t := user[v / NPTENTRIES];
    user[v / NPTENTRIES := Table(t.frame, t.entries[v % NPTENTRIES := e])]
  }

  /** Entry `j` of table `i`. */
  predicate EntryIn(user: seq<Table>, i: nat, j: nat, e: Pte) {
    i < |user| && user[i].Table? && j < |user[i].entries| && user[i].entries[j] == e
  }

  lemma EntryLies(user: seq<Table>, v: nat)
    requires TablesOk(user) && v < USERPAGES && user[v / NPTENTRIES].Table?
    ensures EntryIn(user, v / 1024, v % 1024, Entry(user, v))
  {
  }

  lemma TableThere(user: seq<Table>, v: nat)
    requires TablesOk(user) && v < USERPAGES && Entry(user, v).Pte?
    ensures user[v / NPTENTRIES].Table?
  {
  }

  datatype Owner = Self | Kernel(k: nat) | TableOf(i: nat) | DataOf(v: nat)

  predicate EntryOk(user: seq<Table>, owner: map<nat, Owner>, v: nat)
    requires TablesOk(user) && v < USERPAGES
  {
    Entry(user, v).Pte? ==> Entry(user, v).frame in owner && owner[Entry(user, v).frame] == DataOf(v)
  }

  predicate TableOwned(user: seq<Table>, owner: map<nat, Owner>, i: nat)
    requires i < |user|
  {
    user[i].Table? ==> user[i].frame in owner && owner[user[i].frame] == TableOf(i)
  }

  predicate FrameOk(dir: nat, kernel: seq<nat>, user: seq<Table>, owner: map<nat, Owner>, f: nat)
    requires TablesOk(user) && f in owner
  {
    match owner[f]
    case Self => f == dir
    case Kernel(k) => k < |kernel| && kernel[k] == f
    case TableOf(i) => i < USERTABLES && user[i].Table? && user[i].frame == f
    case DataOf(v) => v < USERPAGES && Entry(user, v).Pte? && Entry(user, v).frame == f
  }

  /** Each frame of a page directory has exactly one use in it, and each use its own frame. */
  ghost predicate Owned(dir: nat, kernel: seq<nat>, user: seq<Table>, owner: map<nat, Owner>) {
    && TablesOk(user)
    && dir in owner && owner[dir] == Self
    && (forall k :: 0 <= k < |kernel| ==> kernel[k] in owner && owner[kernel[k]] == Kernel(k))
    && (forall i: nat :: i < USERTABLES ==> TableOwned(user, owner, i))
    && (forall v: nat :: v < USERPAGES ==> EntryOk(user, owner, v))
    && (forall f: nat :: f in owner ==> FrameOk(dir, kernel, user, owner, f))
  }

  function Frames(free: seq<nat>): (s: set<nat>)
    ensures forall f :: f in s <==> f in free
  {
    set f | f in free
  }

  predicate Apart(free: seq<nat>, owner: map<nat, Owner>) {
    forall f :: f in free ==> f !in owner
  }

  /** The frames that are free or belong to the directory: none is lost and none is made. */
  function Pool(free: seq<nat>, owner: map<nat, Owner>): (p: set<nat>) {
    Frames(free) + owner.Keys
  }

  function PagesFor(sz: nat): (n: nat)
    ensures (n - 1) * 4096 < sz || n == 0
    ensures sz <= n * 4096
  {
    (sz + PGSIZE - 1) / PGSIZE
  }

  // ----- Shrinking -----

  /** The same tables, with the entries from `lo` up to `hi` cleared. */
  ghost predicate Cleared(user: seq<Table>, user': seq<Table>, lo: nat, hi: nat) {
    && TablesOk(user) && TablesOk(user')
    && (forall i :: 0 <= i < USERTABLES ==>
          user'[i].Table? == user[i].Table? && (user'[i].Table? ==> user'[i].frame == user[i].frame))
    && (forall v: nat :: v < USERPAGES ==> Entry(user', v) == if lo <= v < hi then Absent else Entry(user, v))
  }

  /** The frames that a scan of every page from `lo` up to `hi` puts on the free list, last one first. */
  function Scanned(user: seq<Table>, lo: nat, hi: nat): (s: seq<nat>)
    requires TablesOk(user) && hi <= USERPAGES
    decreases hi
  {
    if hi <= lo then []
    else (if Entry(user, hi - 1).Pte? then [Entry(user, hi - 1).frame] else []) + Scanned(user, lo, hi - 1)
  }

  /** A stretch without entries adds nothing to the scan. */
  lemma {:induction false} ScanSkips(user: seq<Table>, lo: nat, mid: nat, hi: nat)
    requires TablesOk(user) && lo <= mid <= hi <= USERPAGES
    requires forall v: nat :: mid <= v < hi ==> Entry(user, v).Absent?
    ensures Scanned(user, lo, hi) == Scanned(user, lo, mid)
    decreases hi
  {
    hide Entry;
    if mid < hi {
      ScanSkips(user, lo, mid, hi - 1);
      assert Entry(user, hi - 1).Absent?;
    }
  }

  lemma NoTableNoEntries(user: seq<Table>, i: nat)
    requires TablesOk(user) && i < USERTABLES && user[i].NoTable?
    ensures forall v: nat :: i * NPTENTRIES <= v < (i + 1) * NPTENTRIES ==> Entry(user, v).Absent?
  {
  }

  /** Clearing an entry gives its frame back. */
  lemma ClearOwned(dir: nat, kernel: seq<nat>, user: seq<Table>, owner: map<nat, Owner>, v: nat)
    requires Owned(dir, kernel, user, owner) && v < USERPAGES && Entry(user, v).Pte?
    ensures
      var f := Entry(user, v).frame;
      user[v / NPTENTRIES].Table? && f in owner && Owned(dir, kernel, SetEntry(user, v, Absent), owner - {f})
  {
    var f, user', owner' := Entry(user, v).frame, SetEntry(user, v, Absent), owner - {Entry(user, v).frame};
    assert EntryOk(user, owner, v);
    hide SetEntry, Entry;
    forall i: nat | i < USERTABLES ensures TableOwned(user', owner', i) {
      assert TableOwned(user, owner, i);
    }
    forall w: nat | w < USERPAGES ensures EntryOk(user', owner', w) {
      assert EntryOk(user, owner, w);
    }
    forall g: nat | g in owner' ensures FrameOk(dir, kernel, user', owner', g) {
      assert FrameOk(dir, kernel, user, owner, g);
    }
  }

  lemma ClearedMore(u0: seq<Table>, u1: seq<Table>, u2: seq<Table>, lo: nat, n: nat)
    requires Cleared(u0, u1, lo, n) && Cleared(u1, u2, n, n + 1) && lo <= n
    ensures Cleared(u0, u2, lo, n + 1)
  {
    hide Entry;
  }

  /** Where no table or no entry is, the scan has nothing to do. */
  lemma NothingThere(u0: seq<Table>, u1: seq<Table>, lo: nat, n: nat, m: nat)
    requires Cleared(u0, u1, lo, n) && lo <= n <= m <= USERPAGES
    requires forall v: nat :: n <= v < m ==> Entry(u1, v).Absent?
    ensures Cleared(u0, u1, lo, m) && Scanned(u0, lo, m) == Scanned(u0, lo, n)
  {
    hide Entry, Scanned;
    forall v: nat | n <= v < m ensures Entry(u0, v).Absent? {
      assert Entry(u1, v).Absent?;
    }
    ScanSkips(u0, lo, n, m);
  }

  /** What a step of the scan does to the frames: they move from the directory to the free list. */
  ghost predicate Given(free: seq<nat>, bytes: map<nat, Page>, owner: map<nat, Owner>,
                        free': seq<nat>, bytes': map<nat, Page>, owner': map<nat, Owner>) {
    && Distinct(free') && Apart(free', owner') && Pool(free', owner') == Pool(free, owner)
    && (forall f :: f in owner' ==> f in owner && owner'[f] == owner[f]) && (forall f :: f in free ==> f in free')
    && forall f :: f !in free' ==> Content(bytes', f) == Content(bytes, f)
  }

  lemma GivenTwice(free: seq<nat>, bytes: map<nat, Page>, owner: map<nat, Owner>,
                   free1: seq<nat>, bytes1: map<nat, Page>, owner1: map<nat, Owner>,
                   free2: seq<nat>, bytes2: map<nat, Page>, owner2: map<nat, Owner>)
    requires Given(free, bytes, owner, free1, bytes1, owner1) && Given(free1, bytes1, owner1, free2, bytes2, owner2)
    ensures Given(free, bytes, owner, free2, bytes2, owner2)
  {
    hide Content, Pool, Distinct, Apart;
    forall f | f !in free2 ensures Content(bytes2, f) == Content(bytes, f) {
      assert f !in free1;
    }
  }

  lemma NothingScanned(u: seq<Table>, lo: nat)
    requires TablesOk(u)
    ensures Cleared(u, u, lo, lo) && (lo <= USERPAGES ==> Scanned(u, lo, lo) == [])
  {
  }

  lemma Indices(a: nat, n: nat)
    requires a == n * PGSIZE && n < USERPAGES
    ensures a / PGSIZE == n && a / PGSIZE / NPTENTRIES == n / NPTENTRIES < USERTABLES
    ensures n / NPTENTRIES * NPTENTRIES <= n < (n / NPTENTRIES + 1) * NPTENTRIES <= USERPAGES
  {
  }

  lemma Rounds(small: nat, large: nat)
    requires small <= large
    ensures PagesFor(small) <= PagesFor(large) && (large < KERNBASE ==> PagesFor(large) <= USERPAGES)
  {
  }

  lemma Within(sz: nat, n: nat)
    requires n * PGSIZE < sz
    ensures n < PagesFor(sz)
  {
  }

  lemma OneScanned(u: seq<Table>, lo: nat, n: nat)
    requires TablesOk(u) && lo <= n < USERPAGES
    ensures Entry(u, n).Pte? ==> Scanned(u, lo, n + 1) == [Entry(u, n).frame] + Scanned(u, lo, n)
  {
  }

  // ----- Growing -----

  const WRITABLE_USER: nat := 6      // PTE_W | PTE_U

  ghost predicate SameEntries(u0: seq<Table>, u: seq<Table>) {
    TablesOk(u0) && TablesOk(u) && forall v: nat :: v < USERPAGES ==> Entry(u, v) == Entry(u0, v)
  }

  /** An entry for a page of zeros in a frame that was free. */
  predicate ZeroPage(e: Pte, free0: seq<nat>, bytes: map<nat, Page>) {
    e.Pte? && e.flags == WRITABLE_USER && e.frame in free0 && Content(bytes, e.frame) == Filled(0)
  }

  /** The pages from `lo` up to `n` are new pages of zeros, the others as they were. */
  ghost predicate Grown(u0: seq<Table>, u: seq<Table>, lo: nat, n: nat, free0: seq<nat>, bytes: map<nat, Page>) {
    && TablesOk(u0) && TablesOk(u)
    && forall v: nat :: v < USERPAGES ==>
         if lo <= v < n then ZeroPage(Entry(u, v), free0, bytes) else Entry(u, v) == Entry(u0, v)
  }

  /** Frames only move from the free list to the directory. */
  ghost predicate Took(free: seq<nat>, bytes: map<nat, Page>, owner: map<nat, Owner>,
                       free': seq<nat>, bytes': map<nat, Page>, owner': map<nat, Owner>) {
    && Distinct(free') && Apart(free', owner') && Pool(free', owner') == Pool(free, owner)
    && (forall f :: f in owner ==> f in owner' && owner'[f] == owner[f]) && (forall f :: f in free' ==> f in free)
    && forall f :: f !in free ==> Content(bytes', f) == Content(bytes, f)
  }

  /** However it ended: no frame is lost, and only frames that were free have been written to. */
  ghost predicate Settled(free: seq<nat>, bytes: map<nat, Page>, owner: map<nat, Owner>,
                          free': seq<nat>, bytes': map<nat, Page>, owner': map<nat, Owner>) {
    && Distinct(free') && Apart(free', owner') && Pool(free', owner') == Pool(free, owner)
    && forall f :: f !in free ==> Content(bytes', f) == Content(bytes, f)
  }

  /** Giving up after taking frames, with the frames `mems` still to be freed. */
  lemma GaveUp(free0: seq<nat>, bytes0: map<nat, Page>, o0: map<nat, Owner>,
               free1: seq<nat>, bytes1: map<nat, Page>, o1: map<nat, Owner>,
               free2: seq<nat>, bytes2: map<nat, Page>,
               free3: seq<nat>, bytes3: map<nat, Page>, o3: map<nat, Owner>, mems: set<nat>)
    requires Took(free0, bytes0, o0, free1, bytes1, o1) && Given(free2, bytes2, o1, free3, bytes3, o3)
    requires Pool(free2, o1) + mems == Pool(free1, o1) && mems !! Pool(free2, o1)
    requires forall f :: f in mems ==> f in free1
    requires forall f :: f !in free1 ==> Content(bytes2, f) == Content(bytes1, f)
    requires forall f :: f in o0 ==> f in o3
    ensures Pool(free3, o3) + mems == Pool(free0, o0) && mems !! Pool(free3, o3)
    ensures forall f :: f in mems ==> f in free0
    ensures forall f :: f !in free0 ==> Content(bytes3, f) == Content(bytes0, f)
  {
    forall f | f in free3 ensures f in free0 {
      assert f in Pool(free3, o3) && f in Pool(free0, o0);
    }
  }

  lemma FreedLast(free0: seq<nat>, bytes0: map<nat, Page>, o0: map<nat, Owner>,
                  free3: seq<nat>, bytes3: map<nat, Page>, o3: map<nat, Owner>, mem: nat)
    requires Pool(free3, o3) + {mem} == Pool(free0, o0) && mem !in Pool(free3, o3) && mem in free0
    requires Distinct(free3) && Apart(free3, o3)
    requires forall f :: f !in free0 ==> Content(bytes3, f) == Content(bytes0, f)
    ensures Settled(free0, bytes0, o0, [mem] + free3, bytes3[mem := Filled(1)], o3)
  {
  }

  // ----- How many frames it takes -----

  /** The frames that adding page `v` takes: one for the page and one for its table if there is none. */
  function Cost(user: seq<Table>, v: nat): (n: nat)
    requires |user| == USERTABLES && v < USERPAGES
  {
    if user[v / NPTENTRIES].NoTable? then 2 else 1
  }

  /** How many of the tables from `i` up to `j` are missing. */
  function Missing(user: seq<Table>, i: nat, j: nat): (n: nat)
    requires |user| == USERTABLES && j <= USERTABLES
    decreases j - i
  {
    if i >= j then 0 else (if user[i].NoTable? then 1 else 0) + Missing(user, i + 1, j)
  }

  /** The frames that adding the pages from `n` up to `hi` takes: the pages, and the tables that are missing. */
  function Need(user: seq<Table>, n: nat, hi: nat): (k: nat)
    requires |user| == USERTABLES && hi <= USERPAGES
  {
    if n >= hi then 0 else hi - n + Missing(user, n / NPTENTRIES, (hi - 1) / NPTENTRIES + 1)
  }

  /** The tables are those there were and the one for page `v`. */
  predicate TableAdded(u0: seq<Table>, u: seq<Table>, v: nat) {
    |u0| == |u| && forall i :: 0 <= i < |u| ==> (u[i].Table? <==> u0[i].Table? || i == v / NPTENTRIES)
  }

  lemma {:induction false} MissingSame(u0: seq<Table>, u: seq<Table>, i: nat, j: nat)
    requires |u0| == |u| == USERTABLES && j <= USERTABLES && forall k :: i <= k < j ==> u[k].Table? == u0[k].Table?
    ensures Missing(u, i, j) == Missing(u0, i, j)
    decreases j - i
  {
    if i < j {
      MissingSame(u0, u, i + 1, j);
    }
  }

  lemma NextIndex(n: nat, hi: nat)
    requires n < hi <= USERPAGES
    ensures n / NPTENTRIES <= (hi - 1) / NPTENTRIES < USERTABLES
    ensures n / NPTENTRIES <= (n + 1) / NPTENTRIES <= n / NPTENTRIES + 1
  {
  }

  /** Adding a page takes its cost off what is needed. */
  lemma NeedStep(u0: seq<Table>, u: seq<Table>, n: nat, hi: nat)
    requires |u0| == |u| == USERTABLES && TableAdded(u0, u, n) && n < hi <= USERPAGES
    ensures Need(u0, n, hi) == Cost(u0, n) + Need(u, n + 1, hi)
  {
    NextIndex(n, hi);
    var t, e := n / NPTENTRIES, (hi - 1) / NPTENTRIES + 1;
    MissingSame(u0, u, t + 1, e);
    assert Missing(u0, t, e) == (if u0[t].NoTable? then 1 else 0) + Missing(u0, t + 1, e);
    assert Missing(u, t, e) == Missing(u, t + 1, e);
    if n + 1 == hi {
      assert e == t + 1;
    }
  }

  lemma NeedsCost(u: seq<Table>, n: nat, hi: nat)
    requires |u| == USERTABLES && n < hi <= USERPAGES
    ensures Cost(u, n) <= Need(u, n, hi)
  {
    NextIndex(n, hi);
  }

  lemma NeedNone(u: seq<Table>, n: nat, hi: nat)
    requires |u| == USERTABLES && hi <= n && hi <= USERPAGES
    ensures Need(u, n, hi) == 0
  {
  }

  lemma IsAdded(u0: seq<Table>, u: seq<Table>, v: nat)
    requires TableAdded(u0, u, v)
    ensures |u0| == |u|
  {
  }

  lemma NothingGrown(dir: nat, kernel: seq<nat>, u: seq<Table>, o: map<nat, Owner>, lo: nat, free: seq<nat>, bytes: map<nat, Page>)
    requires Owned(dir, kernel, u, o) && Distinct(free) && Apart(free, o)
    ensures |u| == USERTABLES && Grown(u, u, lo, lo, free, bytes) && SameEntries(u, u)
    ensures Took(free, bytes, o, free, bytes, o) && Settled(free, bytes, o, free, bytes, o)
  {
  }

  lemma GrownNone(u: seq<Table>, lo: nat, hi: nat, free: seq<nat>, bytes: map<nat, Page>)
    requires hi <= lo && Grown(u, u, lo, lo, free, bytes)
    ensures Grown(u, u, lo, hi, free, bytes)
  {
  }

  lemma TookSettled(free: seq<nat>, bytes: map<nat, Page>, owner: map<nat, Owner>,
                    free1: seq<nat>, bytes1: map<nat, Page>, owner1: map<nat, Owner>)
    requires Took(free, bytes, owner, free1, bytes1, owner1)
    ensures Settled(free, bytes, owner, free1, bytes1, owner1)
  {
  }

  function TablesFor(pages: nat): (n: nat) {
    (pages + NPTENTRIES - 1) / NPTENTRIES
  }

  lemma {:induction false} AllMissing(u: seq<Table>, i: nat, j: nat)
    requires |u| == USERTABLES && i <= j <= USERTABLES && forall k :: 0 <= k < |u| ==> u[k].NoTable?
    ensures Missing(u, i, j) == j - i
    decreases j - i
  {
    if i < j {
      AllMissing(u, i + 1, j);
    }
  }

  /** A directory without tables needs one for each 1024 pages. */
  lemma NeedAll(u: seq<Table>, pages: nat)
    requires |u| == USERTABLES && pages <= USERPAGES && forall k :: 0 <= k < |u| ==> u[k].NoTable?
    ensures Need(u, 0, pages) == pages + TablesFor(pages)
  {
    if pages > 0 {
      NextIndex(0, pages);
      AllMissing(u, 0, (pages - 1) / NPTENTRIES + 1);
    }
  }

  lemma NewTableOwned(dir: nat, kernel: seq<nat>, user: seq<Table>, owner: map<nat, Owner>, i: nat, f: nat)
    requires Owned(dir, kernel, user, owner) && i < USERTABLES && user[i].NoTable? && f !in owner
    ensures
      var user' := user[i := Table(f, seq(NPTENTRIES, j requires 0 <= j => Absent))];
      SameEntries(user, user') && Owned(dir, kernel, user', owner[f := TableOf(i)])
  {
    var user' := user[i := Table(f, seq(NPTENTRIES, j requires 0 <= j => Absent))];
    var owner' := owner[f := TableOf(i)];
    assert SameEntries(user, user');
    hide Entry;
    forall k: nat | k < USERTABLES ensures TableOwned(user', owner', k) {
      assert TableOwned(user, owner, k);
    }
    forall w: nat | w < USERPAGES ensures EntryOk(user', owner', w) {
      assert EntryOk(user, owner, w);
    }
    forall g: nat | g in owner' ensures FrameOk(dir, kernel, user', owner', g) {
      if g != f {
        assert FrameOk(dir, kernel, user, owner, g);
      }
    }
  }

  lemma SetOwned(dir: nat, kernel: seq<nat>, user: seq<Table>, owner: map<nat, Owner>, v: nat, f: nat, flags: nat)
    requires Owned(dir, kernel, user, owner) && v < USERPAGES && f !in owner
    requires user[v / NPTENTRIES].Table? && Entry(user, v).Absent?
    ensures Owned(dir, kernel, SetEntry(user, v, Pte(f, flags)), owner[f := DataOf(v)])
  {
    var user', owner' := SetEntry(user, v, Pte(f, flags)), owner[f := DataOf(v)];
    hide SetEntry, Entry;
    forall i: nat | i < USERTABLES ensures TableOwned(user', owner', i) {
      assert TableOwned(user, owner, i);
    }
    forall w: nat | w < USERPAGES ensures EntryOk(user', owner', w) {
      assert EntryOk(user, owner, w);
    }
    forall g: nat | g in owner' ensures FrameOk(dir, kernel, user', owner', g) {
      if g != f {
        assert FrameOk(dir, kernel, user, owner, g);
      }
    }
  }

  /** How adding a page ends: no frame for it, no frame for its table, or with the page in place. */
  datatype Added = NoFrame | NoTableFrame(mem: nat) | Mapped(mem: nat)

  /** Entry `v` is set and nothing else. */
  ghost predicate EntrySet(u0: seq<Table>, u: seq<Table>, v: nat, e: Pte) {
    && TablesOk(u0) && TablesOk(u)
    && forall w: nat :: w < USERPAGES ==> Entry(u, w) == if w == v then e else Entry(u0, w)
  }

  lemma TookTwice(free: seq<nat>, bytes: map<nat, Page>, owner: map<nat, Owner>,
                  free1: seq<nat>, bytes1: map<nat, Page>, owner1: map<nat, Owner>,
                  free2: seq<nat>, bytes2: map<nat, Page>, owner2: map<nat, Owner>)
    requires Took(free, bytes, owner, free1, bytes1, owner1) && Took(free1, bytes1, owner1, free2, bytes2, owner2)
    ensures Took(free, bytes, owner, free2, bytes2, owner2)
  {
    hide Content, Pool, Distinct, Apart;
    forall f | f !in free ensures Content(bytes2, f) == Content(bytes, f) {
      assert f !in free1;
    }
  }

  lemma GrownMore(u0: seq<Table>, u1: seq<Table>, u2: seq<Table>, lo: nat, n: nat, f: nat,
                  free0: seq<nat>, free1: seq<nat>, bytes1: map<nat, Page>, bytes2: map<nat, Page>)
    requires Grown(u0, u1, lo, n, free0, bytes1) && lo <= n < USERPAGES
    requires EntrySet(u1, u2, n, Pte(f, WRITABLE_USER)) && f in free0 && Content(bytes2, f) == Filled(0)
    requires forall g :: g !in free1 ==> Content(bytes2, g) == Content(bytes1, g)
    requires forall v: nat :: v < USERPAGES && Entry(u1, v).Pte? ==> Entry(u1, v).frame !in free1
    ensures Grown(u0, u2, lo, n + 1, free0, bytes2)
  {
    hide Entry, Filled, Content;
  }

  /** Clearing what was added brings the entries back. */
  lemma Restored(u0: seq<Table>, u1: seq<Table>, u2: seq<Table>, lo: nat, n: nat, hi: nat, free0: seq<nat>, bytes: map<nat, Page>)
    requires Grown(u0, u1, lo, n, free0, bytes) && Cleared(u1, u2, lo, hi) && lo <= n <= hi <= USERPAGES
    requires forall v: nat :: lo <= v < hi ==> Entry(u0, v).Absent?
    ensures SameEntries(u0, u2)
  {
    hide Entry;
  }

  /** A directory with the entries it had has the frames it had, and at most page tables more. */
  lemma OnlyTables(dir: nat, kernel: seq<nat>, u0: seq<Table>, o0: map<nat, Owner>,
                   u1: seq<Table>, o1: map<nat, Owner>, u2: seq<Table>, o2: map<nat, Owner>, lo: nat, hi: nat)
    requires Owned(dir, kernel, u0, o0) && Owned(dir, kernel, u1, o1) && Owned(dir, kernel, u2, o2)
    requires SameEntries(u0, u2) && Cleared(u1, u2, lo, hi)
    requires forall f :: f in o0 ==> f in o1 && o1[f] == o0[f]
    ensures forall f :: f in o0 ==> f in o2 && o2[f] == o0[f]
    ensures forall f :: f in o2 && f !in o0 ==> o2[f].TableOf?
  {
    hide Entry;
    forall f | f in o0 ensures f in o2 && o2[f] == o0[f] {
      assert FrameOk(dir, kernel, u0, o0, f) && FrameOk(dir, kernel, u1, o1, f);
      match o0[f]
      case Self =>
      case Kernel(k) =>
      case TableOf(i) => assert TableOwned(u2, o2, i);
      case DataOf(v) => assert EntryOk(u2, o2, v);
    }
    forall f | f in o2 && !o2[f].TableOf? ensures f in o0 {
      assert FrameOk(dir, kernel, u2, o2, f);
      if o2[f].DataOf? {
        assert EntryOk(u0, o0, o2[f].v);
      }
    }
  }

  lemma NoEntryFree(dir: nat, kernel: seq<nat>, user: seq<Table>, owner: map<nat, Owner>, free: seq<nat>)
    requires Owned(dir, kernel, user, owner) && Apart(free, owner)
    ensures forall v: nat :: v < USERPAGES && Entry(user, v).Pte? ==> Entry(user, v).frame !in free
  {
    hide Entry;
    forall v: nat | v < USERPAGES && Entry(user, v).Pte? ensures Entry(user, v).frame !in free {
      assert EntryOk(user, owner, v);
    }
  }

  lemma NotPooled(free: seq<nat>, owner: map<nat, Owner>, r: Added)
    requires r.NoTableFrame? ==> r.mem !in free && r.mem !in owner
    ensures r.NoTableFrame? ==> r.mem !in Pool(free, owner)
  {
  }

  lemma Pooled(free: seq<nat>, owner: map<nat, Owner>)
    ensures forall f :: f in free ==> f in Pool(free, owner)
  {
  }

  // ----- Freeing a whole directory -----

  /** The frames of a directory without the tables below `i` and the kernel tables below `k`. */
  function Left(owner: map<nat, Owner>, i: nat, k: nat): (s: set<nat>) {
    set f | f in owner &&
      (match owner[f]
       case TableOf(j) => i <= j
       case Kernel(j) => k <= j
       case _ => true)
  }

  ghost predicate Freeing(free: seq<nat>, left: set<nat>, pool: set<nat>) {
    Distinct(free) && Frames(free) !! left && Frames(free) + left == pool
  }

  lemma FreeOne(free: seq<nat>, left: set<nat>, pool: set<nat>, f: nat)
    requires Freeing(free, left, pool) && f in left
    ensures f !in free && Freeing([f] + free, left - {f}, pool)
  {
    assert f !in Frames(free);
    assert Frames([f] + free) == Frames(free) + {f};
  }

  lemma IsDistinct(free: seq<nat>, left: set<nat>, pool: set<nat>)
    requires Freeing(free, left, pool)
    ensures Distinct(free)
  {
  }

  lemma Everything()
    ensures PagesFor(0) == 0 && PagesFor(KERNBASE) == USERPAGES
  {
  }

  lemma LeftTable(dir: nat, kernel: seq<nat>, user: seq<Table>, owner: map<nat, Owner>, i: nat)
    requires Owned(dir, kernel, user, owner) && i < USERTABLES
    ensures user[i].NoTable? ==> Left(owner, i + 1, 0) == Left(owner, i, 0)
    ensures user[i].Table? ==> user[i].frame in Left(owner, i, 0) && Left(owner, i + 1, 0) == Left(owner, i, 0) - {user[i].frame}
  {
    hide Entry;
    assert TableOwned(user, owner, i);
    forall f | f in owner && owner[f] == TableOf(i) ensures user[i].Table? && user[i].frame == f {
      assert FrameOk(dir, kernel, user, owner, f);
    }
  }

  lemma LeftKernel(dir: nat, kernel: seq<nat>, user: seq<Table>, owner: map<nat, Owner>, k: nat)
    requires Owned(dir, kernel, user, owner) && k < |kernel|
    ensures kernel[k] in Left(owner, USERTABLES, k)
    ensures Left(owner, USERTABLES, k + 1) == Left(owner, USERTABLES, k) - {kernel[k]}
  {
    hide Entry;
    forall f | f in owner && owner[f] == Kernel(k) ensures kernel[k] == f {
      assert FrameOk(dir, kernel, user, owner, f);
    }
  }

  lemma LeftLast(dir: nat, kernel: seq<nat>, user: seq<Table>, owner: map<nat, Owner>)
    requires Owned(dir, kernel, user, owner) && forall v: nat :: v < USERPAGES ==> Entry(user, v).Absent?
    ensures Left(owner, USERTABLES, |kernel|) == {dir}
  {
    hide Entry;
    forall f | f in Left(owner, USERTABLES, |kernel|) ensures f == dir {
      assert FrameOk(dir, kernel, user, owner, f);
    }
  }

  // ----- A new directory -----

  function NewOwner(dir: nat, kernel: seq<nat>): (o: map<nat, Owner>) {
    if kernel == [] then map[dir := Self]
    else NewOwner(dir, kernel[..|kernel| - 1])[kernel[|kernel| - 1] := Kernel(|kernel| - 1)]
  }

  lemma {:induction false} NewOwnerIs(dir: nat, kernel: seq<nat>)
    requires Distinct(kernel) && dir !in kernel
    ensures NewOwner(dir, kernel).Keys == {dir} + Frames(kernel)
    ensures NewOwner(dir, kernel)[dir] == Self
    ensures forall k :: 0 <= k < |kernel| ==> kernel[k] in NewOwner(dir, kernel) && NewOwner(dir, kernel)[kernel[k]] == Kernel(k)
  {
    if kernel != [] {
      var n := |kernel| - 1;
      NewOwnerIs(dir, kernel[..n]);
      assert kernel == kernel[..n] + [kernel[n]];
      forall k | 0 <= k < |kernel| ensures kernel[k] in NewOwner(dir, kernel) && NewOwner(dir, kernel)[kernel[k]] == Kernel(k) {
        assert k < n ==> kernel[..n][k] == kernel[k];
      }
    }
  }

  lemma NewOwned(dir: nat, kernel: seq<nat>)
    requires Distinct(kernel) && dir !in kernel
    ensures Owned(dir, kernel, seq(USERTABLES, i requires 0 <= i => NoTable), NewOwner(dir, kernel))
  {
    NewOwnerIs(dir, kernel);
    var user, owner := seq(USERTABLES, i requires 0 <= i => NoTable), NewOwner(dir, kernel);
    hide NewOwner;
    forall f: nat | f in owner ensures FrameOk(dir, kernel, user, owner, f) {
      if f != dir {
        var k :| 0 <= k < |kernel| && kernel[k] == f;
      }
    }
  }

  class PageDir {
    const frame: nat
    const kernel: seq<nat>
    var user: seq<Table>
    ghost var owner: map<nat, Owner>

    constructor (f: nat, ks: seq<nat>)
      requires Distinct(ks) && f !in ks
      ensures frame == f && kernel == ks && Valid() && owner == NewOwner(f, ks)
      ensures forall v: nat :: v < USERPAGES ==> TablesOk(user) && Entry(user, v).Absent?
      ensures |user| == USERTABLES && forall i :: 0 <= i < |user| ==> user[i].NoTable?
    {
      frame, kernel := f, ks;
      user := seq(USERTABLES, i requires 0 <= i => NoTable);
      owner := NewOwner(f, ks);
      NewOwned(f, ks);
    }

    ghost predicate Valid()
      reads this
    {
      Owned(frame, kernel, user, owner)
    }

    /** vm.c:269-276 */
    method FreePage(kmem: Kmem, v: nat)
      requires Valid() && Distinct(kmem.free) && Apart(kmem.free, owner) && v < USERPAGES && Entry(user, v).Pte?
      modifies this`user, this`owner, kmem
      ensures Valid() && Distinct(kmem.free) && Apart(kmem.free, owner)
      ensures Cleared(old(user), user, v, v + 1) && EntryIn(user, v / 1024, v % 1024, Absent)
      ensures kmem.free == [Entry(old(user), v).frame] + old(kmem.free)
      ensures kmem.bytes == old(kmem.bytes)[Entry(old(user), v).frame := Filled(1)]
      ensures owner == old(owner) - {Entry(old(user), v).frame}
      ensures Pool(kmem.free, owner) == old(Pool(kmem.free, owner))
    {
      ClearOwned(frame, kernel, user, owner, v);
      hide Owned, Entry, SetEntry, Filled;
      var f := Entry(user, v).frame;
      kmem.Kfree(f);
      TableThere(user, v);
      user := SetEntry(user, v, Absent);
      EntryLies(user, v);
      owner := owner - {f};
    }

    /** One turn of the loop: the entry at `a` is freed, or the rest of an absent table is skipped (vm.c:265-277). */
    method ScanStep(kmem: Kmem, a: nat, ghost n: nat, ghost u0: seq<Table>, ghost lo: nat, ghost hi: nat, ghost base: seq<nat>)
      returns (next: nat, ghost m: nat)
      requires Valid() && Distinct(kmem.free) && Apart(kmem.free, owner)
      requires a == n * PGSIZE && lo <= n < hi <= USERPAGES
      requires Cleared(u0, user, lo, n) && kmem.free == Scanned(u0, lo, n) + base
      modifies this`user, this`owner, kmem
      ensures Valid() && next == m * PGSIZE && n < m <= USERPAGES
      ensures Cleared(u0, user, lo, Min(m, hi)) && kmem.free == Scanned(u0, lo, Min(m, hi)) + base
      ensures Given(old(kmem.free), old(kmem.bytes), old(owner), kmem.free, kmem.bytes, owner)
    {
      hide Owned, Entry, Scanned, Pool;
      Indices(a, n);
      var v, i := a / PGSIZE, a / PGSIZE / NPTENTRIES;
      if user[i].NoTable? {
        NoTableNoEntries(user, i);
        next, m := (i + 1) * NPTENTRIES * PGSIZE - PGSIZE, (i + 1) * NPTENTRIES;
        next := next + PGSIZE;
        NothingThere(u0, user, lo, n, Min(m, hi));
      } else {
        next, m := a + PGSIZE, n + 1;
        OneScanned(u0, lo, n);
        if Entry(user, v).Pte? {
          ghost var u1 := user;
          FreePage(kmem, v);
          ClearedMore(u0, u1, user, lo, n);
        } else {
          NothingThere(u0, user, lo, n, n + 1);
        }
      }
    }

    /** vm.c:256-279 */
    method DeallocUvm(kmem: Kmem, oldsz: nat, newsz: nat) returns (sz: nat)
      requires Valid() && Distinct(kmem.free) && Apart(kmem.free, owner) && oldsz <= KERNBASE
      modifies this`user, this`owner, kmem
      ensures Valid() && sz == if newsz < oldsz then newsz else oldsz
      ensures newsz >= oldsz ==> user == old(user) && owner == old(owner) && kmem.free == old(kmem.free)
      ensures newsz < oldsz ==>
                && Cleared(old(user), user, PagesFor(newsz), PagesFor(oldsz))
                && kmem.free == Scanned(old(user), PagesFor(newsz), PagesFor(oldsz)) + old(kmem.free)
      ensures Given(old(kmem.free), old(kmem.bytes), old(owner), kmem.free, kmem.bytes, owner)
    {
      if newsz >= oldsz {
        return oldsz;
      }
      ghost var lo, hi := PagesFor(newsz), PagesFor(oldsz);
      ghost var u0, base := user, kmem.free;
      var a := PagesFor(newsz) * PGSIZE;
      ghost var n := lo;
      NothingScanned(u0, lo);
      assert lo <= hi <= USERPAGES;
      while a < oldsz
        invariant lo <= n <= USERPAGES && a == n * PGSIZE && Valid()
        invariant Cleared(u0, user, lo, Min(n, hi)) && kmem.free == Scanned(u0, lo, Min(n, hi)) + base
        invariant Given(base, old(kmem.bytes), old(owner), kmem.free, kmem.bytes, owner)
        decreases USERPAGES - n
      {
        hide Owned, Entry, Scanned, Pool, Cleared;
        assert n < hi;
        ghost var free, bytes, own := kmem.free, kmem.bytes, owner;
        a, n := ScanStep(kmem, a, n, u0, lo, hi, base);
        GivenTwice(base, old(kmem.bytes), old(owner), free, bytes, own, kmem.free, kmem.bytes, owner);
      }
      sz := newsz;
    }

    /** The page table for entry `v`, made if there is none (vm.c:36-55). */
    method WalkPgdir(kmem: Kmem, v: nat) returns (ok: bool)
      requires Valid() && Distinct(kmem.free) && Apart(kmem.free, owner) && v < USERPAGES
      modifies this`user, this`owner, kmem
      ensures Valid() && SameEntries(old(user), user) && (ok ==> user[v / NPTENTRIES].Table?)
      ensures ok <==> old(user)[v / NPTENTRIES].Table? || old(kmem.free) != []
      ensures !ok ==> kmem.free == old(kmem.free) && owner == old(owner) && user == old(user)
      ensures ok ==> TableAdded(old(user), user, v) && |kmem.free| == |old(kmem.free)| + 1 - Cost(old(user), v)
      ensures Took(old(kmem.free), old(kmem.bytes), old(owner), kmem.free, kmem.bytes, owner)
      ensures forall f :: f in owner && f !in old(owner) ==> owner[f].TableOf?
    {
      var i := v / NPTENTRIES;
      if user[i].Table? {
        return true;
      }
      var f;
      ok, f := kmem.Kalloc();
      if !ok {
        return;
      }
      NewTableOwned(frame, kernel, user, owner, i, f);
      hide Owned, Entry;
      kmem.bytes := kmem.bytes[f := Filled(0)];
      user := user[i := Table(f, seq(NPTENTRIES, j requires 0 <= j => Absent))];
      owner := owner[f := TableOf(i)];
    }

    /** One page (vm.c:61-80). Mapping a page that is mapped already is a panic. */
    method MapPage(kmem: Kmem, v: nat, f: nat, flags: nat) returns (ok: bool)
      requires Valid() && Distinct(kmem.free) && Apart(kmem.free, owner) && v < USERPAGES
      requires Entry(user, v).Absent? && f !in kmem.free && f !in owner
      modifies this`user, this`owner, kmem
      ensures Valid()
      ensures ok <==> old(user)[v / NPTENTRIES].Table? || old(kmem.free) != []
      ensures !ok ==> user == old(user) && owner == old(owner) && kmem.free == old(kmem.free)
      ensures ok ==> TableAdded(old(user), user, v) && |kmem.free| == |old(kmem.free)| + 1 - Cost(old(user), v)
      ensures ok ==> EntrySet(old(user), user, v, Pte(f, flags)) && EntryIn(user, v / 1024, v % 1024, Pte(f, flags))
      ensures ok ==> f in owner && owner[f] == DataOf(v)
      ensures Distinct(kmem.free) && Apart(kmem.free, owner)
      ensures Pool(kmem.free, owner) == old(Pool(kmem.free, owner)) + if ok then {f} else {}
      ensures forall g :: g in old(owner) ==> g in owner && owner[g] == old(owner)[g]
      ensures forall g :: g in kmem.free ==> g in old(kmem.free)
      ensures forall g :: g !in old(kmem.free) ==> Content(kmem.bytes, g) == Content(old(kmem.bytes), g)
    {
      ok := WalkPgdir(kmem, v);
      if ok {
        SetOwned(frame, kernel, user, owner, v, f, flags);
        hide Owned, Entry, SetEntry;
        user := SetEntry(user, v, Pte(f, flags));
        EntryLies(user, v);
        owner := owner[f := DataOf(v)];
      }
    }

    /** A new frame with the content `page` for page `v` (vm.c:234-241, 332-335). */
    method AddPage(kmem: Kmem, v: nat, page: Page, flags: nat) returns (r: Added)
      requires Valid() && Distinct(kmem.free) && Apart(kmem.free, owner) && v < USERPAGES && Entry(user, v).Absent?
      modifies this`user, this`owner, kmem
      ensures Valid() && Distinct(kmem.free) && Apart(kmem.free, owner)
      ensures forall f :: f !in old(kmem.free) ==> Content(kmem.bytes, f) == Content(old(kmem.bytes), f)
      ensures r.Mapped? <==> Cost(old(user), v) <= |old(kmem.free)|
      ensures r.Mapped? ==> TableAdded(old(user), user, v) && |kmem.free| == |old(kmem.free)| - Cost(old(user), v)
      ensures r.NoFrame? ==> user == old(user) && owner == old(owner) && kmem.free == old(kmem.free) == []
      ensures !r.NoFrame? ==> r.mem in old(kmem.free) && r.mem !in kmem.free && r.mem !in old(owner)
      ensures r.NoTableFrame? ==>
                && SameEntries(old(user), user) && owner == old(owner)
                && Pool(kmem.free, owner) + {r.mem} == old(Pool(kmem.free, owner))
                && (forall f :: f in kmem.free ==> f in old(kmem.free))
      ensures r.Mapped? ==>
                && EntrySet(old(user), user, v, Pte(r.mem, flags)) && Content(kmem.bytes, r.mem) == page
                && Took(old(kmem.free), old(kmem.bytes), old(owner), kmem.free, kmem.bytes, owner)
    {
      assert TablesOk(user);
      hide Owned, Entry, Filled;
      var got, mem := kmem.Kalloc();
      assert got ==> |old(kmem.free)| == 1 + |kmem.free|;
      if !got {
        return NoFrame;
      }
      kmem.bytes := kmem.bytes[mem := page];
      assert mem in old(kmem.free) && Pool(kmem.free, owner) + {mem} == old(Pool(kmem.free, owner));
      var ok := MapPage(kmem, v, mem, flags);
      r := if ok then Mapped(mem) else NoTableFrame(mem);
    }

    /** Nothing is left of the pages that were added since the directory was `u0`, only page tables. */
    ghost predicate Undone(u0: seq<Table>, o0: map<nat, Owner>)
      reads this
    {
      && SameEntries(u0, user)
      && (forall f :: f in o0 ==> f in owner && owner[f] == o0[f])
      && (forall f :: f in owner && f !in o0 ==> owner[f].TableOf?)
    }

    method GiveUp(kmem: Kmem, oldsz: nat, newsz: nat, ghost u0: seq<Table>, ghost o0: map<nat, Owner>,
                  ghost n: nat, ghost free0: seq<nat>, ghost bytes: map<nat, Page>)
      requires Valid() && Distinct(kmem.free) && Apart(kmem.free, owner) && oldsz < newsz < KERNBASE
      requires Owned(frame, kernel, u0, o0) && forall f :: f in o0 ==> f in owner && owner[f] == o0[f]
      requires PagesFor(oldsz) <= n <= PagesFor(newsz) <= USERPAGES && Grown(u0, user, PagesFor(oldsz), n, free0, bytes)
      requires forall v: nat :: PagesFor(oldsz) <= v < PagesFor(newsz) ==> Entry(u0, v).Absent?
      modifies this`user, this`owner, kmem
      ensures Valid() && Undone(u0, o0)
      ensures Given(old(kmem.free), old(kmem.bytes), old(owner), kmem.free, kmem.bytes, owner)
    {
      hide Owned, Entry, Pool, PagesFor, Scanned, Distinct, Apart;
      ghost var u1, o1 := user, owner;
      var _ := DeallocUvm(kmem, newsz, oldsz);
      Restored(u0, u1, user, PagesFor(oldsz), n, PagesFor(newsz), free0, bytes);
      OnlyTables(frame, kernel, u0, o0, u1, o1, user, owner, PagesFor(oldsz), PagesFor(newsz));
    }

    /** One turn of the loop, with what it does when memory runs out (vm.c:233-247). */
    method GrowOne(kmem: Kmem, v: nat, oldsz: nat, newsz: nat, ghost u0: seq<Table>, ghost o0: map<nat, Owner>,
                   ghost free0: seq<nat>, ghost bytes0: map<nat, Page>)
      returns (ok: bool)
      requires Valid() && Owned(frame, kernel, u0, o0) && oldsz < newsz < KERNBASE
      requires PagesFor(oldsz) <= v < PagesFor(newsz) <= USERPAGES
      requires forall w: nat :: PagesFor(oldsz) <= w < PagesFor(newsz) ==> Entry(u0, w).Absent?
      requires Grown(u0, user, PagesFor(oldsz), v, free0, kmem.bytes)
      requires Took(free0, bytes0, o0, kmem.free, kmem.bytes, owner)
      modifies this`user, this`owner, kmem
      ensures Valid()
      ensures ok <==> Cost(old(user), v) <= |old(kmem.free)|
      ensures ok ==> TableAdded(old(user), user, v) && |kmem.free| == |old(kmem.free)| - Cost(old(user), v)
      ensures ok ==> Grown(u0, user, PagesFor(oldsz), v + 1, free0, kmem.bytes)
      ensures ok ==> Took(free0, bytes0, o0, kmem.free, kmem.bytes, owner)
      ensures !ok ==> Undone(u0, o0) && Settled(free0, bytes0, o0, kmem.free, kmem.bytes, owner)
    {
      hide Owned, Entry, Pool, PagesFor, Filled, Content, Distinct, Apart;
      ghost var u1, o1, free1, bytes1 := user, owner, kmem.free, kmem.bytes;
      NoEntryFree(frame, kernel, user, owner, kmem.free);
      var r := AddPage(kmem, v, Filled(0), WRITABLE_USER);
      if r.Mapped? {
        GrownMore(u0, u1, user, PagesFor(oldsz), v, r.mem, free0, free1, bytes1, kmem.bytes);
        TookTwice(free0, bytes0, o0, free1, bytes1, o1, kmem.free, kmem.bytes, owner);
        return true;
      }
      ghost var free2, bytes2 := kmem.free, kmem.bytes;
      ghost var mems := if r.NoTableFrame? then {r.mem} else {};
      ok := false;
      NotPooled(free2, owner, r);
      GiveUp(kmem, oldsz, newsz, u0, o0, v, free0, bytes1);
      GaveUp(free0, bytes0, o0, free1, bytes1, o1, free2, bytes2, kmem.free, kmem.bytes, owner, mems);
      if r.NoTableFrame? {
        FreedLast(free0, bytes0, o0, kmem.free, kmem.bytes, owner, r.mem);
        Pooled(kmem.free, owner);
        kmem.Kfree(r.mem);
      }
    }

    /** The loop of allocuvm (vm.c:232-247). */
    method GrowAll(kmem: Kmem, oldsz: nat, newsz: nat, ghost u0: seq<Table>, ghost o0: map<nat, Owner>,
                   ghost free0: seq<nat>, ghost bytes0: map<nat, Page>)
      returns (done: bool)
      requires Valid() && oldsz <= newsz < KERNBASE && Owned(frame, kernel, u0, o0) && |u0| == |user| == USERTABLES
      requires PagesFor(oldsz) <= PagesFor(newsz) <= USERPAGES
      requires forall v: nat :: PagesFor(oldsz) <= v < PagesFor(newsz) ==> Entry(u0, v).Absent?
      requires user == u0 && owner == o0 && kmem.free == free0 && kmem.bytes == bytes0
      requires Grown(u0, u0, PagesFor(oldsz), PagesFor(oldsz), free0, bytes0) && Took(free0, bytes0, o0, free0, bytes0, o0)
      modifies this`user, this`owner, kmem
      ensures Valid()
      ensures done <==> Need(u0, PagesFor(oldsz), PagesFor(newsz)) <= |free0|
      ensures done ==> Grown(u0, user, PagesFor(oldsz), PagesFor(newsz), free0, kmem.bytes)
      ensures done ==> Took(free0, bytes0, o0, kmem.free, kmem.bytes, owner)
      ensures !done ==> Undone(u0, o0) && Settled(free0, bytes0, o0, kmem.free, kmem.bytes, owner)
    {
      hide Owned, Entry, Pool, Grown, Took, Settled, Need, Cost, TableAdded, Distinct, Apart, PagesFor, SameEntries;
      ghost var n, hi := PagesFor(oldsz), PagesFor(newsz);
      var a := PagesFor(oldsz) * PGSIZE;
      while a < newsz
        invariant PagesFor(oldsz) <= n <= hi && a == n * PGSIZE && Valid() && |user| == USERTABLES
        invariant Grown(u0, user, PagesFor(oldsz), n, free0, kmem.bytes)
        invariant Took(free0, bytes0, o0, kmem.free, kmem.bytes, owner)
        invariant |kmem.free| + Need(u0, PagesFor(oldsz), hi) == |free0| + Need(user, n, hi)
        decreases hi - n
      {
        Within(newsz, n);
        Indices(a, n);
        ghost var u1 := user;
        NeedsCost(u1, n, hi);
        var ok := GrowOne(kmem, a / PGSIZE, oldsz, newsz, u0, o0, free0, bytes0);
        if !ok {
          return false;
        }
        IsAdded(u1, user, n);
        NeedStep(u1, user, n, hi);
        n := n + 1;
        a := a + PGSIZE;
      }
      NeedNone(user, n, hi);
      return true;
    }

    /** vm.c:222-249; a page that is mapped already in the new part is a panic */
    method AllocUvm(kmem: Kmem, oldsz: nat, newsz: nat) returns (done: bool, sz: nat)
      requires Valid() && Distinct(kmem.free) && Apart(kmem.free, owner)
      requires newsz < KERNBASE ==> forall v: nat :: PagesFor(oldsz) <= v < PagesFor(newsz) && v < USERPAGES ==> Entry(user, v).Absent?
      modifies this`user, this`owner, kmem
      ensures Valid() && Settled(old(kmem.free), old(kmem.bytes), old(owner), kmem.free, kmem.bytes, owner)
      ensures sz == if !done then 0 else if newsz < oldsz then oldsz else newsz
      ensures newsz >= 0x8000_0000 ==> !done
      ensures newsz < KERNBASE ==>
                (done <==> Need(old(user), PagesFor(oldsz), PagesFor(newsz)) <= |old(kmem.free)|)
      ensures !done ==> Undone(old(user), old(owner))
      ensures done ==>
                && Grown(old(user), user, PagesFor(oldsz), PagesFor(newsz), old(kmem.free), kmem.bytes)
                && Took(old(kmem.free), old(kmem.bytes), old(owner), kmem.free, kmem.bytes, owner)
    {
      ghost var u0, o0, free0, bytes0 := user, owner, kmem.free, kmem.bytes;
      NothingGrown(frame, kernel, u0, o0, PagesFor(oldsz), free0, bytes0);
      hide Owned, Entry, Pool, Grown, Took, Settled, Need, Cost, TableAdded, Distinct, Apart, SameEntries, PagesFor;
      if newsz >= KERNBASE {
        return false, 0;
      }
      Rounds(newsz, newsz);
      if newsz < oldsz {
        Rounds(newsz, oldsz);
        NeedNone(u0, PagesFor(oldsz), PagesFor(newsz));
        GrownNone(u0, PagesFor(oldsz), PagesFor(newsz), free0, bytes0);
        return true, oldsz;
      }
      Rounds(oldsz, newsz);
      done := GrowAll(kmem, oldsz, newsz, u0, o0, free0, bytes0);
      if done {
        TookSettled(free0, bytes0, o0, kmem.free, kmem.bytes, owner);
      }
      sz := if done then newsz else 0;
    }

    /** All frames of the directory go back to the free list (vm.c:284-298). */
    method FreeVm(kmem: Kmem)
      requires Valid() && Distinct(kmem.free) && Apart(kmem.free, owner)
      modifies this`user, this`owner, kmem
      ensures Distinct(kmem.free) && Frames(kmem.free) == old(Pool(kmem.free, owner))
      ensures forall f :: f !in kmem.free ==> Content(kmem.bytes, f) == Content(old(kmem.bytes), f)
    {
      ghost var pool, bytes0 := Pool(kmem.free, owner), kmem.bytes;
      Everything();
      var _ := DeallocUvm(kmem, KERNBASE, 0);
      assert Freeing(kmem.free, Left(owner, 0, 0), pool);
      FreeTables(kmem, pool, bytes0);
      LeftLast(frame, kernel, user, owner);
      FreeOne(kmem.free, {frame}, pool, frame);
      kmem.Kfree(frame);
    }

    /** vm.c:291-296 */
    method FreeTables(kmem: Kmem, ghost pool: set<nat>, ghost bytes0: map<nat, Page>)
      requires Valid() && Freeing(kmem.free, Left(owner, 0, 0), pool)
      requires forall f :: f !in kmem.free ==> Content(kmem.bytes, f) == Content(bytes0, f)
      modifies kmem
      ensures Freeing(kmem.free, Left(owner, USERTABLES, |kernel|), pool)
      ensures forall f :: f !in kmem.free ==> Content(kmem.bytes, f) == Content(bytes0, f)
    {
      assert |user| == USERTABLES;
      hide Owned, Entry, Left, Freeing, Filled;
      for i := 0 to USERTABLES
        invariant Freeing(kmem.free, Left(owner, i, 0), pool)
        invariant forall f :: f !in kmem.free ==> Content(kmem.bytes, f) == Content(bytes0, f)
      {
        LeftTable(frame, kernel, user, owner, i);
        if user[i].Table? {
          FreeOne(kmem.free, Left(owner, i, 0), pool, user[i].frame);
          IsDistinct(kmem.free, Left(owner, i, 0), pool);
          kmem.Kfree(user[i].frame);
        }
      }
      for k := 0 to |kernel|
        invariant Freeing(kmem.free, Left(owner, USERTABLES, k), pool)
        invariant forall f :: f !in kmem.free ==> Content(kmem.bytes, f) == Content(bytes0, f)
      {
        LeftKernel(frame, kernel, user, owner, k);
        FreeOne(kmem.free, Left(owner, USERTABLES, k), pool, kernel[k]);
        IsDistinct(kmem.free, Left(owner, USERTABLES, k), pool);
        kmem.Kfree(kernel[k]);
      }
    }
  }

  lemma Parts(a: seq<nat>, b: seq<nat>)
    requires Distinct(a + b)
    ensures Distinct(a) && Distinct(b) && forall x :: x in a ==> x !in b
  {
    var s := a + b;
    forall i, j | 0 <= i < j < |a| ensures a[i] != a[j] {
      assert s[i] == a[i] && s[j] == a[j];
    }
    forall i, j | 0 <= i < j < |b| ensures b[i] != b[j] {
      assert s[|a| + i] == b[i] && s[|a| + j] == b[j];
    }
    forall i, j | 0 <= i < |a| && 0 <= j < |b| ensures a[i] != b[j] {
      assert s[i] == a[i] && s[|a| + j] == b[j];
    }
  }

  lemma AllOf(free: seq<nat>, f: nat, ks: seq<nat>, rest: seq<nat>)
    requires Distinct(free) && free == [f] + ks + rest
    ensures Distinct(ks) && f !in ks && Distinct(rest) && Apart(rest, NewOwner(f, ks))
    ensures Pool(rest, NewOwner(f, ks)) == Frames(free)
  {
    hide Distinct, NewOwner, Frames;
    Parts([f] + ks, rest);
    Parts([f], ks);
    assert f in [f] && f in [f] + ks;
    NewOwnerIs(f, ks);
  }

  /** A directory with `count` kernel tables and no user pages, or nothing taken (vm.c:119-136). */
  method SetupKvm(kmem: Kmem, count: nat) returns (d: PageDir?)
    requires Distinct(kmem.free)
    modifies kmem
    ensures Distinct(kmem.free)
    ensures forall f :: f !in old(kmem.free) ==> Content(kmem.bytes, f) == Content(old(kmem.bytes), f)
    ensures d != null <==> 1 + count <= |old(kmem.free)|
    ensures d != null ==> |kmem.free| == |old(kmem.free)| - 1 - count
    ensures d != null ==> |d.user| == USERTABLES && forall i :: 0 <= i < |d.user| ==> d.user[i].NoTable?
    ensures d == null ==> Frames(kmem.free) == Frames(old(kmem.free))
    ensures d != null ==>
              && fresh(d) && d.Valid() && Apart(kmem.free, d.owner)
              && Pool(kmem.free, d.owner) == Frames(old(kmem.free))
              && forall v: nat :: v < USERPAGES ==> TablesOk(d.user) && Entry(d.user, v).Absent?
  {
    ghost var free0 := kmem.free;
    var ok, f := kmem.Kalloc();
    if !ok {
      return null;
    }
    var ks := [];
    while ok && |ks| < count
      invariant free0 == [f] + ks + kmem.free && kmem.bytes == old(kmem.bytes)
      invariant Distinct(kmem.free) && |ks| <= count && (!ok ==> |ks| < count && kmem.free == [])
      decreases count - |ks| + if ok then 1 else 0
    {
      var k;
      ok, k := kmem.Kalloc();
      if ok {
        ks := ks + [k];
      }
    }
    AllOf(free0, f, ks, kmem.free);
    hide Owned, Entry, NewOwner;
    d := new PageDir(f, ks);
    if !ok {
      d.FreeVm(kmem);
      d := null;
    }
  }

  // ----- Copying -----

  /** The child's page has a frame that was free, with the bytes and flags of the parent's page. */
  predicate CopiedPage(e: Pte, e': Pte, free0: seq<nat>, bytes0: map<nat, Page>, bytes: map<nat, Page>) {
    && e.Pte? && e'.Pte? && e'.flags == e.flags && e'.frame in free0
    && Content(bytes, e'.frame) == Content(bytes0, e.frame)
  }

  /** The child has a copy of each of the first `n` pages and no page more. */
  ghost predicate Copied(parent: seq<Table>, child: seq<Table>, n: nat, free0: seq<nat>, bytes0: map<nat, Page>, bytes: map<nat, Page>) {
    && TablesOk(parent) && TablesOk(child)
    && forall v: nat :: v < USERPAGES ==>
         if v < n then CopiedPage(Entry(parent, v), Entry(child, v), free0, bytes0, bytes) else Entry(child, v).Absent?
  }

  lemma CopiedMore(parent: seq<Table>, u1: seq<Table>, u2: seq<Table>, n: nat, f: nat, free0: seq<nat>, free1: seq<nat>,
                   bytes0: map<nat, Page>, bytes1: map<nat, Page>, bytes2: map<nat, Page>)
    requires Copied(parent, u1, n, free0, bytes0, bytes1) && n < USERPAGES && Entry(parent, n).Pte? && f in free0
    requires EntrySet(u1, u2, n, Pte(f, Entry(parent, n).flags)) && Content(bytes2, f) == Content(bytes0, Entry(parent, n).frame)
    requires forall g :: g !in free1 ==> Content(bytes2, g) == Content(bytes1, g)
    requires forall v: nat :: v < USERPAGES && Entry(u1, v).Pte? ==> Entry(u1, v).frame !in free1
    ensures Copied(parent, u2, n + 1, free0, bytes0, bytes2)
  {
    hide Entry, Content;
  }

  /** What copyuvm leaves behind as far as the frames go. */
  ghost predicate Taken(free: seq<nat>, bytes: map<nat, Page>, free': seq<nat>, bytes': map<nat, Page>, owner': map<nat, Owner>) {
    && Distinct(free') && Apart(free', owner') && Pool(free', owner') == Frames(free)
    && forall f :: f !in free ==> Content(bytes', f) == Content(bytes, f)
  }

  /** One turn of the loop (vm.c:325-339). */
  method CopyOne(parent: PageDir, d: PageDir, kmem: Kmem, v: nat, ghost free0: seq<nat>, ghost bytes0: map<nat, Page>) returns (ok: bool)
    requires parent.Valid() && d.Valid() && parent != d && v < USERPAGES && Entry(parent.user, v).Pte?
    requires Apart(free0, parent.owner) && Taken(free0, bytes0, kmem.free, kmem.bytes, d.owner)
    requires Copied(parent.user, d.user, v, free0, bytes0, kmem.bytes)
    modifies d`user, d`owner, kmem
    ensures ok <==> |old(d.user)| == USERTABLES && Cost(old(d.user), v) <= |old(kmem.free)|
    ensures ok ==> TableAdded(old(d.user), d.user, v) && |kmem.free| == |old(kmem.free)| - Cost(old(d.user), v)
    ensures ok ==> d.Valid() && Taken(free0, bytes0, kmem.free, kmem.bytes, d.owner)
    ensures ok ==> Copied(parent.user, d.user, v + 1, free0, bytes0, kmem.bytes)
    ensures !ok ==> Taken(free0, bytes0, kmem.free, kmem.bytes, map[])
  {
    Known(parent, d, kmem, v, free0, bytes0);
    ghost var u1, o1, free1, bytes1 := d.user, d.owner, kmem.free, kmem.bytes;
    hide Owned, Entry, Distinct, Apart, Taken, Pool, Content, Copied, Took, Cost, TableAdded, EntrySet, Filled;
    var e := Entry(parent.user, v);
    var r := d.AddPage(kmem, v, Content(kmem.bytes, e.frame), e.flags);
    if r.Mapped? {
      TakenMore(free0, bytes0, free1, bytes1, o1, kmem.free, kmem.bytes, d.owner);
      CopiedMore(parent.user, u1, d.user, v, r.mem, free0, free1, bytes0, bytes1, kmem.bytes);
      return true;
    }
    if r.NoTableFrame? {
      MemBack(free0, bytes0, free1, bytes1, o1, kmem.free, kmem.bytes, r.mem);
      kmem.Kfree(r.mem);
    } else {
      TakenStill(free0, bytes0, free1, bytes1, o1, kmem.bytes);
    }
    GiveBack(d, kmem, free0, bytes0);
    ok := false;
  }

  lemma Known(parent: PageDir, d: PageDir, kmem: Kmem, v: nat, free0: seq<nat>, bytes0: map<nat, Page>)
    requires parent.Valid() && d.Valid() && v < USERPAGES && Entry(parent.user, v).Pte?
    requires Apart(free0, parent.owner) && Taken(free0, bytes0, kmem.free, kmem.bytes, d.owner)
    requires Copied(parent.user, d.user, v, free0, bytes0, kmem.bytes)
    ensures TablesOk(parent.user) && |d.user| == USERTABLES && Distinct(kmem.free) && Apart(kmem.free, d.owner)
    ensures TablesOk(d.user) && Entry(d.user, v).Absent? && (forall f :: f in kmem.free ==> f in free0)
    ensures Content(kmem.bytes, Entry(parent.user, v).frame) == Content(bytes0, Entry(parent.user, v).frame)
    ensures forall w: nat :: w < USERPAGES && Entry(d.user, w).Pte? ==> Entry(d.user, w).frame !in kmem.free
  {
    hide Entry;
    NoEntryFree(d.frame, d.kernel, d.user, d.owner, kmem.free);
    NoEntryFree(parent.frame, parent.kernel, parent.user, parent.owner, free0);
    assert forall f :: f in kmem.free ==> f in Pool(kmem.free, d.owner);
  }

  lemma TakenMore(free0: seq<nat>, bytes0: map<nat, Page>, free1: seq<nat>, bytes1: map<nat, Page>, o1: map<nat, Owner>,
                  free2: seq<nat>, bytes2: map<nat, Page>, o2: map<nat, Owner>)
    requires Taken(free0, bytes0, free1, bytes1, o1) && Took(free1, bytes1, o1, free2, bytes2, o2)
    ensures Taken(free0, bytes0, free2, bytes2, o2)
  {
    hide Content;
    assert forall f :: f in free1 ==> f in Pool(free1, o1);
  }

  lemma TakenStill(free0: seq<nat>, bytes0: map<nat, Page>, free1: seq<nat>, bytes1: map<nat, Page>, o1: map<nat, Owner>, bytes2: map<nat, Page>)
    requires Taken(free0, bytes0, free1, bytes1, o1) && free1 == []
    requires forall f :: f !in free1 ==> Content(bytes2, f) == Content(bytes1, f)
    ensures Taken(free0, bytes0, free1, bytes2, o1)
  {
    hide Content;
  }

  /** A frame that was taken and is now free again. */
  lemma MemBack(free0: seq<nat>, bytes0: map<nat, Page>, free1: seq<nat>, bytes1: map<nat, Page>, o1: map<nat, Owner>,
                free2: seq<nat>, bytes2: map<nat, Page>, mem: nat)
    requires Taken(free0, bytes0, free1, bytes1, o1) && Distinct(free2) && Apart(free2, o1)
    requires mem in free1 && mem !in free2 && mem !in o1 && Pool(free2, o1) + {mem} == Pool(free1, o1)
    requires forall f :: f !in free1 ==> Content(bytes2, f) == Content(bytes1, f)
    ensures Taken(free0, bytes0, [mem] + free2, bytes2[mem := Filled(1)], o1)
  {
    hide Filled;
    assert forall f :: f in free1 ==> f in Pool(free1, o1);
    assert Pool([mem] + free2, o1) == Pool(free2, o1) + {mem};
  }

  /** vm.c:342-344 */
  method GiveBack(d: PageDir, kmem: Kmem, ghost free0: seq<nat>, ghost bytes0: map<nat, Page>)
    requires d.Valid() && Taken(free0, bytes0, kmem.free, kmem.bytes, d.owner)
    modifies d`user, d`owner, kmem
    ensures Taken(free0, bytes0, kmem.free, kmem.bytes, map[])
  {
    hide Owned, Distinct, Content;
    d.FreeVm(kmem);
    assert Pool(kmem.free, map[]) == Frames(kmem.free);
  }

  /**
   * A directory with copies of the parent's pages in frames of their own, or nothing taken
   * (vm.c:316-345). A page below `sz` that the parent does not have is a panic.
   */
  method CopyUvm(parent: PageDir, kmem: Kmem, sz: nat, count: nat) returns (d: PageDir?)
    requires parent.Valid() && Distinct(kmem.free) && Apart(kmem.free, parent.owner) && sz < KERNBASE
    requires forall v: nat :: v < PagesFor(sz) && v < USERPAGES ==> Entry(parent.user, v).Pte?
    modifies kmem
    ensures d != null <==> 1 + count + PagesFor(sz) + TablesFor(PagesFor(sz)) <= |old(kmem.free)|
    ensures d == null ==> Taken(old(kmem.free), old(kmem.bytes), kmem.free, kmem.bytes, map[])
    ensures d != null ==>
              && fresh(d) && d.Valid()
              && Taken(old(kmem.free), old(kmem.bytes), kmem.free, kmem.bytes, d.owner)
              && Copied(parent.user, d.user, PagesFor(sz), old(kmem.free), old(kmem.bytes), kmem.bytes)
  {
    assert TablesOk(parent.user);
    hide Owned, Entry, Distinct, Need, Cost, TableAdded, TablesFor;
    ghost var free0, bytes0, pages := kmem.free, kmem.bytes, PagesFor(sz);
    Rounds(sz, sz);
    d := SetupKvm(kmem, count);
    if d == null {
      return;
    }
    NeedAll(d.user, pages);
    hide Apart;
    ghost var n := 0;
    var i := 0;
    while i < sz
      invariant d != null && fresh(d) && d.Valid() && i == n * PGSIZE && n <= pages && |d.user| == USERTABLES
      invariant Taken(free0, bytes0, kmem.free, kmem.bytes, d.owner)
      invariant Copied(parent.user, d.user, n, free0, bytes0, kmem.bytes)
      invariant |kmem.free| + 1 + count + pages + TablesFor(pages) == |free0| + Need(d.user, n, pages)
      decreases pages - n
    {
      hide PagesFor, Taken, Copied;
      Within(sz, n);
      Indices(i, n);
      ghost var u1 := d.user;
      NeedsCost(u1, n, pages);
      var ok := CopyOne(parent, d, kmem, i / PGSIZE, free0, bytes0);
      if !ok {
        return null;
      }
      IsAdded(u1, d.user, n);
      NeedStep(u1, d.user, n, pages);
      n := n + 1;
      i := i + PGSIZE;
    }
    NeedNone(d.user, n, pages);
  }
}
