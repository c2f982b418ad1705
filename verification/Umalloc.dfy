/** The user-level memory allocator (umalloc.c). Addresses count header-sized units. */
module Umalloc {
  import opened Seqs

  // ----- Sizes -----

  /** Bytes in a header. */
  const HEADER: nat := 8
  const U32: nat := 0x1_0000_0000
  /** The fewest units asked of sbrk (umalloc.c:52-53). */
  const MINCORE: nat := 4096
  /** The largest request that works. */
  const LIMIT: nat := 0x7fff_fff0

  /** Units for a request, header included, in 32-bit arithmetic (umalloc.c:69). */
  function NUnits(nbytes: nat): (n: nat) {
    (nbytes + HEADER - 1) % U32 / HEADER + 1
  }

  function CoreUnits(nunits: nat): (n: nat) {
    if nunits < MINCORE then MINCORE else nunits
  }

  /** The argument sbrk sees: a 32-bit product taken as a signed number (umalloc.c:54). */
  function SbrkArg(nunits: nat): (x: int) {
    var w := CoreUnits(nunits) * HEADER % U32;
    if w >= U32 / 2 then w - U32 else w
  }

  /** A request gets a large enough block, and sbrk is asked for just that much, exactly up to LIMIT bytes. */
  lemma RequestWorks(nbytes: nat)
    requires nbytes < U32
    ensures (NUnits(nbytes) - 1) * HEADER >= nbytes && SbrkArg(NUnits(nbytes)) == CoreUnits(NUnits(nbytes)) * HEADER
            <==> nbytes <= LIMIT
  {
    var n := NUnits(nbytes);
    if nbytes + HEADER - 1 < U32 {
      assert n == (nbytes + HEADER - 1) / HEADER + 1;
      assert nbytes <= LIMIT <==> n < 0x1000_0000;
    } else {
      assert n == 1;
    }
  }

  /** The block is large enough unless rounding the request up wraps around. */
  lemma Room(nbytes: nat)
    requires nbytes < U32
    ensures (NUnits(nbytes) - 1) * HEADER >= nbytes <==> nbytes + HEADER - 1 < U32
    ensures nbytes + HEADER - 1 < U32 ==> (NUnits(nbytes) - 2) * 8 < nbytes <= (NUnits(nbytes) - 1) * 8
  {
    if nbytes + HEADER - 1 >= U32 {
      assert NUnits(nbytes) == 1;
    }
  }

  /** A request for almost all of the address space gets a block with no room at all. */
  lemma HugeRequestGetsNothing()
    ensures NUnits(U32 - 1) == 1
  {
  }

  /** Half of the address space is too much for sbrk, which is then asked to give memory back. */
  lemma HalfRequestShrinks()
    ensures SbrkArg(NUnits(0x8000_0000)) < 0
  {
  }

  // ----- Blocks -----

  /** The blocks, by the address of their header, with their sizes in units. */
  type Blocks = map<nat, nat>

  ghost predicate Within(blocks: Blocks, h: nat, u: nat) {
    h in blocks && h <= u < h + blocks[h]
  }

  /** The blocks tile the memory in `owner`, which gives each unit the block it is in. */
  ghost predicate Tiles(blocks: Blocks, owner: map<nat, nat>) {
    && (forall h :: h in blocks ==> blocks[h] > 0)
    && (forall u :: u in owner ==> Within(blocks, owner[u], u))
    && (forall h: nat, u: nat :: Within(blocks, h, u) ==> u in owner && owner[u] == h)
  }

  /** Two blocks have no unit in common. */
  lemma Disjoint(blocks: Blocks, owner: map<nat, nat>, g: nat, h: nat)
    requires Tiles(blocks, owner) && g in blocks && h in blocks && g < h
    ensures g + blocks[g] <= h
  {
    if h < g + blocks[g] {
      assert Within(blocks, g, h) && Within(blocks, h, h);
    }
  }

  ghost function Reowned(owner: map<nat, nat>, b: nat, a: nat): (r: map<nat, nat>) {
    map u | u in owner :: if owner[u] == b then a else owner[u]
  }

  ghost function Merged(blocks: Blocks, a: nat, b: nat): (r: Blocks)
    requires a in blocks && b in blocks
  {
    blocks[a := blocks[a] + blocks[b]] - {b}
  }

  /** Two blocks that touch become one. */
  lemma MergeTiles(blocks: Blocks, owner: map<nat, nat>, a: nat, b: nat)
    requires Tiles(blocks, owner) && a in blocks && b in blocks && a + blocks[a] == b
    ensures a != b && Tiles(Merged(blocks, a, b), Reowned(owner, b, a))
  {
    assert Within(blocks, a, a);
    var blocks', owner' := Merged(blocks, a, b), Reowned(owner, b, a);
    forall u | u in owner' ensures Within(blocks', owner'[u], u) {
      assert Within(blocks, owner[u], u);
    }
    forall h: nat, u: nat | Within(blocks', h, u) ensures u in owner' && owner'[u] == h {
      if h == a {
        assert Within(blocks, a, u) || Within(blocks, b, u);
      } else {
        assert Within(blocks, h, u);
      }
    }
  }

  ghost function Split(blocks: Blocks, h: nat, n: nat): (r: Blocks)
    requires h in blocks && 0 < n < blocks[h]
  {
    blocks[h := blocks[h] - n][h + blocks[h] - n := n]
  }

  ghost function SplitOwner(blocks: Blocks, owner: map<nat, nat>, h: nat, n: nat): (r: map<nat, nat>)
    requires h in blocks && 0 < n < blocks[h]
  {
    map u | u in owner :: if owner[u] == h && u >= h + blocks[h] - n then h + blocks[h] - n else owner[u]
  }

  /** The last `n` units of a block become a block of their own. */
  lemma SplitTiles(blocks: Blocks, owner: map<nat, nat>, h: nat, n: nat)
    requires Tiles(blocks, owner) && h in blocks && 0 < n < blocks[h]
    ensures h + blocks[h] - n !in blocks
    ensures Tiles(Split(blocks, h, n), SplitOwner(blocks, owner, h, n))
  {
    var t := h + blocks[h] - n;
    if t in blocks {
      assert Within(blocks, h, t) && Within(blocks, t, t);
    }
    var blocks', owner' := Split(blocks, h, n), SplitOwner(blocks, owner, h, n);
    forall u | u in owner' ensures Within(blocks', owner'[u], u) {
      assert Within(blocks, owner[u], u);
    }
    forall g: nat, u: nat | Within(blocks', g, u) ensures u in owner' && owner'[u] == g {
      if g == h || g == t {
        assert Within(blocks, h, u);
      } else {
        assert Within(blocks, g, u);
      }
    }
  }

  ghost predicate Unused(owner: map<nat, nat>, h: nat, n: nat) {
    forall u: nat :: h <= u < h + n ==> u !in owner
  }

  ghost predicate InSpan(h: nat, n: nat, u: nat) {
    h <= u < h + n
  }

  ghost function Grown(owner: map<nat, nat>, h: nat, n: nat): (r: map<nat, nat>) {
    owner + map u: nat | h <= u < h + n && InSpan(h, n, u) :: h
  }

  /** New memory is one more block. */
  lemma GrowTiles(blocks: Blocks, owner: map<nat, nat>, h: nat, n: nat)
    requires Tiles(blocks, owner) && n > 0 && Unused(owner, h, n)
    ensures h !in blocks && Tiles(blocks[h := n], Grown(owner, h, n))
  {
    if h in blocks {
      assert Within(blocks, h, h);
    }
    var blocks', owner' := blocks[h := n], Grown(owner, h, n);
    forall u | u in owner' ensures Within(blocks', owner'[u], u) {
      if u in owner {
        assert Within(blocks, owner[u], u);
      }
    }
    forall g: nat, u: nat | Within(blocks', g, u) ensures u in owner' && owner'[u] == g {
      if g != h {
        assert Within(blocks, g, u);
      } else {
        assert InSpan(h, n, u);
      }
    }
  }

  // ----- The free list -----

  ghost predicate RingAt(ptr: map<nat, nat>, free: seq<nat>, k: nat) {
    k < |free| && free[k] in ptr && ptr[free[k]] == free[if k + 1 < |free| then k + 1 else 0]
  }

  ghost predicate Ring(ptr: map<nat, nat>, free: seq<nat>) {
    forall k: nat :: k < |free| ==> RingAt(ptr, free, k)
  }

  /** Block `k` of the list ends before the next one starts, or at its start if `k` is `t`. */
  ghost predicate GapAt(size: map<nat, nat>, free: seq<nat>, t: nat, k: nat) {
    && k + 1 < |free| && free[k] in size
    && (if k == t then free[k] + size[free[k]] <= free[k + 1] else free[k] + size[free[k]] < free[k + 1])
  }

  ghost predicate Gaps(size: map<nat, nat>, free: seq<nat>, t: nat) {
    forall k: nat :: k + 1 < |free| ==> GapAt(size, free, t, k)
  }

  /** The list `free` is circular through `ptr`, starts at `base`, and is sorted by address with its only
      wrap at the end; no block touches the next, except possibly block `t` the one behind it. */
  ghost predicate ListOk(ptr: map<nat, nat>, size: map<nat, nat>, free: seq<nat>, base: nat, t: nat) {
    && |free| > 0 && free[0] == base > 0
    && Ring(ptr, free)
    && (forall k :: 0 <= k < |free| ==> free[k] in size)
    && size[base] == 0
    && Sorted(free)
    && Gaps(size, free, t)
  }

  /** The free blocks are on the list, the headers of all blocks carry their sizes, and the blocks tile the memory. */
  ghost predicate HeapOk(ptr: map<nat, nat>, size: map<nat, nat>, free: seq<nat>, base: nat, t: nat,
                         blocks: Blocks, owner: map<nat, nat>)
  {
    && ListOk(ptr, size, free, base, t)
    && Tiles(blocks, owner)
    && (forall h :: h in blocks ==> h in size && size[h] == blocks[h] && h > base)
    && (forall k :: 1 <= k < |free| ==> free[k] in blocks)
  }

  /** Block `bp` belongs between the list's blocks `k` and `k + 1`. */
  ghost predicate Between(free: seq<nat>, k: nat, bp: nat) {
    k < |free| && free[k] < bp && (k + 1 < |free| ==> bp < free[k + 1])
  }

  ghost predicate Sorted(free: seq<nat>) {
    forall j, k :: 0 <= j < k < |free| ==> free[j] < free[k]
  }

  lemma SortedJoin(free: seq<nat>, bp: nat, k: nat)
    requires Sorted(free) && Between(free, k, bp)
    ensures Sorted(InsertAt(free, k + 1, bp))
  {
    hide InsertAt;
  }

  lemma RingJoin(ptr: map<nat, nat>, free: seq<nat>, bp: nat, k: nat)
    requires Sorted(free) && bp !in free && k < |free| && Ring(ptr, free)
    ensures free[k] in ptr && Ring(ptr[bp := ptr[free[k]]][free[k] := bp], InsertAt(free, k + 1, bp))
  {
    hide InsertAt;
    var now := InsertAt(free, k + 1, bp);
    assert RingAt(ptr, free, k);
    var ptr' := ptr[bp := ptr[free[k]]][free[k] := bp];
    forall j: nat | j < |now| ensures RingAt(ptr', now, j) {
      assert RingAt(ptr, free, if j <= k then j else if j == k + 1 then k else j - 1);
    }
  }

  lemma GapJoin(size: map<nat, nat>, free: seq<nat>, bp: nat, k: nat)
    requires k < |free| && bp in size && free[k] in size
    requires free[k] + size[free[k]] <= bp && (k + 1 < |free| ==> bp + size[bp] < free[k + 1])
    requires Gaps(size, free, |free|)
    ensures Gaps(size, InsertAt(free, k + 1, bp), k)
  {
    hide InsertAt;
    var now := InsertAt(free, k + 1, bp);
    forall j: nat | j + 1 < |now| ensures GapAt(size, now, k, j) {
      if j < k {
        assert GapAt(size, free, |free|, j);
      } else if j > k + 1 {
        assert GapAt(size, free, |free|, j - 1);
      }
    }
  }

  lemma ListJoin(ptr: map<nat, nat>, size: map<nat, nat>, free: seq<nat>, base: nat, bp: nat, k: nat)
    requires ListOk(ptr, size, free, base, |free|) && bp !in free && Between(free, k, bp) && bp in size
    requires free[k] + size[free[k]] <= bp && (k + 1 < |free| ==> bp + size[bp] < free[k + 1])
    ensures free[k] in ptr && ListOk(ptr[bp := ptr[free[k]]][free[k] := bp], size, InsertAt(free, k + 1, bp), base, k)
  {
    hide InsertAt, Ring, Gaps;
    SortedJoin(free, bp, k);
    RingJoin(ptr, free, bp, k);
    GapJoin(size, free, bp, k);
  }

  /** A block that does not touch the one behind it joins the list. */
  lemma JoinList(ptr: map<nat, nat>, size: map<nat, nat>, free: seq<nat>, base: nat, blocks: Blocks, owner: map<nat, nat>, bp: nat, k: nat)
    requires HeapOk(ptr, size, free, base, |free|, blocks, owner) && bp in blocks && bp !in free && Between(free, k, bp)
    requires bp + blocks[bp] != free[if k + 1 < |free| then k + 1 else 0]
    ensures free[k] in ptr && HeapOk(ptr[bp := ptr[free[k]]][free[k] := bp], size, InsertAt(free, k + 1, bp), base, k, blocks, owner)
  {
    if k > 0 {
      Disjoint(blocks, owner, free[k], bp);
    }
    if k + 1 < |free| {
      Disjoint(blocks, owner, bp, free[k + 1]);
    }
    ListJoin(ptr, size, free, base, bp, k);
    hide Tiles, ListOk, InsertAt;
  }

  lemma ListRight(ptr: map<nat, nat>, size: map<nat, nat>, free: seq<nat>, base: nat, bp: nat, k: nat)
    requires ListOk(ptr, size, free, base, |free|) && bp !in free && Between(free, k, bp) && bp in size
    requires free[k] + size[free[k]] <= bp && k + 1 < |free| && bp + size[bp] == free[k + 1]
    ensures
      var r := free[k + 1];
      r in ptr && ListOk(ptr[bp := ptr[r]][free[k] := bp], size[bp := size[bp] + size[r]], free[k + 1 := bp], base, k)
  {
    var p, r, now := free[k], free[k + 1], free[k + 1 := bp];
    assert RingAt(ptr, free, k) && RingAt(ptr, free, k + 1);
    var ptr', size' := ptr[bp := ptr[r]][p := bp], size[bp := size[bp] + size[r]];
    forall j: nat | j < |now| ensures RingAt(ptr', now, j) {
      assert RingAt(ptr, free, j);
    }
    forall j: nat | j + 1 < |now| ensures GapAt(size', now, k, j) {
      assert GapAt(size, free, |free|, j);
    }
  }

  /** A block that touches the one behind it takes its place in the list and swallows it. */
  lemma JoinRight(ptr: map<nat, nat>, size: map<nat, nat>, free: seq<nat>, base: nat, blocks: Blocks, owner: map<nat, nat>, bp: nat, k: nat)
    requires HeapOk(ptr, size, free, base, |free|, blocks, owner) && bp in blocks && bp !in free && Between(free, k, bp)
    requires k + 1 < |free| && bp + blocks[bp] == free[k + 1]
    ensures
      var r := free[k + 1];
      && r in ptr && r in blocks
      && HeapOk(ptr[bp := ptr[r]][free[k] := bp], size[bp := size[bp] + size[r]], free[k + 1 := bp], base, k,
                Merged(blocks, bp, r), Reowned(owner, r, bp))
  {
    MergeTiles(blocks, owner, bp, free[k + 1]);
    if k > 0 {
      Disjoint(blocks, owner, free[k], bp);
    }
    ListRight(ptr, size, free, base, bp, k);
    var r := free[k + 1];
    assert forall j :: 1 <= j < |free| && j != k + 1 ==> free[j] != r;
    hide Tiles, ListOk;
  }

  lemma ListLeft(ptr: map<nat, nat>, size: map<nat, nat>, free: seq<nat>, base: nat, k: nat)
    requires ListOk(ptr, size, free, base, k) && k + 1 < |free| && free[k] + size[free[k]] == free[k + 1] && free[k] != base
    ensures
      var p, bp := free[k], free[k + 1];
      p in ptr && bp in ptr && ListOk(ptr[p := ptr[bp]], size[p := size[p] + size[bp]], RemoveAt(free, k + 1), base, |free| - 1)
  {
    hide RemoveAt;
    var p, bp, now := free[k], free[k + 1], RemoveAt(free, k + 1);
    assert RingAt(ptr, free, k) && RingAt(ptr, free, k + 1);
    var ptr', size' := ptr[p := ptr[bp]], size[p := size[p] + size[bp]];
    forall j: nat | j < |now| ensures RingAt(ptr', now, j) {
      assert RingAt(ptr, free, if j <= k then j else j + 1);
    }
    forall j: nat | j + 1 < |now| ensures GapAt(size', now, |now|, j) {
      assert GapAt(size, free, k, if j < k then j else j + 1);
    }
  }

  /** Block `k` of the list swallows the one behind it if they touch; then no blocks of the list touch. */
  lemma JoinLeft(ptr: map<nat, nat>, size: map<nat, nat>, free: seq<nat>, base: nat, blocks: Blocks, owner: map<nat, nat>, k: nat)
    requires HeapOk(ptr, size, free, base, k, blocks, owner) && k + 1 < |free| && free[k] + size[free[k]] == free[k + 1]
    ensures
      var p, bp := free[k], free[k + 1];
      && p in ptr && bp in ptr && p in blocks && bp in blocks
      && HeapOk(ptr[p := ptr[bp]], size[p := size[p] + size[bp]], RemoveAt(free, k + 1), base, |free| - 1,
                Merged(blocks, p, bp), Reowned(owner, bp, p))
  {
    var p, bp, now := free[k], free[k + 1], RemoveAt(free, k + 1);
    assert p < bp;
    assert p != base;
    MergeTiles(blocks, owner, p, bp);
    ListLeft(ptr, size, free, base, k);
    hide RemoveAt;
    assert forall j :: 0 <= j < |now| ==> now[j] != bp;
    hide Tiles, ListOk;
  }

  /** If block `k` and the next do not touch, no blocks of the list touch. */
  lemma NoTouch(ptr: map<nat, nat>, size: map<nat, nat>, free: seq<nat>, base: nat, blocks: Blocks, owner: map<nat, nat>, k: nat)
    requires HeapOk(ptr, size, free, base, k, blocks, owner) && (k + 1 < |free| ==> free[k] + size[free[k]] != free[k + 1])
    ensures HeapOk(ptr, size, free, base, |free|, blocks, owner)
  {
    hide Tiles;
    forall j: nat | j + 1 < |free| ensures GapAt(size, free, |free|, j) {
      assert GapAt(size, free, k, j);
    }
  }

  /** Block `k` leaves the list whole. */
  lemma TakeWhole(ptr: map<nat, nat>, size: map<nat, nat>, free: seq<nat>, base: nat, blocks: Blocks, owner: map<nat, nat>, k: nat)
    requires HeapOk(ptr, size, free, base, |free|, blocks, owner) && 0 < k < |free|
    ensures free[k - 1] in ptr && free[k] in ptr
    ensures HeapOk(ptr[free[k - 1] := ptr[free[k]]], size, RemoveAt(free, k), base, |free| - 1, blocks, owner)
  {
    hide Tiles, RemoveAt;
    var now := RemoveAt(free, k);
    assert RingAt(ptr, free, k) && RingAt(ptr, free, k - 1);
    assert GapAt(size, free, |free|, k - 1);
    var ptr' := ptr[free[k - 1] := ptr[free[k]]];
    forall j: nat | j < |now| ensures RingAt(ptr', now, j) {
      assert RingAt(ptr, free, if j < k then j else j + 1);
    }
    forall j: nat | j + 1 < |now| ensures GapAt(size, now, |now|, j) {
      assert GapAt(size, free, |free|, if j < k then j else j + 1);
    }
  }

  lemma LiveTake(blocks: Blocks, free: seq<nat>, k: nat)
    requires k < |free| && free[k] in blocks && Sorted(free)
    ensures LiveOf(blocks, RemoveAt(free, k)) == LiveOf(blocks, free)[free[k] := blocks[free[k]]]
  {
    hide RemoveAt;
    var now := RemoveAt(free, k);
    forall h | h in blocks && h != free[k] ensures h in now <==> h in free {
      if h in free {
        var j :| 0 <= j < |free| && free[j] == h;
        assert now[if j < k then j else j - 1] == h;
      }
    }
    assert free[k] !in now;
  }

  /** Block `k` stays on the list without its last `n` units, which become a block in use. */
  lemma TakeTail(ptr: map<nat, nat>, size: map<nat, nat>, free: seq<nat>, base: nat, blocks: Blocks, owner: map<nat, nat>, k: nat, n: nat)
    requires HeapOk(ptr, size, free, base, |free|, blocks, owner) && 0 < k < |free| && 0 < n < size[free[k]]
    ensures
      var p := free[k];
      var t := p + size[p] - n;
      && p in blocks && blocks[p] == size[p]
      && HeapOk(ptr, size[p := size[p] - n][t := n], free, base, |free|, Split(blocks, p, n), SplitOwner(blocks, owner, p, n))
      && t !in LiveOf(blocks, free) && LiveOf(Split(blocks, p, n), free) == LiveOf(blocks, free)[t := n]
      && SplitOwner(blocks, owner, p, n).Keys == owner.Keys
  {
    var p := free[k];
    var t := p + size[p] - n;
    SplitTiles(blocks, owner, p, n);
    assert t != base && t !in free by {
      assert p > base;
    }
    hide Tiles, SplitOwner;
    var size' := size[p := size[p] - n][t := n];
    forall j: nat | j + 1 < |free| ensures GapAt(size', free, |free|, j) {
      assert GapAt(size, free, |free|, j);
    }
  }

  /** The place in the list where a block belongs. */
  lemma {:induction false} Spot(free: seq<nat>, bp: nat) returns (k: nat)
    requires |free| > 0 && free[0] < bp && bp !in free
    requires Sorted(free)
    ensures Between(free, k, bp)
  {
    k := 0;
    while k + 1 < |free| && free[k + 1] < bp
      invariant k < |free| && free[k] < bp
    {
      k := k + 1;
    }
  }

  /** The blocks in use: all that are not on the list. */
  ghost function LiveOf(blocks: Blocks, free: seq<nat>): (m: Blocks) {
    map h | h in blocks && h !in free :: blocks[h]
  }

  /** What sbrk does when asked: refuse, or grant memory at an address. */
  datatype Core = Refused | At(addr: nat)

  function Next(n: nat, k: nat): (r: nat)
    requires k < n
    ensures r < n && (r > 0 ==> r == k + 1)
  {
    if k + 1 < n then k + 1 else 0
  }

  /** How many steps along a circular list of `n` lead from place `a` on to place `b`, at least one. */
  function Steps(n: nat, a: nat, b: nat): (d: nat)
    requires a < n && b < n
  {
    if b > a then b - a else n - a + b
  }

  /** The free blocks fewer than `d` steps on from place `start` are smaller than `nunits`. */
  ghost predicate TooSmall(size: map<nat, nat>, free: seq<nat>, nunits: nat, start: nat, d: nat)
    requires start < |free|
  {
    forall i: nat :: i < |free| && Steps(|free|, start, i) < d ==> free[i] in size && size[free[i]] < nunits
  }

  lemma FirstStep(size: map<nat, nat>, free: seq<nat>, nunits: nat, start: nat)
    requires start < |free|
    ensures Steps(|free|, start, Next(|free|, start)) == 1 && TooSmall(size, free, nunits, start, 1)
  {
  }

  lemma OneStep(size: map<nat, nat>, free: seq<nat>, nunits: nat, start: nat, k: nat)
    requires start < |free| && k < |free| && k != start && TooSmall(size, free, nunits, start, Steps(|free|, start, k))
    requires free[k] in size && size[free[k]] < nunits
    ensures Steps(|free|, start, Next(|free|, k)) == Steps(|free|, start, k) + 1 <= |free|
    ensures TooSmall(size, free, nunits, start, Steps(|free|, start, k) + 1)
  {
  }

  lemma AllAround(size: map<nat, nat>, free: seq<nat>, nunits: nat, start: nat)
    requires start < |free| && TooSmall(size, free, nunits, start, Steps(|free|, start, start))
    requires free[start] in size && size[free[start]] < nunits
    ensures forall i :: 0 <= i < |free| ==> free[i] in size && size[free[i]] < nunits
  {
    forall i: nat | i < |free| ensures free[i] in size && size[free[i]] < nunits {
      assert i == start || Steps(|free|, start, i) < Steps(|free|, start, start);
    }
  }

  lemma SamePlace(free: seq<nat>, j: nat, k: nat)
    requires Sorted(free) && j < |free| && k < |free| && free[j] == free[k]
    ensures j == k
  {
  }

  class Heap {
    // The static header `base`, before all memory from sbrk.
    const base: nat
    // The header fields in memory, and the start of the search; zero before the first use.
    var ptr: map<nat, nat>
    var size: map<nat, nat>
    var freep: nat
    // The free list from `base` on, all blocks, and the block each unit from sbrk is in.
    ghost var free: seq<nat>
    ghost var blocks: Blocks
    ghost var owner: map<nat, nat>

    ghost predicate Ready()
      reads this
    {
      HeapOk(ptr, size, free, base, |free|, blocks, owner) && freep in free
    }

    ghost predicate Valid()
      reads this
    {
      if freep == 0 then base > 0 && free == [] && blocks == map[] && owner == map[] else Ready()
    }

    ghost function Live(): (m: Blocks)
      reads this
    {
      LiveOf(blocks, free)
    }

    constructor (base: nat)
      requires base > 0
      ensures Valid() && this.base == base && Live() == map[] && owner == map[]
    {
      this.base := base;
      ptr, size, freep := map[], map[], 0;
      free, blocks, owner := [], map[], map[];
    }

    // The free block behind which `bp` belongs (umalloc.c:30-32).
    method FindSpot(bp: nat) returns (p: nat, ghost k: nat)
      requires Ready() && bp in blocks && bp !in free
      ensures Between(free, k, bp) && p == free[k]
    {
      hide Tiles;
      ghost var target := Spot(free, bp);
      p := freep;
      k :| 0 <= k < |free| && free[k] == freep;
      assert RingAt(ptr, free, k);
      while !(bp > p && bp < ptr[p])
        invariant 0 <= k < |free| && p == free[k] && RingAt(ptr, free, k)
        decreases if k <= target then target - k else |free| - k + target
      {
        if p >= ptr[p] && (bp > p || bp < ptr[p]) {
          break;
        }
        assert k != target;
        p := ptr[p];
        k := if k + 1 < |free| then k + 1 else 0;
        assert RingAt(ptr, free, k);
      }
    }

    // Link `bp` to the list behind it, or swallow the next block if they touch (umalloc.c:33-37).
    method JoinNext(bp: nat, p: nat, ghost k: nat)
      requires Ready() && bp in Live() && Between(free, k, bp) && p == free[k]
      modifies this`ptr, this`size, this`free, this`blocks, this`owner
      ensures HeapOk(ptr[p := bp], size, free, base, k, blocks, owner) && bp in ptr
      ensures k + 1 < |free| && free[k] == p && free[k + 1] == bp
      ensures bp in old(blocks) && bp in blocks && blocks[bp] >= old(blocks)[bp]
      ensures LiveOf(blocks, free) == old(LiveOf(blocks, free)) - {bp} && owner.Keys == old(owner.Keys)
    {
      NextOf(k);
      LiveIs(blocks, free, bp);
      hide Tiles, InsertAt, RemoveAt, Reowned, LiveOf, RingAt, GapAt;
      var next := ptr[p];
      if bp + size[bp] == next {
        JoinRight(ptr, size, free, base, blocks, owner, bp, k);
        LiveRight(blocks, owner, free, bp, k);
        free, blocks, owner := free[k + 1 := bp], Merged(blocks, bp, next), Reowned(owner, next, bp);
        size := size[bp := size[bp] + size[next]];
        ptr := ptr[bp := ptr[next]];
      } else {
        JoinList(ptr, size, free, base, blocks, owner, bp, k);
        LiveJoin(blocks, free, bp, k);
        free := InsertAt(free, k + 1, bp);
        ptr := ptr[bp := next];
      }
    }

    // Link the block before to `bp`, or let it swallow `bp` if they touch (umalloc.c:38-42).
    method JoinPrev(bp: nat, p: nat, ghost k: nat)
      requires HeapOk(ptr[p := bp], size, free, base, k, blocks, owner) && bp in ptr
      requires k + 1 < |free| && free[k] == p && free[k + 1] == bp && bp in blocks
      modifies this`ptr, this`size, this`free, this`blocks, this`owner
      ensures HeapOk(ptr, size, free, base, |free|, blocks, owner) && p in free
      ensures exists i :: 0 <= i < |free| && free[i] in blocks && blocks[free[i]] >= old(blocks)[bp]
      ensures LiveOf(blocks, free) == old(LiveOf(blocks, free)) && owner.Keys == old(owner.Keys)
    {
      hide Tiles, InsertAt, RemoveAt, Reowned, LiveOf, RingAt, GapAt;
      ghost var joined := ptr[p := bp];
      assert p < bp;
      if p + size[p] == bp {
        JoinLeft(joined, size, free, base, blocks, owner, k);
        LiveLeft(blocks, owner, free, k);
        free, blocks, owner := RemoveAt(free, k + 1), Merged(blocks, p, bp), Reowned(owner, bp, p);
        size := size[p := size[p] + size[bp]];
        ptr := ptr[p := ptr[bp]];
        assert ptr == joined[p := joined[bp]];
      } else {
        NoTouch(joined, size, free, base, blocks, owner, k);
        ptr := ptr[p := bp];
        assert free[k + 1] in blocks;
      }
      assert free[k] == p;
    }

    // Put a block back on the list and join it with its neighbours (umalloc.c:25-44).
    method Free(ap: nat)
      requires Ready() && ap > 0 && ap - 1 in Live()
      modifies this
      ensures Ready() && Live() == old(Live()) - {ap - 1} && owner.Keys == old(owner.Keys)
      ensures exists i :: 0 <= i < |free| && free[i] in blocks && blocks[free[i]] >= old(Live()[ap - 1])
      ensures exists k: nat :: Between(old(free), k, ap - 1) && freep == old(free)[k]
    {
      var bp := ap - 1;
      LiveIs(blocks, free, bp);
      var p, k := FindSpot(bp);
      ghost var free0 := free;
      assert Between(free0, k, bp) && p == free0[k];
      hide HeapOk, LiveOf, Between;
      JoinNext(bp, p, k);
      JoinPrev(bp, p, k);
      freep := p;
    }

    // Look for a large enough block from `freep` once around the list (umalloc.c:74-75, umalloc.c:86).
    method Search(nunits: nat) returns (found: bool, prevp: nat, p: nat, ghost k: nat, ghost start: nat)
      requires Ready() && nunits > 0
      ensures start < |free| && free[start] == freep
      ensures found ==> 0 < k < |free| && prevp == free[k - 1] && p == free[k] && p in size && size[p] >= nunits
      ensures found ==> TooSmall(size, free, nunits, start, Steps(|free|, start, k))
      ensures !found ==> forall i :: 0 <= i < |free| ==> free[i] in size && size[free[i]] < nunits
    {
      Ordered();
      hide HeapOk, Steps, TooSmall, Next, Sorted;
      ghost var n: nat := |free|;
      start :| 0 <= start < n && free[start] == freep;
      prevp := freep;
      NextOf(start);
      p := ptr[prevp];
      ghost var kp := start;
      k := Next(n, kp);
      FirstStep(size, free, nunits, start);
      while true
        invariant 0 <= kp < n && prevp == free[kp] && k == Next(n, kp) && p == free[k]
        invariant TooSmall(size, free, nunits, start, Steps(n, start, k)) && Steps(n, start, k) <= n
        decreases n - Steps(n, start, k)
      {
        if size[p] >= nunits {
          found := true;
          return;
        }
        if p == freep {
          SamePlace(free, k, start);
          AllAround(size, free, nunits, start);
          found := false;
          return;
        }
        assert k != start;
        OneStep(size, free, nunits, start, k);
        prevp := p;
        kp := k;
        k := Next(n, kp);
        NextOf(kp);
        p := ptr[p];
      }
    }

    // Take block `k`, of just the right size, off the list (umalloc.c:76-77).
    method TakeBlock(nunits: nat, prevp: nat, p: nat, ghost k: nat)
      requires Ready() && 0 < k < |free| && prevp == free[k - 1] && p == free[k] && p in size && size[p] == nunits
      modifies this`ptr, this`free
      ensures HeapOk(ptr, size, free, base, |free|, blocks, owner) && prevp in free
      ensures p !in old(Live()) && Live() == old(Live())[p := nunits]
    {
      NextOf(k);
      NextOf(k - 1);
      Ordered();
      InBlocks(k);
      hide HeapOk, LiveOf, RemoveAt;
      TakeWhole(ptr, size, free, base, blocks, owner, k);
      LiveTake(blocks, free, k);
      OnList(blocks, free, k);
      ptr := ptr[prevp := ptr[p]];
      free := RemoveAt(free, k);
      assert free[k - 1] == prevp;
    }

    // Cut a block of `nunits` units off the end of block `k` (umalloc.c:79-81).
    method CutBlock(nunits: nat, p: nat, ghost k: nat) returns (q: nat)
      requires Ready() && 0 < k < |free| && p == free[k] && p in size && 0 < nunits < size[p]
      modifies this`size, this`blocks, this`owner
      ensures HeapOk(ptr, size, free, base, |free|, blocks, owner)
      ensures q !in old(Live()) && Live() == old(Live())[q := nunits] && owner.Keys == old(owner.Keys)
    {
      TakeTail(ptr, size, free, base, blocks, owner, k, nunits);
      hide HeapOk, LiveOf, Split, SplitOwner;
      blocks, owner := Split(blocks, p, nunits), SplitOwner(blocks, owner, p, nunits);
      size := size[p := size[p] - nunits];
      q := p + size[p];
      size := size[q := nunits];
    }

    // Take `nunits` units off block `k` of the list (umalloc.c:76-84).
    method Take(nunits: nat, prevp: nat, p: nat, ghost k: nat) returns (ap: nat)
      requires Ready() && 0 < k < |free| && prevp == free[k - 1] && p == free[k] && p in size && 0 < nunits <= size[p]
      modifies this
      ensures Ready() && ap > 0 && ap - 1 !in old(Live()) && Live() == old(Live())[ap - 1 := nunits] && owner.Keys == old(owner.Keys)
      ensures freep == prevp
    {
      var q := p;
      hide HeapOk, LiveOf;
      if size[p] == nunits {
        TakeBlock(nunits, prevp, p, k);
      } else {
        q := CutBlock(nunits, p, k);
      }
      freep := prevp;
      ap := q + 1;
    }

    // Get more memory from sbrk, which grants `core`, and put it on the list; zero if refused (umalloc.c:47-61).
    method Morecore(nunits: nat, core: Core) returns (p: nat)
      requires Ready() && (core.At? ==> core.addr > base && Unused(owner, core.addr, CoreUnits(nunits)))
      modifies this
      ensures Ready() && p == (if core.At? then freep else 0) && Live() == old(Live())
      ensures core.Refused? ==> ptr == old(ptr) && size == old(size) && free == old(free) && blocks == old(blocks) && owner == old(owner)
      ensures core.At? ==> owner.Keys == Grown(old(owner), core.addr, CoreUnits(nunits)).Keys
      ensures core.At? ==> exists i :: 0 <= i < |free| && free[i] in blocks && blocks[free[i]] >= CoreUnits(nunits)
      ensures CoreUnits(nunits) == if nunits < 4096 then 4096 else nunits
    {
      var nu := if nunits < MINCORE then MINCORE else nunits;
      if core.Refused? {
        return 0;
      }
      var hp := core.addr;
      NewBlock(ptr, size, free, base, blocks, owner, hp, nu);
      hide HeapOk, LiveOf, Grown;
      size := size[hp := nu];
      blocks, owner := blocks[hp := nu], Grown(owner, hp, nu);
      Free(hp + 1);
      return freep;
    }

    // The first use: a list of the empty block `base` (umalloc.c:70-73).
    method Init()
      requires Valid()
      modifies this
      ensures Ready() && Live() == old(Live()) && owner == old(owner)
      ensures old(freep) != 0 ==> free == old(free) && blocks == old(blocks) && size == old(size) && freep == old(freep)
    {
      if freep == 0 {
        ptr := ptr[base := base];
        freep := base;
        size := size[base := 0];
        free := [base];
        assert RingAt(ptr, free, 0);
      }
    }

    // Find a block of at least `nunits` units, after asking sbrk if need be (umalloc.c:74-88).
    method Find(nunits: nat, core: Core) returns (found: bool, prevp: nat, p: nat, ghost k: nat)
      requires Ready() && nunits > 0 && (core.At? ==> core.addr > base && Unused(owner, core.addr, CoreUnits(nunits)))
      modifies this
      ensures Ready() && Live() == old(Live())
      ensures found ==> 0 < k < |free| && prevp == free[k - 1] && p == free[k] && p in size && size[p] >= nunits
      ensures !found ==> core.Refused? && owner == old(owner) && forall i :: 0 <= i < |free| ==> free[i] in size && size[free[i]] < nunits
      ensures owner.Keys == old(owner.Keys) || (core.At? && owner.Keys == Grown(old(owner), core.addr, CoreUnits(nunits)).Keys)
    {
      hide HeapOk, LiveOf, Grown, Unused, TooSmall, Steps;
      ghost var start;
      found, prevp, p, k, start := Search(nunits);
      if !found {
        p := Morecore(nunits, core);
        StartsInList();
        if p == 0 {
          return;
        }
        BigEnough(nunits);
        found, prevp, p, k, start := Search(nunits);
      }
    }

    // A block of at least `nbytes` bytes, from the list or from sbrk; zero if there is none. Memory that
    // sbrk grants is as much as the new block is taken to have; RequestWorks says for which requests
    // that is what it is asked for (umalloc.c:64-90).
    method Malloc(nbytes: nat, core: Core) returns (ap: nat)
      requires Valid() && nbytes < U32
      requires core.At? ==> core.addr > base && Unused(owner, core.addr, CoreUnits(NUnits(nbytes)))
      requires core.At? ==> SbrkArg(NUnits(nbytes)) == CoreUnits(NUnits(nbytes)) * HEADER
      modifies this
      ensures Valid()
      ensures ap == 0 ==> core.Refused? && Live() == old(Live()) && owner.Keys == old(owner.Keys)
      ensures ap == 0 ==> forall i :: 0 <= i < |free| ==> free[i] in size && size[free[i]] < NUnits(nbytes)
      ensures ap > 0 ==>
                && ((NUnits(nbytes) - 1) * HEADER >= nbytes <==> nbytes + HEADER - 1 < U32)
                && ap - 1 !in old(Live()) && Live() == old(Live())[ap - 1 := NUnits(nbytes)]
      ensures owner.Keys == old(owner.Keys)
              || (core.At? && owner.Keys == Grown(old(owner), core.addr, CoreUnits(NUnits(nbytes))).Keys)
    {
      Room(nbytes);
      hide HeapOk, LiveOf, NUnits, Grown, Unused;
      var nunits := NUnits(nbytes);
      Init();
      var found, prevp, p, k := Find(nunits, core);
      StartsInList();
      if !found {
        return 0;
      }
      ap := Take(nunits, prevp, p, k);
      StartsInList();
    }

    // The list has a block of at least `n` units.
    lemma BigEnough(n: nat)
      requires Ready() && exists i :: 0 <= i < |free| && free[i] in blocks && blocks[free[i]] >= n
      ensures !forall i :: 0 <= i < |free| ==> free[i] in size && size[free[i]] < n
    {
      var i :| 0 <= i < |free| && free[i] in blocks && blocks[free[i]] >= n;
      assert free[i] in size && size[free[i]] == blocks[free[i]];
    }

    lemma StartsInList()
      requires Ready()
      ensures freep > 0
    {
    }

    // A program writes where it may: in the units of a block in use behind its header. The allocator does not notice.
    method Scribble(h: nat, u: nat, x: nat, y: nat)
      requires Ready() && h in Live() && h < u < h + Live()[h]
      modifies this`ptr, this`size
      ensures Ready()
    {
      NotHeader(ptr, size, free, base, blocks, owner, h, u, x, y);
      ptr, size := ptr[u := x], size[u := y];
    }

    lemma InBlocks(k: nat)
      requires Ready() && 0 < k < |free|
      ensures free[k] in blocks && free[k] in size && blocks[free[k]] == size[free[k]]
    {
    }

    lemma Ordered()
      requires Ready()
      ensures |free| > 0 && (forall i :: 0 <= i < |free| ==> free[i] in size) && size[free[0]] == 0
      ensures Sorted(free)
    {
    }

    lemma NextOf(k: nat)
      requires Ready() && k < |free|
      ensures free[k] in ptr && ptr[free[k]] == free[Next(|free|, k)] && free[k] in size
    {
      assert RingAt(ptr, free, k);
    }
  }

  lemma NotHeader(ptr: map<nat, nat>, size: map<nat, nat>, free: seq<nat>, base: nat, blocks: Blocks, owner: map<nat, nat>,
                  h: nat, u: nat, x: nat, y: nat)
    requires HeapOk(ptr, size, free, base, |free|, blocks, owner) && h in blocks && h < u < h + blocks[h]
    ensures HeapOk(ptr[u := x], size[u := y], free, base, |free|, blocks, owner)
  {
    if u in blocks {
      Disjoint(blocks, owner, h, u);
    }
    hide Tiles;
    assert u !in free;
    var ptr', size' := ptr[u := x], size[u := y];
    forall k: nat | k < |free| ensures RingAt(ptr', free, k) {
      assert RingAt(ptr, free, k);
    }
    forall k: nat | k + 1 < |free| ensures GapAt(size', free, |free|, k) {
      assert GapAt(size, free, |free|, k);
    }
  }

  lemma OnList(blocks: Blocks, free: seq<nat>, k: nat)
    requires k < |free|
    ensures free[k] !in LiveOf(blocks, free)
  {
  }

  /** New memory is a block in use until it is put on the list. */
  lemma NewBlock(ptr: map<nat, nat>, size: map<nat, nat>, free: seq<nat>, base: nat, blocks: Blocks, owner: map<nat, nat>, h: nat, n: nat)
    requires HeapOk(ptr, size, free, base, |free|, blocks, owner) && n > 0 && h > base && Unused(owner, h, n)
    ensures HeapOk(ptr, size[h := n], free, base, |free|, blocks[h := n], Grown(owner, h, n))
    ensures h !in LiveOf(blocks, free) && LiveOf(blocks[h := n], free) == LiveOf(blocks, free)[h := n]
    ensures LiveOf(blocks[h := n], free) - {h} == LiveOf(blocks, free)
  {
    GrowTiles(blocks, owner, h, n);
    hide Tiles, Grown;
    assert h !in free;
    var size' := size[h := n];
    forall j: nat | j + 1 < |free| ensures GapAt(size', free, |free|, j) {
      assert GapAt(size, free, |free|, j);
    }
  }

  lemma LiveIs(blocks: Blocks, free: seq<nat>, h: nat)
    requires h in LiveOf(blocks, free)
    ensures h in blocks && h !in free && blocks[h] == LiveOf(blocks, free)[h]
  {
  }

  lemma LiveJoin(blocks: Blocks, free: seq<nat>, bp: nat, k: nat)
    requires bp in blocks && bp !in free && k < |free|
    ensures LiveOf(blocks, InsertAt(free, k + 1, bp)) == LiveOf(blocks, free) - {bp}
  {
    InsertMembers(free, k + 1, bp);
  }

  lemma LiveRight(blocks: Blocks, owner: map<nat, nat>, free: seq<nat>, bp: nat, k: nat)
    requires Tiles(blocks, owner) && bp in blocks && bp !in free && k + 1 < |free| && free[k + 1] in blocks
    requires Sorted(free)
    ensures LiveOf(Merged(blocks, bp, free[k + 1]), free[k + 1 := bp]) == LiveOf(blocks, free) - {bp}
    ensures Reowned(owner, free[k + 1], bp).Keys == owner.Keys
  {
    var now, r := free[k + 1 := bp], free[k + 1];
    forall h | h in blocks && h != bp && h != r ensures h in now <==> h in free {
      if h in free {
        var j :| 0 <= j < |free| && free[j] == h;
        assert now[j] == h;
      }
    }
    assert now[k + 1] == bp;
  }

  lemma LiveLeft(blocks: Blocks, owner: map<nat, nat>, free: seq<nat>, k: nat)
    requires k + 1 < |free| && free[k] in blocks && free[k + 1] in blocks
    requires Sorted(free)
    ensures LiveOf(Merged(blocks, free[k], free[k + 1]), RemoveAt(free, k + 1)) == LiveOf(blocks, free)
    ensures Reowned(owner, free[k + 1], free[k]).Keys == owner.Keys
  {
    var now := RemoveAt(free, k + 1);
    assert now[k] == free[k];
    forall h | h in blocks && h != free[k + 1] ensures h in now <==> h in free {
      if h in free {
        var j :| 0 <= j < |free| && free[j] == h;
        assert now[if j <= k then j else j - 1] == h;
      }
    }
  }
}
