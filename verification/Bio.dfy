/** The buffer cache (bio.c): a fixed array of buffers on a circular doubly linked
    list kept in order of release, over a disk whose block writes are atomic. */
module Bio {

  /** A block address: device and block number. */
  datatype Loc = Loc(dev: nat, blockno: nat)

  /** Words per block: BSIZE bytes read as 32-bit words. */
  const BWORDS: nat := 128

  type Block = b: seq<nat> | |b| == BWORDS witness seq(BWORDS, _ => 0)

  type DiskState = map<Loc, Block>

  datatype Buf = Buf(at: Loc, valid: bool, dirty: bool, locked: bool, refcnt: nat, data: Block)

  /** A buffer nobody uses may be handed to another block (bio.c:82). */
  predicate Free(b: Buf) {
    b.refcnt == 0 && !b.dirty
  }

  // ----- The list of buffers -----

  /** Node `i` of the circular list points to its neighbours in `r`. */
  ghost predicate Placed(r: seq<nat>, prev: seq<nat>, next: seq<nat>, i: nat) {
    && i < |r| && r[i] < |prev| == |next|
    && next[r[i]] == r[if i + 1 < |r| then i + 1 else 0]
    && prev[r[i]] == r[if i > 0 then i - 1 else |r| - 1]
  }

  /** The nodes of `r`, in this order, form one circular doubly linked list. */
  ghost predicate Linked(r: seq<nat>, prev: seq<nat>, next: seq<nat>) {
    && |r| > 0 && |prev| == |next|
    && (forall i: nat :: i < |r| ==> Placed(r, prev, next, i))
    && (forall i, j :: 0 <= i < j < |r| ==> r[i] != r[j])
  }

  /** The list `r` with its node at `k` moved to the front, behind the head. */
  ghost function Moved(r: seq<nat>, k: int): (s: seq<nat>)
    requires 1 <= k < |r|
  {
    [r[0], r[k]] + r[1..k] + r[k + 1..]
  }

  ghost predicate Onto(r: seq<nat>) {
    forall b :: 0 <= b < |r| ==> b in r
  }

  ghost function Place(r: seq<nat>, b: nat): (i: nat)
    requires b in r
    ensures i < |r| && r[i] == b
  {
    var i :| 0 <= i < |r| && r[i] == b;
    i
  }

  /** When each buffer was last released: later towards the front of the list. */
  ghost predicate Aged(r: seq<nat>, stamp: seq<int>, clock: int) {
    && |stamp| == |r|
    && (forall b :: 0 <= b < |stamp| ==> stamp[b] < clock)
    && (forall i :: 0 <= i < |r| ==> r[i] < |r|)
    && (forall i, j :: 1 <= i < j < |r| ==> stamp[r[j]] < stamp[r[i]])
  }

  /** The list without its node at `k`, which is not the head (bio.c:132-133). */
  lemma Unlink(r: seq<nat>, prev: seq<nat>, next: seq<nat>, k: nat)
    requires Linked(r, prev, next) && 1 <= k < |r|
    ensures
      var b := r[k];
      && b < |prev| && next[b] < |prev| && prev[b] < |prev| && next[b] != b && prev[b] != b
      && Linked(r[..k] + r[k + 1..], prev[next[b] := prev[b]], next[prev[b] := next[b]])
  {
    var b, s := r[k], r[..k] + r[k + 1..];
    var after := if k + 1 < |r| then k + 1 else 0;
    assert Placed(r, prev, next, k) && Placed(r, prev, next, k - 1) && Placed(r, prev, next, after);
    var p, n := prev[next[b] := prev[b]], next[prev[b] := next[b]];
    forall i: nat | i < |s| ensures Placed(s, p, n, i) {
      var j := if i < k then i else i + 1;
      assert s[i] == r[j] && Placed(r, prev, next, j);
    }
  }

  /** The list with a new node behind its head (bio.c:50-54, bio.c:134-137). */
  lemma LinkFirst(r: seq<nat>, prev: seq<nat>, next: seq<nat>, b: nat)
    requires Linked(r, prev, next) && b < |prev| && b !in r
    ensures
      var h := r[0];
      && h < |prev| && next[h] < |prev| && next[h] != b
      && Linked([h, b] + r[1..], prev[b := h][next[h] := b], next[b := next[h]][h := b])
  {
    var h, s := r[0], [r[0], b] + r[1..];
    var second := if 1 < |r| then 1 else 0;
    assert Placed(r, prev, next, 0) && Placed(r, prev, next, second);
    var p, n := prev[b := h][next[h] := b], next[b := next[h]][h := b];
    forall i: nat | i < |s| ensures Placed(s, p, n, i) {
      if i != 1 {
        var j := if i == 0 then 0 else i - 1;
        assert s[i] == r[j] && Placed(r, prev, next, j);
      }
    }
  }

  method Splice(prev0: seq<nat>, next0: seq<nat>, b: nat, head: nat, ghost r: seq<nat>, ghost k: nat)
    returns (prev: seq<nat>, next: seq<nat>)
    requires Linked(r, prev0, next0) && 1 <= k < |r| && r[k] == b && r[0] == head
    ensures |prev| == |prev0| && Linked(Moved(r, k), prev, next)
  {
    prev, next := prev0, next0;
    ghost var without := r[..k] + r[k + 1..];
    Unlink(r, prev, next, k);
    prev := prev[next[b] := prev[b]];
    next := next[prev[b] := next[b]];
    assert Linked(without, prev, next);
    LinkFirst(without, prev, next, b);
    assert [head, b] + without[1..] == Moved(r, k);
    next := next[b := next[head]];
    prev := prev[b := head];
    prev := prev[next[head] := b];
    next := next[head := b];
  }

  lemma OntoMoved(r: seq<nat>, k: nat)
    requires Onto(r) && 1 <= k < |r|
    ensures Onto(Moved(r, k))
  {
    var s := Moved(r, k);
    forall x | 0 <= x < |s| ensures x in s {
      var i := Place(r, x);
      assert x == s[if i == k then 1 else if 1 <= i < k then i + 1 else i];
    }
  }

  lemma Younger(r: seq<nat>, prev: seq<nat>, next: seq<nat>, stamp: seq<int>, clock: int, k: nat)
    requires Aged(r, stamp, clock) && 1 <= k < |r| && Linked(r, prev, next)
    ensures |stamp| == |r| && r[k] < |r| && Aged(Moved(r, k), stamp[r[k] := clock], clock + 1)
  {
    var s := Moved(r, k);
    assert forall i :: 2 <= i <= k ==> s[i] == r[i - 1];
    assert forall i :: k < i < |r| ==> s[i] == r[i];
  }

  // ----- The contents of the buffers -----

  /** Buffer `b` holds a value of block `l` that the disk may not have yet. */
  ghost predicate Carries(b: Buf, l: Loc) {
    b.at == l && b.valid && (b.dirty || b.locked)
  }

  /** `view` is the last value written to each block, on disk or only in its buffer. */
  ghost predicate Coherent(buf: seq<Buf>, disk: DiskState, view: DiskState) {
    && disk.Keys == view.Keys
    && (forall i :: 0 <= i < |buf| && buf[i].dirty ==> buf[i].valid)
    && (forall i :: 0 <= i < |buf| && buf[i].locked ==> buf[i].refcnt > 0)
    && (forall i :: 0 <= i < |buf| && buf[i].valid ==>
          buf[i].at.dev != 0 && buf[i].at in view && view[buf[i].at] == buf[i].data)
    && (forall i, j :: 0 <= i < j < |buf| && buf[i].at == buf[j].at ==> buf[i].at.dev == 0)
    && (forall l :: l in view && view[l] != disk[l] ==> exists i :: 0 <= i < |buf| && Carries(buf[i], l))
  }

  /** What a change of one buffer must respect. */
  lemma Replace(buf: seq<Buf>, disk: DiskState, view: DiskState, b: nat, nb: Buf)
    requires Coherent(buf, disk, view) && b < |buf|
    requires nb.dirty ==> nb.valid
    requires nb.locked ==> nb.refcnt > 0
    requires nb.valid ==> nb.at.dev != 0 && nb.at in view && view[nb.at] == nb.data
    requires nb.at.dev != 0 ==> forall i :: 0 <= i < |buf| && i != b ==> buf[i].at != nb.at
    requires Carries(buf[b], buf[b].at) && view[buf[b].at] != disk[buf[b].at] ==> Carries(nb, buf[b].at)
    ensures Coherent(buf[b := nb], disk, view)
  {
    var nbuf := buf[b := nb];
    forall l | l in view && view[l] != disk[l]
      ensures exists i :: 0 <= i < |nbuf| && Carries(nbuf[i], l)
    {
      var i :| 0 <= i < |buf| && Carries(buf[i], l);
      assert Carries(nbuf[i], l);
    }
  }

  /** What a buffer says about its block. */
  lemma Known(buf: seq<Buf>, disk: DiskState, view: DiskState, b: nat)
    requires Coherent(buf, disk, view) && b < |buf|
    ensures view.Keys == disk.Keys
    ensures buf[b].dirty ==> buf[b].valid
    ensures buf[b].valid ==> buf[b].at.dev != 0 && buf[b].at in view && view[buf[b].at] == buf[b].data
    ensures buf[b].locked ==> buf[b].refcnt > 0
    ensures !buf[b].valid && buf[b].at.dev != 0 && buf[b].at in disk ==> view[buf[b].at] == disk[buf[b].at]
    ensures buf[b].at.dev != 0 ==> forall i :: 0 <= i < |buf| && i != b ==> buf[i].at != buf[b].at
  {
  }

  lemma Flushed(buf: seq<Buf>, disk: DiskState, view: DiskState, b: nat)
    requires Coherent(buf, disk, view) && b < |buf| && buf[b].valid
    ensures Coherent(buf[b := buf[b].(dirty := false)], disk[buf[b].at := buf[b].data], view)
  {
    var nbuf, ndisk := buf[b := buf[b].(dirty := false)], disk[buf[b].at := buf[b].data];
    forall l | l in view && view[l] != ndisk[l]
      ensures exists i :: 0 <= i < |nbuf| && Carries(nbuf[i], l)
    {
      var i :| 0 <= i < |buf| && Carries(buf[i], l);
      assert Carries(nbuf[i], l);
    }
  }

  lemma ChangeData(buf: seq<Buf>, disk: DiskState, view: DiskState, b: nat, d: Block)
    requires Coherent(buf, disk, view) && b < |buf| && buf[b].valid && buf[b].locked
    ensures Coherent(buf[b := buf[b].(data := d)], disk, view[buf[b].at := d])
  {
    var nbuf, nview := buf[b := buf[b].(data := d)], view[buf[b].at := d];
    forall l | l in nview && nview[l] != disk[l]
      ensures exists i :: 0 <= i < |nbuf| && Carries(nbuf[i], l)
    {
      if l == buf[b].at {
        assert Carries(nbuf[b], l);
      } else {
        var i :| 0 <= i < |buf| && Carries(buf[i], l);
        assert Carries(nbuf[i], l);
      }
    }
  }

  class Bcache {
    // bcache.buf; the list head has the index after the last buffer.
    var buf: seq<Buf>
    var prev: seq<nat>
    var next: seq<nat>
    // The disk, and every state it has been in: each block write adds one.
    var disk: DiskState
    ghost var trace: seq<DiskState>
    // The buffer list from its head, most recently released first.
    ghost var ring: seq<nat>
    ghost var view: DiskState
    ghost var stamp: seq<int>
    ghost var clock: int

    ghost predicate Valid()
      reads this
    {
      && |ring| == |prev| == |buf| + 1 && ring[0] == |buf| && Linked(ring, prev, next) && Onto(ring)
      && Aged(ring, stamp, clock)
      && Coherent(buf, disk, view)
      && |trace| > 0 && trace[|trace| - 1] == disk
    }

    // Start with every buffer unused and each linked in front of the ones before it (bio.c:39-56).
    constructor (nbuf: nat, d: DiskState)
      ensures Valid() && |buf| == nbuf && disk == d && view == d && trace == [d]
      ensures forall i :: 0 <= i < nbuf ==> Free(buf[i]) && !buf[i].locked && !buf[i].valid
    {
      var p: seq<nat>, n: seq<nat> := seq(nbuf + 1, _ => nbuf), seq(nbuf + 1, _ => nbuf);
      ghost var r: seq<nat> := [nbuf];
      var b: nat := 0;
      while b < nbuf
        invariant b <= nbuf && |p| == nbuf + 1 && Linked(r, p, n) && r[0] == nbuf && |r| == b + 1
        invariant forall i :: 1 <= i <= b ==> r[i] == b - i
      {
        LinkFirst(r, p, n, b);
        n := n[b := n[nbuf]];
        p := p[b := nbuf];
        p := p[n[nbuf] := b];
        n := n[nbuf := b];
        r := [nbuf, b] + r[1..];
        b := b + 1;
      }
      buf := seq(nbuf, _ => Buf(Loc(0, 0), false, false, false, 0, seq(BWORDS, _ => 0)));
      prev, next, ring := p, n, r;
      disk, view, trace := d, d, [d];
      stamp, clock := seq(nbuf + 1, i => i), nbuf + 1;
      new;
      forall x | 0 <= x < |ring| ensures x in ring {
        assert x == ring[if x < nbuf then nbuf - x else 0];
      }
    }

    // The buffer that holds block `l`; the head's index if there is none (bio.c:68-76).
    method FindCached(l: Loc) returns (b: nat)
      requires Valid()
      ensures b <= |buf|
      ensures b < |buf| ==> buf[b].at == l
      ensures b == |buf| ==> forall o :: 0 <= o < |buf| ==> buf[o].at != l
    {
      assert Placed(ring, prev, next, 0);
      b := next[|buf|];
      ghost var k := 1;
      while b != |buf|
        invariant 1 <= k <= |ring| && b == ring[if k < |ring| then k else 0]
        invariant forall i :: 1 <= i < k ==> ring[i] < |buf| && buf[ring[i]].at != l
        decreases |ring| - k
      {
        if buf[b].at == l {
          return;
        }
        assert Placed(ring, prev, next, k);
        b := next[b];
        k := k + 1;
      }
      forall o | 0 <= o < |buf| ensures buf[o].at != l {
        assert ring[Place(ring, o)] == o;
      }
    }

    // The unused buffer that was released longest ago; the head's index if there is none (bio.c:81-91).
    method FindVictim() returns (b: nat)
      requires Valid()
      ensures b <= |buf|
      ensures b < |buf| ==> Free(buf[b]) && forall o :: 0 <= o < |buf| && Free(buf[o]) ==> stamp[b] <= stamp[o]
      ensures b == |buf| ==> forall o :: 0 <= o < |buf| ==> !Free(buf[o])
    {
      assert Placed(ring, prev, next, 0);
      b := prev[|buf|];
      ghost var k := |ring| - 1;
      while b != |buf|
        invariant 0 <= k < |ring| && b == ring[k]
        invariant forall i :: k < i < |ring| ==> ring[i] < |buf| && !Free(buf[ring[i]])
        decreases k
      {
        if Free(buf[b]) {
          forall o | 0 <= o < |buf| && Free(buf[o]) ensures stamp[b] <= stamp[o] {
            assert ring[Place(ring, o)] == o;
          }
          return;
        }
        assert Placed(ring, prev, next, k);
        b := prev[b];
        k := k - 1;
      }
      forall o | 0 <= o < |buf| ensures !Free(buf[o]) {
        assert ring[Place(ring, o)] == o;
      }
    }

    // Find the buffer of block `l`, or recycle the unused buffer released longest ago;
    // the head's index stands for the panic "bget: no buffers" (bio.c:61-93).
    method Bget(l: Loc) returns (b: nat)
      requires Valid() && l.dev != 0
      modifies this`buf
      ensures Valid() && |buf| == |old(buf)| && b <= |buf|
      ensures b == |buf| ==> buf == old(buf) && forall o :: 0 <= o < |buf| ==> !Free(buf[o]) && buf[o].at != l
      ensures b < |buf| && old(buf)[b].at == l ==> buf == old(buf)[b := old(buf)[b].(refcnt := old(buf)[b].refcnt + 1)]
      ensures b < |buf| && old(buf)[b].at != l ==>
                && buf == old(buf)[b := Buf(l, false, false, old(buf)[b].locked, 1, old(buf)[b].data)]
                && Free(old(buf)[b])
                && (forall o :: 0 <= o < |buf| ==> old(buf)[o].at != l)
                && (forall o :: 0 <= o < |buf| && Free(old(buf)[o]) ==> stamp[b] <= stamp[o])
    {
      hide Coherent, Linked, Onto, Aged;
      b := FindCached(l);
      if b < |buf| {
        Known(buf, disk, view, b);
        Replace(buf, disk, view, b, buf[b].(refcnt := buf[b].refcnt + 1));
        buf := buf[b := buf[b].(refcnt := buf[b].refcnt + 1)];
        return;
      }
      b := FindVictim();
      if b < |buf| {
        Known(buf, disk, view, b);
        Replace(buf, disk, view, b, Buf(l, false, false, buf[b].locked, 1, buf[b].data));
        buf := buf[b := Buf(l, false, false, buf[b].locked, 1, buf[b].data)];
      }
    }

    // Sync a buffer with the disk: write it if dirty, read it if not valid (ide.c:137-168).
    // The panic "nothing to do" is a buffer that is valid and not dirty.
    method Iderw(b: nat)
      requires Valid() && b < |buf| && buf[b].locked && buf[b].at.dev != 0 && buf[b].at in disk
      requires buf[b].dirty || !buf[b].valid
      modifies this`buf, this`disk, this`trace
      ensures Valid() && buf == old(buf)[b := old(buf)[b].(valid := true, dirty := false, data := view[old(buf)[b].at])]
      ensures old(buf)[b].dirty ==> disk == old(disk)[buf[b].at := buf[b].data] && trace == old(trace) + [disk]
      ensures !old(buf)[b].dirty ==> disk == old(disk) && trace == old(trace)
    {
      hide Coherent, Linked, Onto, Aged;
      var l := buf[b].at;
      Known(buf, disk, view, b);
      if buf[b].dirty {
        Flushed(buf, disk, view, b);
        disk := disk[l := buf[b].data];
        trace := trace + [disk];
        buf := buf[b := buf[b].(valid := true, dirty := false)];
      } else {
        Replace(buf, disk, view, b, buf[b].(valid := true, data := disk[l]));
        buf := buf[b := buf[b].(valid := true, data := disk[l])];
      }
    }

    // Take the buffer's sleep-lock.
    method Acquiresleep(b: nat)
      requires Valid() && b < |buf| && buf[b].refcnt > 0
      modifies this`buf
      ensures Valid() && buf == old(buf)[b := old(buf)[b].(locked := true)]
    {
      hide Coherent, Linked, Onto, Aged;
      Known(buf, disk, view, b);
      Replace(buf, disk, view, b, buf[b].(locked := true));
      buf := buf[b := buf[b].(locked := true)];
    }

    // A locked buffer with the contents of block `l`; the head's index stands for the panic of
    // Bget. A buffer locked by another process would be waited for (bio.c:96-106).
    method Bread(l: Loc) returns (b: nat)
      requires Valid() && l.dev != 0 && l in disk
      requires forall i :: 0 <= i < |buf| && buf[i].at == l ==> !buf[i].locked
      modifies this`buf, this`disk, this`trace
      ensures Valid() && disk == old(disk) && trace == old(trace) && b <= |buf| == |old(buf)|
      ensures b == |buf| ==> buf == old(buf) && forall o :: 0 <= o < |buf| ==> !Free(buf[o]) && buf[o].at != l
      ensures b < |buf| ==> buf == old(buf)[b := Buf(l, true, old(buf)[b].dirty, true, old(buf)[b].refcnt + 1, view[l])]
      ensures b < |buf| && old(buf)[b].at != l ==>
                && Free(old(buf)[b])
                && (forall o :: 0 <= o < |buf| ==> old(buf)[o].at != l)
                && (forall o :: 0 <= o < |buf| && Free(old(buf)[o]) ==> stamp[b] <= stamp[o])
    {
      hide Coherent, Linked, Onto, Aged;
      b := Bget(l);
      if b < |buf| {
        Known(buf, disk, view, b);
        Acquiresleep(b);
        if !buf[b].valid {
          Iderw(b);
        }
      }
    }

    // Write a locked buffer to disk (bio.c:109-116).
    method Bwrite(b: nat)
      requires Valid() && b < |buf| && buf[b].locked && buf[b].valid
      modifies this`buf, this`disk, this`trace
      ensures Valid() && buf == old(buf)[b := old(buf)[b].(dirty := false)]
      ensures disk == old(disk)[buf[b].at := buf[b].data] && trace == old(trace) + [disk]
    {
      hide Coherent, Linked, Onto, Aged;
      Known(buf, disk, view, b);
      Replace(buf, disk, view, b, buf[b].(dirty := true));
      buf := buf[b := buf[b].(dirty := true)];
      Iderw(b);
    }

    // Move buffer `b` behind the head of the list (bio.c:132-137).
    method MoveFirst(b: nat)
      requires Valid() && b < |buf|
      modifies this`prev, this`next, this`ring, this`stamp, this`clock
      ensures Valid() && ring[1] == b && stamp == old(stamp)[b := old(clock)]
    {
      hide Coherent, Linked, Aged;
      ghost var k := Place(ring, b);
      OntoMoved(ring, k);
      Younger(ring, prev, next, stamp, clock, k);
      prev, next := Splice(prev, next, b, |buf|, ring, k);
      ring, stamp, clock := Moved(ring, k), stamp[b := clock], clock + 1;
    }

    // Release a locked buffer. A user who changed it has first written or pinned it (bio.c:120-141).
    method Brelse(b: nat)
      requires Valid() && b < |buf| && buf[b].locked
      requires buf[b].valid && !buf[b].dirty ==> buf[b].data == disk[buf[b].at]
      modifies this`buf, this`prev, this`next, this`ring, this`stamp, this`clock
      ensures Valid() && buf == old(buf)[b := old(buf)[b].(locked := false, refcnt := old(buf)[b].refcnt - 1)]
      ensures buf[b].refcnt == 0 ==> ring[1] == b && stamp == old(stamp)[b := old(clock)]
      ensures buf[b].refcnt > 0 ==> ring == old(ring) && stamp == old(stamp)
    {
      hide Coherent, Linked, Onto, Aged;
      Known(buf, disk, view, b);
      Replace(buf, disk, view, b, buf[b].(locked := false, refcnt := buf[b].refcnt - 1));
      buf := buf[b := buf[b].(locked := false, refcnt := buf[b].refcnt - 1)];
      if buf[b].refcnt == 0 {
        MoveFirst(b);
      }
    }

    // The holder of a locked buffer changes its data.
    method SetData(b: nat, d: Block)
      requires Valid() && b < |buf| && buf[b].locked && buf[b].valid
      modifies this`buf, this`view
      ensures Valid() && buf == old(buf)[b := old(buf)[b].(data := d)] && view == old(view)[buf[b].at := d]
    {
      ChangeData(buf, disk, view, b, d);
      view := view[buf[b].at := d];
      buf := buf[b := buf[b].(data := d)];
    }

    // Keep a locked buffer in the cache until it is written (log.c:231).
    method Pin(b: nat)
      requires Valid() && b < |buf| && buf[b].locked && buf[b].valid
      modifies this`buf
      ensures Valid() && buf == old(buf)[b := old(buf)[b].(dirty := true)]
    {
      hide Coherent, Linked, Onto, Aged;
      Known(buf, disk, view, b);
      Replace(buf, disk, view, b, buf[b].(dirty := true));
      buf := buf[b := buf[b].(dirty := true)];
    }
  }
}
