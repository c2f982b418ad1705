/**
 * The pipe (pipe.c): a ring of 512 bytes between two 32-bit counters that only ever grow and
 * wrap around. A process that sleeps in the pipe lets the others run; what they do meanwhile
 * is a parameter, so that every interleaving is covered.
 */
module Pipe {
  import opened Seqs

  const PIPESIZE: nat := 512
  const WORD: nat := 0x1_0000_0000

  type byte = x: int | 0 <= x < 256

  /** A byte and the process that wrote it. */
  datatype Item = Item(who: nat, value: byte)

  function Bytes(s: seq<Item>): (b: seq<byte>)
    ensures |b| == |s| && forall k :: 0 <= k < |b| ==> b[k] == s[k].value
  {
    seq(|s|, k requires 0 <= k < |s| => s[k].value)
  }

  /** The bytes that process `who` wrote. */
  function From(who: nat, s: seq<Item>): (b: seq<byte>) {
    if s == [] then []
    else
      var last := s[|s| - 1];
      From(who, s[..|s| - 1]) + if last.who == who then [last.value] else []
  }

  lemma FromMore(who: nat, s: seq<Item>, it: Item)
    ensures From(who, s + [it]) == From(who, s) + if it.who == who then [it.value] else []
  {
    assert (s + [it])[..|s|] == s;
  }

  /** What the other processes do while one sleeps; a write to a full pipe and a read from an empty one wait. */
  datatype Event = Put(who: nat, value: byte) | Get | CloseRead | CloseWrite

  /** One sleep: what the others do, and whether the sleeper has been killed when it wakes. */
  datatype Turn = Turn(events: seq<Event>, killed: bool)

  datatype Result = Done | Failed | Waiting

  predicate OthersOnly(who: nat, events: seq<Event>) {
    forall e :: e in events ==> e.Put? ==> e.who != who
  }

  // ----- The pipe as a queue -----

  /** Every byte ever written, how many of them have been read, and which ends are open. */
  datatype Queue = Queue(stored: seq<Item>, taken: nat, readopen: bool, writeopen: bool)

  /** How many bytes are in the queue. */
  function Held(q: Queue): (n: int) {
    |q.stored| - q.taken
  }

  function Moved(q: Queue, e: Event): (t: Queue) {
    match e
    case Put(who, value) => if Held(q) == PIPESIZE then q else q.(stored := q.stored + [Item(who, value)])
    case Get => if Held(q) == 0 then q else q.(taken := q.taken + 1)
    case CloseRead => q.(readopen := false)
    case CloseWrite => q.(writeopen := false)
  }

  function Played(q: Queue, events: seq<Event>): (t: Queue) {
    if events == [] then q else Moved(Played(q, events[..|events| - 1]), events[|events| - 1])
  }

  /** Nothing that was written or read is undone, and process `me` writes nothing. */
  ghost predicate Later(me: nat, q: Queue, t: Queue) {
    && q.stored <= t.stored && q.taken <= t.taken && 0 <= Held(t) <= PIPESIZE
    && From(me, t.stored) == From(me, q.stored)
  }

  lemma {:induction false} PlayedLater(me: nat, q: Queue, events: seq<Event>)
    requires OthersOnly(me, events) && 0 <= Held(q) <= PIPESIZE
    ensures Later(me, q, Played(q, events))
  {
    if events != [] {
      var before, e := Played(q, events[..|events| - 1]), events[|events| - 1];
      PlayedLater(me, q, events[..|events| - 1]);
      if e.Put? {
        FromMore(me, before.stored, Item(e.who, e.value));
      }
    }
  }

  /** Whether the process has been killed when it wakes from sleep number `used`. */
  predicate Killed(killed: bool, turns: seq<Turn>, used: nat)
    requires used <= |turns|
  {
    if used == 0 then killed else turns[used - 1].killed
  }

  /** How a write ends, the queue then, the number of bytes written, and the number of sleeps. */
  datatype WriteEnd = WriteEnd(r: Result, q: Queue, sent: nat, used: nat)

  /** What becomes of a write of which `i` bytes are in the queue after `used` sleeps. */
  function Writing(q: Queue, me: nat, addr: seq<byte>, i: nat, killed: bool, turns: seq<Turn>, used: nat): (w: WriteEnd)
    requires i <= |addr| && used <= |turns|
    decreases |turns| - used, |addr| - i
  {
    if i == |addr| then WriteEnd(Done, q, i, used)
    else if Held(q) != PIPESIZE then Writing(Moved(q, Put(me, addr[i])), me, addr, i + 1, killed, turns, used)
    else if !q.readopen || Killed(killed, turns, used) then WriteEnd(Failed, q, i, used)
    else if used == |turns| then WriteEnd(Waiting, q, i, used)
    else Writing(Played(q, turns[used].events), me, addr, i, killed, turns, used + 1)
  }

  /** A write puts its bytes in, in order, whatever the others put between them. It ends short only with the pipe full:
      it fails if no reader is left or the writer has been killed, and waits still if all its sleeps are over. */
  lemma {:induction false} WritingMeans(q: Queue, me: nat, addr: seq<byte>, i: nat, killed: bool, turns: seq<Turn>, used: nat)
    requires i <= |addr| && used <= |turns| && 0 <= Held(q) <= PIPESIZE
    requires forall t :: t in turns ==> OthersOnly(me, t.events)
    ensures var w := Writing(q, me, addr, i, killed, turns, used);
            && i <= w.sent <= |addr| && used <= w.used <= |turns|
            && q.stored <= w.q.stored && q.taken <= w.q.taken && 0 <= Held(w.q) <= PIPESIZE
            && From(me, w.q.stored) == From(me, q.stored) + addr[i..w.sent]
            && (w.r.Done? <==> w.sent == |addr|)
            && (!w.r.Done? ==> Held(w.q) == PIPESIZE)
            && (w.r.Failed? ==> !w.q.readopen || Killed(killed, turns, w.used))
            && (w.r.Waiting? ==> w.q.readopen && !Killed(killed, turns, w.used) && w.used == |turns|)
    decreases |turns| - used, |addr| - i
  {
    hide Played, From;
    var w := Writing(q, me, addr, i, killed, turns, used);
    if i == |addr| {
    } else if Held(q) != PIPESIZE {
      FromMore(me, q.stored, Item(me, addr[i]));
      WritingMeans(Moved(q, Put(me, addr[i])), me, addr, i + 1, killed, turns, used);
      assert addr[i..w.sent] == [addr[i]] + addr[i + 1..w.sent];
    } else if q.readopen && !Killed(killed, turns, used) && used < |turns| {
      var p := Played(q, turns[used].events);
      PlayedLater(me, q, turns[used].events);
      WritingMeans(p, me, addr, i, killed, turns, used + 1);
    }
  }

  /** How a reader stops waiting, the queue then, and the number of sleeps. */
  datatype ReadStart = ReadStart(r: Result, q: Queue, used: nat)

  /** What becomes of a reader after `used` sleeps. */
  function Reading(q: Queue, killed: bool, turns: seq<Turn>, used: nat): (w: ReadStart)
    requires used <= |turns|
    decreases |turns| - used
  {
    if Held(q) != 0 || !q.writeopen then ReadStart(Done, q, used)
    else if Killed(killed, turns, used) then ReadStart(Failed, q, used)
    else if used == |turns| then ReadStart(Waiting, q, used)
    else Reading(Played(q, turns[used].events), killed, turns, used + 1)
  }

  /** A reader finds bytes or no writer, unless the pipe stays empty: then it fails if it has been killed, and waits
      still if all its sleeps are over. */
  lemma {:induction false} ReadingMeans(q: Queue, me: nat, killed: bool, turns: seq<Turn>, used: nat)
    requires used <= |turns| && 0 <= Held(q) <= PIPESIZE && forall t :: t in turns ==> OthersOnly(me, t.events)
    ensures var w := Reading(q, killed, turns, used);
            && used <= w.used <= |turns| && Later(me, q, w.q)
            && (w.r.Done? ==> Held(w.q) > 0 || !w.q.writeopen)
            && (!w.r.Done? ==> Held(w.q) == 0 && w.q.writeopen)
            && (w.r.Failed? ==> Killed(killed, turns, w.used))
            && (w.r.Waiting? ==> !Killed(killed, turns, w.used) && w.used == |turns|)
    decreases |turns| - used
  {
    hide Played, From;
    if Held(q) == 0 && q.writeopen && !Killed(killed, turns, used) && used < |turns| {
      PlayedLater(me, q, turns[used].events);
      ReadingMeans(Played(q, turns[used].events), me, killed, turns, used + 1);
    }
  }

  // ----- The ring -----

  /** The slot of the ring that is `k` behind the counter `r`. */
  function SlotOf(r: nat, k: nat): (i: nat)
    ensures i < PIPESIZE
  {
    (r + k) % WORD % PIPESIZE
  }

  lemma SameSlot(y: nat, q: nat)
    ensures (y + PIPESIZE * q) % PIPESIZE == y % PIPESIZE
  {
    assert y == PIPESIZE * (y / PIPESIZE) + y % PIPESIZE;
    assert y + PIPESIZE * q == PIPESIZE * (y / PIPESIZE + q) + y % PIPESIZE;
  }

  lemma SameWord(y: nat, q: nat)
    ensures (y + WORD * q) % WORD == y % WORD
  {
    assert y == WORD * (y / WORD) + y % WORD;
    assert y + WORD * q == WORD * (y / WORD + q) + y % WORD;
  }

  lemma SlotOfWord(x: nat)
    ensures x % WORD % PIPESIZE == x % PIPESIZE
  {
    var q := x / WORD;
    SameSlot(x % WORD, 0x80_0000 * q);
    assert x == x % WORD + PIPESIZE * (0x80_0000 * q);
  }

  /** The wrap-around of the counters does not show in the slots: 512 divides 2^32. */
  lemma Wraps(n: nat, k: nat)
    ensures SlotOf(n, k) == (n + k) % PIPESIZE && (n % WORD + k) % WORD == (n + k) % WORD
  {
    SlotOfWord(n + k);
    SameWord(n % WORD + k, n / WORD);
    assert n + k == n % WORD + k + WORD * (n / WORD);
  }

  lemma FarApart(x: nat, y: nat)
    requires x < y && x % PIPESIZE == y % PIPESIZE
    ensures y - x >= PIPESIZE
  {
    assert x / PIPESIZE < y / PIPESIZE;
  }

  lemma SlotsApart(r: nat, j: nat, k: nat)
    requires j < k < PIPESIZE
    ensures SlotOf(r, j) != SlotOf(r, k)
  {
    Wraps(r, j);
    Wraps(r, k);
    hide SlotOf;
    if (r + j) % PIPESIZE == (r + k) % PIPESIZE {
      FarApart(r + j, r + k);
    }
  }

  lemma NextSlot(r: nat, k: nat)
    ensures SlotOf(Up(r), k) == SlotOf(r, k + 1) && Up(r % WORD) == Up(r)
  {
    Wraps(r + 1, k);
    Wraps(r, 1);
  }

  /** The `n` bytes of the ring from the counter `r` on. */
  function Ring(d: seq<byte>, r: nat, n: nat): (b: seq<byte>)
    requires |d| == PIPESIZE
    ensures |b| == n && forall k :: 0 <= k < n ==> b[k] == d[SlotOf(r, k)]
  {
    seq(n, k requires 0 <= k => d[SlotOf(r, k)])
  }

  lemma RingPut(d: seq<byte>, r: nat, n: nat, x: byte)
    requires |d| == PIPESIZE && n < PIPESIZE
    ensures Ring(d[SlotOf(r, n) := x], r, n + 1) == Ring(d, r, n) + [x]
  {
    hide SlotOf;
    forall k: nat | k < n ensures SlotOf(r, k) != SlotOf(r, n) {
      SlotsApart(r, k, n);
    }
  }

  lemma RingGet(d: seq<byte>, r: nat, n: nat)
    requires |d| == PIPESIZE && n > 0
    ensures Ring(d, r, n) == [d[SlotOf(r, 0)]] + Ring(d, Up(r), n - 1)
  {
    hide SlotOf;
    var q := Up(r);
    forall k: nat | k < n - 1 ensures SlotOf(q, k) == SlotOf(r, k + 1) {
      NextSlot(r, k);
    }
  }

  /** A counter one further, wrapped around. */
  function Up(n: nat): (m: nat)
    ensures m < WORD && (n < WORD ==> m == if n + 1 == WORD then 0 else n + 1)
  {
    (n + 1) % WORD
  }

  lemma Modulo(n: nat)
    ensures (n + 1) % WORD == Up(n)
  {
  }

  /** How far the counter `w` is ahead of `r`. */
  function Ahead(w: nat, r: nat): (n: nat)
    requires r < WORD && w < WORD
    ensures n < WORD && n == if r <= w then w - r else w - r + WORD
  {
    (w - r) % WORD
  }

  lemma Counts(r: nat, w: nat)
    requires r < WORD && w < WORD
    ensures Ahead(w, r) < PIPESIZE ==> Ahead(Up(w), r) == Ahead(w, r) + 1
    ensures Ahead(w, r) > 0 ==> Ahead(w, Up(r)) == Ahead(w, r) - 1
    ensures w == r <==> Ahead(w, r) == 0
  {
    hide Up, Ahead;
  }

  lemma Places(r: nat, w: nat)
    requires r < WORD && w < WORD
    ensures w == (r + PIPESIZE) % WORD <==> Ahead(w, r) == PIPESIZE
    ensures w % PIPESIZE == SlotOf(r, Ahead(w, r)) && r % PIPESIZE == SlotOf(r, 0)
  {
    hide Ahead;
    assert (r + Ahead(w, r)) % WORD == w;
  }

  class Pipe {
    const data: array<byte>
    var nread: nat
    var nwrite: nat
    var readopen: bool
    var writeopen: bool
    ghost var stored: seq<Item>      // every byte ever written, in order
    ghost var returned: seq<byte>    // every byte ever read, in order

    /** How many bytes the counters say are in the ring. */
    function Count(): (n: nat)
      requires nread < WORD && nwrite < WORD
      reads this
    {
      Ahead(nwrite, nread)
    }

    /** The bytes in the ring, oldest first. */
    function Buffered(): (b: seq<byte>)
      requires data.Length == PIPESIZE && nread < WORD && nwrite < WORD
      reads this, data
    {
      Ring(data[..], nread, Count())
    }

    /** The bytes read and then those in the ring are the bytes written. */
    ghost predicate Valid()
      reads this, data
    {
      && data.Length == PIPESIZE && nread < WORD && nwrite < WORD
      && nread == |returned| % WORD
      && Count() <= PIPESIZE
      && returned + Buffered() == Bytes(stored)
    }

    /** pipe.c:32-35 */
    constructor ()
      ensures Valid() && fresh(data) && Count() == 0 && stored == [] && returned == [] && readopen && writeopen
    {
      data := new byte[PIPESIZE];
      nread, nwrite, readopen, writeopen := 0, 0, true, true;
      stored, returned := [], [];
    }

    /** pipe.c:93 */
    method PutByte(ghost who: nat, x: byte)
      requires Valid() && nwrite != (nread + PIPESIZE) % WORD
      modifies this`nwrite, this`stored, data
      ensures Valid() && Count() == old(Count()) + 1
      ensures stored == old(stored) + [Item(who, x)]
    {
      ghost var d, n := data[..], Count();
      Counts(nread, nwrite);
      Places(nread, nwrite);
      hide SlotOf, Ring, Up, Ahead;
      RingPut(d, nread, n, x);
      data[nwrite % PIPESIZE] := x;
      assert data[..] == d[SlotOf(nread, n) := x];
      nwrite := Up(nwrite);
      stored := stored + [Item(who, x)];
      assert Bytes(stored) == Bytes(old(stored)) + [x];
    }

    /** pipe.c:116 */
    method GetByte() returns (x: byte)
      requires Valid() && nread != nwrite
      modifies this`nread, this`returned
      ensures Valid() && Count() == old(Count()) - 1
      ensures returned == old(returned) + [x]
    {
      Counts(nread, nwrite);
      Places(nread, nwrite);
      NextSlot(|returned|, 0);
      Modulo(|returned|);
      hide SlotOf, Ring, Up, Ahead;
      RingGet(data[..], nread, Count());
      x := data[nread % PIPESIZE];
      nread := Up(nread);
      returned := returned + [x];
      assert returned + Buffered() == old(returned) + old(Buffered());
    }

    /** pipe.c:59-75; freeing the page when both ends are closed is left to the caller */
    method Close(writable: bool)
      requires Valid()
      modifies this`readopen, this`writeopen
      ensures Valid() && writeopen == (old(writeopen) && !writable) && readopen == (old(readopen) && writable)
    {
      if writable {
        writeopen := false;
      } else {
        readopen := false;
      }
    }

    /** The pipe as a queue. */
    ghost function State(): (q: Queue)
      reads this
    {
      Queue(stored, |returned|, readopen, writeopen)
    }

    method Act(e: Event)
      requires Valid()
      modifies this, data
      ensures Valid() && State() == Moved(old(State()), e)
      ensures old(returned) <= returned
    {
      hide Ring, Ahead, Up;
      Places(nread, nwrite);
      Counts(nread, nwrite);
      match e
      case Put(who, value) =>
        if nwrite != (nread + PIPESIZE) % WORD {
          PutByte(who, value);
        }
      case Get =>
        if nread != nwrite {
          var _ := GetByte();
        }
      case CloseRead => Close(false);
      case CloseWrite => Close(true);
    }

    /** What the other processes do while one sleeps. */
    method Others(events: seq<Event>)
      requires Valid()
      modifies this, data
      ensures Valid() && State() == Played(old(State()), events)
      ensures old(returned) <= returned
    {
      hide Ring, Ahead, Up, Bytes, Moved;
      for i := 0 to |events|
        invariant Valid() && State() == Played(old(State()), events[..i])
        invariant old(returned) <= returned
      {
        assert events[..i + 1][..i] == events[..i];
        Act(events[i]);
      }
      assert events[..|events|] == events;
    }

    /** The queue holds what the counters say. */
    lemma HeldIs()
      requires Valid()
      ensures Held(State()) == Count() && returned <= Bytes(stored)
      ensures Count() == 0 <==> nread == nwrite
      ensures Count() == PIPESIZE <==> nwrite == (nread + PIPESIZE) % WORD
    {
      Places(nread, nwrite);
      Counts(nread, nwrite);
    }

    /**
     * The bytes of `addr` go in, in order, whatever the others put between them (pipe.c:79-98). `killed` and
     * `turns` say how each sleep of the writer ends; it has slept `used` times.
     */
    method Write(ghost me: nat, addr: seq<byte>, killed: bool, turns: seq<Turn>)
      returns (r: Result, ghost sent: nat, ghost used: nat)
      requires Valid() && forall t :: t in turns ==> OthersOnly(me, t.events)
      modifies this, data
      ensures Valid() && WriteEnd(r, State(), sent, used) == Writing(old(State()), me, addr, 0, killed, turns, 0)
      ensures old(stored) <= stored && old(returned) <= returned && sent <= |addr| && used <= |turns|
      ensures From(me, stored) == From(me, old(stored)) + addr[..sent]
      ensures r.Done? <==> sent == |addr|
      ensures !r.Done? ==> Count() == 512
      ensures r.Failed? ==> !readopen || Killed(killed, turns, used)
      ensures r.Waiting? ==> readopen && !Killed(killed, turns, used) && used == |turns|
    {
      hide Ring, Ahead, Up, From, Bytes, Played;
      HeldIs();
      WritingMeans(State(), me, addr, 0, killed, turns, 0);
      used := 0;
      var turn := 0;
      for i := 0 to |addr|
        invariant Valid() && old(returned) <= returned && turn <= |turns|
        invariant Writing(State(), me, addr, i, killed, turns, turn) == Writing(old(State()), me, addr, 0, killed, turns, 0)
      {
        while nwrite == (nread + PIPESIZE) % WORD
          invariant Valid() && old(returned) <= returned && turn <= |turns|
          invariant Writing(State(), me, addr, i, killed, turns, turn) == Writing(old(State()), me, addr, 0, killed, turns, 0)
          decreases |turns| - turn
        {
          HeldIs();
          if !readopen || Killed(killed, turns, turn) {
            return Failed, i, turn;
          }
          if turn == |turns| {
            return Waiting, i, turn;
          }
          Others(turns[turn].events);
          turn := turn + 1;
        }
        HeldIs();
        PutByte(me, addr[i]);
      }
      return Done, |addr|, turn;
    }

    /** The oldest bytes, at most `n` (pipe.c:112-117). */
    method Take(n: nat) returns (bytes: seq<byte>)
      requires Valid()
      modifies this`nread, this`returned
      ensures Valid() && |bytes| == Min(n, old(Count())) && returned == old(returned) + bytes
    {
      hide Ring, Ahead, Up, Bytes;
      bytes := [];
      var i := 0;
      while i < n
        invariant Valid() && i == |bytes| <= n && Count() == old(Count()) - i
        invariant returned == old(returned) + bytes
      {
        HeldIs();
        if nread == nwrite {
          break;
        }
        var x := GetByte();
        bytes := bytes + [x];
        i := i + 1;
      }
      HeldIs();
    }

    /**
     * The oldest bytes come out, at most `n`, as many as there are when the reader stops waiting (pipe.c:101-121).
     * Nothing comes out only when nothing was asked for or the pipe is empty and no writer is left.
     */
    method Read(ghost me: nat, n: nat, killed: bool, turns: seq<Turn>)
      returns (r: Result, bytes: seq<byte>, ghost before: seq<byte>, ghost used: nat)
      requires Valid() && forall t :: t in turns ==> OthersOnly(me, t.events)
      modifies this, data
      ensures var w := Reading(old(State()), killed, turns, 0);
              && r == w.r && used == w.used && |before| == w.q.taken
              && State() == w.q.(taken := w.q.taken + |bytes|)
              && |bytes| == if r.Done? then Min(n, Held(w.q)) else 0
      ensures Valid() && old(stored) <= stored && old(returned) <= before && used <= |turns|
      ensures returned == before + bytes && returned <= Bytes(stored)
      ensures !r.Done? ==> Count() == 0 && writeopen
      ensures r.Failed? ==> Killed(killed, turns, used)
      ensures r.Waiting? ==> !Killed(killed, turns, used) && used == |turns|
      ensures r.Done? && bytes == [] ==> n == 0 || !writeopen
    {
      hide Ring, Ahead, Up, From, Bytes, Played;
      HeldIs();
      ReadingMeans(State(), me, killed, turns, 0);
      used := 0;
      var turn := 0;
      while nread == nwrite && writeopen
        invariant Valid() && old(returned) <= returned && turn <= |turns|
        invariant Reading(State(), killed, turns, turn) == Reading(old(State()), killed, turns, 0)
        decreases |turns| - turn
      {
        HeldIs();
        if Killed(killed, turns, turn) {
          return Failed, [], returned, turn;
        }
        if turn == |turns| {
          return Waiting, [], returned, turn;
        }
        Others(turns[turn].events);
        turn := turn + 1;
      }
      HeldIs();
      before := returned;
      bytes := Take(n);
      HeldIs();
      return Done, bytes, before, turn;
    }
  }
}
