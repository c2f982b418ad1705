/** Inode contents and block allocation (fs.c), on the blocks as the log presents them. */
module Fs {
  import opened Seqs

  const BSIZE: nat := 512
  const NDIRECT: nat := 12
  const NINDIRECT: nat := 128
  const MAXFILE: nat := NDIRECT + NINDIRECT

  /** A 32-bit unsigned integer wraps here. */
  const U32: nat := 0x1_0000_0000

  type byte = x: int | 0 <= x < 256

  type Block = b: seq<byte> | |b| == BSIZE witness seq(BSIZE, _ => 0)

  const ZERO: Block := seq(BSIZE, _ => 0)

  datatype Inode = Inode(typ: int, major: int, minor: int, nlink: int, size: nat, addrs: seq<nat>)

  // ----- Words in a block -----

  /** Word `i` of a block, least significant byte first. */
  function GetWord(b: Block, i: nat): (w: nat)
    requires i < NINDIRECT
    ensures w < U32
  {
    Joined(b[4 * i], b[4 * i + 1], b[4 * i + 2], b[4 * i + 3])
  }

  function Joined(b0: int, b1: int, b2: int, b3: int): (w: int) {
    b0 + 0x100 * b1 + 0x1_0000 * b2 + 0x100_0000 * b3
  }

  function PutWord(b: Block, i: nat, w: nat): (c: Block)
    requires i < NINDIRECT && w < U32
  {
    b[4 * i := w % 0x100][4 * i + 1 := w / 0x100 % 0x100][4 * i + 2 := w / 0x1_0000 % 0x100][4 * i + 3 := w / 0x100_0000]
  }

  lemma Rejoined(w: nat)
    requires w < U32
    ensures Joined(w % 0x100, w / 0x100 % 0x100, w / 0x1_0000 % 0x100, w / 0x100_0000) == w
  {
    var w1 := w / 0x100;
    var w2 := w1 / 0x100;
    assert w / 0x1_0000 == w2 && w / 0x100_0000 == w2 / 0x100;
    assert w == w % 0x100 + 0x100 * w1 && w1 == w1 % 0x100 + 0x100 * w2 && w2 == w2 % 0x100 + 0x100 * (w2 / 0x100);
  }

  lemma PutThenGet(b: Block, i: nat, w: nat, j: nat)
    requires i < NINDIRECT && j < NINDIRECT && w < U32
    ensures GetWord(PutWord(b, i, w), j) == if i == j then w else GetWord(b, j)
  {
    hide Joined;
    Rejoined(w);
    if i != j {
      assert 4 * j + 3 < 4 * i || 4 * i + 3 < 4 * j;
    }
  }

  /** Bytes 4w to 4w + 3 of the block spell the address `a`, least significant byte first. */
  predicate Spells(b: seq<int>, w: nat, a: nat) {
    |b| == 512 && w < 128 && a == b[4 * w] + 256 * b[4 * w + 1] + 65536 * b[4 * w + 2] + 16777216 * b[4 * w + 3]
  }

  /** Only bytes 4w to 4w + 3 of the block may have changed. */
  ghost predicate OnlyWord(b: Block, c: Block, w: nat) {
    forall k :: 0 <= k < 512 && !(4 * w <= k < 4 * w + 4) ==> c[k] == b[k]
  }

  /** All but bytes 4w to 4w + 3 of the block are zero. */
  ghost predicate ZeroElse(c: Block, w: nat) {
    forall k :: 0 <= k < 512 && !(4 * w <= k < 4 * w + 4) ==> c[k] == 0
  }

  lemma Unwritten(b: Block, c: Block, w: nat)
    ensures OnlyWord(b, b, w)
    ensures b == ZERO && OnlyWord(b, c, w) ==> ZeroElse(c, w)
  {
  }

  lemma WordBytes(b: Block, w: nat, a: nat)
    requires w < NINDIRECT && a < U32
    ensures Spells(b, w, GetWord(b, w)) && Spells(PutWord(b, w, a), w, a) && OnlyWord(b, PutWord(b, w, a), w)
  {
    PutThenGet(b, w, a, w);
  }

  lemma ZeroWords(i: nat)
    requires i < NINDIRECT
    ensures GetWord(ZERO, i) == 0
  {
  }

  /** Block `bn` of a file is at address `a`, as the inode says or, from the thirteenth on, bytes of the indirect block.
      All other addresses are as they were; an indirect block that was not there starts out zero. */
  ghost predicate Located(blk0: seq<Block>, ip0: Inode, blk: seq<Block>, ip: Inode, bn: nat, a: nat) {
    && |ip0.addrs| == |ip.addrs| == 13 && |blk0| == |blk| && bn < 140
    && (forall s :: 0 <= s < 12 && s != bn ==> ip.addrs[s] == ip0.addrs[s])
    && if bn < 12 then a == ip.addrs[bn] && ip.addrs[12] == ip0.addrs[12]
       else
         var x := ip.addrs[12];
         && 0 < x < |blk| && Spells(blk[x], bn - 12, a) && (ip0.addrs[12] != 0 ==> x == ip0.addrs[12])
         && if ip0.addrs[12] == 0 then ZeroElse(blk[x], bn - 12) else OnlyWord(blk0[x], blk[x], bn - 12)
  }

  // ----- Addresses -----

  /** The places an inode has for addresses: its direct blocks, the indirect block, and the words in that. */
  const SLOTS: nat := NDIRECT + 1 + NINDIRECT

  /** The slot of file block `bn`. */
  function SlotOf(bn: nat): (s: nat) {
    if bn < NDIRECT then bn else bn + 1
  }

  predicate InodeOk(ip: Inode, nblocks: nat) {
    |ip.addrs| == NDIRECT + 1 && forall s :: 0 <= s <= NDIRECT ==> ip.addrs[s] < nblocks
  }

  /** The block address in slot `s`; zero if there is none. */
  function AddrOf(blk: seq<Block>, ip: Inode, s: nat): (a: nat)
    requires s < SLOTS && InodeOk(ip, |blk|)
  {
    if s <= NDIRECT then ip.addrs[s]
    else if ip.addrs[NDIRECT] == 0 then 0
    else GetWord(blk[ip.addrs[NDIRECT]], s - NDIRECT - 1)
  }

  ghost predicate InodesFit(blk: seq<Block>, ino: seq<Inode>) {
    forall j :: 0 <= j < |ino| ==> InodeOk(ino[j], |blk|)
  }

  /** Which inode and slot a block belongs to. */
  datatype Owner = Owner(inum: nat, slot: nat)

  ghost predicate SlotOk(bit: seq<bool>, blk: seq<Block>, ino: seq<Inode>, owner: map<nat, Owner>, i: nat, s: nat)
    requires i < |ino| && s < SLOTS && InodeOk(ino[i], |blk|) && |bit| == |blk|
  {
    var a := AddrOf(blk, ino[i], s);
    a < |blk| && (a != 0 ==> a in owner && owner[a] == Owner(i, s) && bit[a])
  }

  ghost predicate BlockOk(bit: seq<bool>, blk: seq<Block>, ino: seq<Inode>, owner: map<nat, Owner>, a: nat)
    requires a in owner && |bit| == |blk| && InodesFit(blk, ino)
  {
    && a < |blk| && bit[a]
    && owner[a].inum < |ino| && owner[a].slot < SLOTS && AddrOf(blk, ino[owner[a].inum], owner[a].slot) == a
  }

  /** Every block in use is in exactly one slot of one inode, and the bitmap marks just the blocks in use
      and the first `meta` blocks of the disk. */
  ghost predicate Owned(bit: seq<bool>, blk: seq<Block>, ino: seq<Inode>, owner: map<nat, Owner>, meta: nat) {
    && 0 < meta <= |blk| == |bit| <= U32
    && InodesFit(blk, ino)
    && (forall i: nat, s: nat :: i < |ino| && s < SLOTS ==> SlotOk(bit, blk, ino, owner, i, s))
    && (forall a: nat :: a in owner ==> meta <= a && BlockOk(bit, blk, ino, owner, a))
    && (forall a: nat :: a < |bit| ==> (bit[a] <==> a < meta || a in owner))
  }

  /** No block is in two slots. */
  lemma ReferencedOnce(bit: seq<bool>, blk: seq<Block>, ino: seq<Inode>, owner: map<nat, Owner>, meta: nat,
                       i: nat, s: nat, j: nat, t: nat)
    requires Owned(bit, blk, ino, owner, meta) && i < |ino| && j < |ino| && s < SLOTS && t < SLOTS
    requires AddrOf(blk, ino[i], s) == AddrOf(blk, ino[j], t) != 0
    ensures i == j && s == t
  {
    assert SlotOk(bit, blk, ino, owner, i, s) && SlotOk(bit, blk, ino, owner, j, t);
  }

  // ----- Contents -----

  /** Byte `k` of a file; a block that is not there reads as zeros. */
  function ByteAt(blk: seq<Block>, ip: Inode, k: nat): (x: byte)
    requires k < MAXFILE * BSIZE && InodeOk(ip, |blk|)
  {
    var a := AddrOf(blk, ip, SlotOf(k / BSIZE));
    if 0 < a < |blk| then blk[a][k % BSIZE] else 0
  }

  /** What the files hold is the same, byte for byte. */
  ghost predicate SameBytes(blk: seq<Block>, ino: seq<Inode>, blk': seq<Block>, ino': seq<Inode>)
    requires InodesFit(blk, ino)
    requires InodesFit(blk', ino')
  {
    |ino| == |ino'| && forall i: nat, k: nat :: i < |ino| && k < MAXFILE * BSIZE ==>
      ByteAt(blk', ino'[i], k) == ByteAt(blk, ino[i], k)
  }

  /** No block is taken away from a slot. */
  ghost predicate SlotsKept(blk: seq<Block>, ino: seq<Inode>, blk': seq<Block>, ino': seq<Inode>)
    requires InodesFit(blk, ino)
    requires InodesFit(blk', ino')
  {
    |ino| == |ino'| && forall i: nat, s: nat :: i < |ino| && s < SLOTS && AddrOf(blk, ino[i], s) != 0 ==>
      AddrOf(blk', ino'[i], s) == AddrOf(blk, ino[i], s)
  }

  // ----- Allocation -----

  /** Slot `s` of inode `i`, one of the addresses in the inode itself, gets the free block `b`. */
  lemma FillSlot(bit: seq<bool>, blk: seq<Block>, ino: seq<Inode>, owner: map<nat, Owner>, meta: nat, i: nat, s: nat, b: nat)
    requires Owned(bit, blk, ino, owner, meta) && i < |ino| && s <= NDIRECT && ino[i].addrs[s] == 0
    requires b < |bit| && !bit[b]
    ensures
      var blk' := blk[b := ZERO];
      var ino' := ino[i := ino[i].(addrs := ino[i].addrs[s := b])];
      && InodesFit(blk', ino')
      && (forall j: nat, t: nat :: j < |ino| && t < SLOTS ==>
            AddrOf(blk', ino'[j], t) == if j == i && t == s then b else AddrOf(blk, ino[j], t))
  {
    hide GetWord, PutWord;
    var blk' := blk[b := ZERO];
    var ino' := ino[i := ino[i].(addrs := ino[i].addrs[s := b])];
    forall j: nat, t: nat | j < |ino| && t < SLOTS
      ensures AddrOf(blk', ino'[j], t) == if j == i && t == s then b else AddrOf(blk, ino[j], t)
    {
      assert SlotOk(bit, blk, ino, owner, j, NDIRECT);
      if t > NDIRECT {
        ZeroWords(t - NDIRECT - 1);
      }
    }
  }

  /** Word `w` of the indirect block of inode `i` gets the free block `b`. */
  lemma FillWord(bit: seq<bool>, blk: seq<Block>, ino: seq<Inode>, owner: map<nat, Owner>, meta: nat, i: nat, w: nat, b: nat)
    requires Owned(bit, blk, ino, owner, meta) && i < |ino| && w < NINDIRECT && ino[i].addrs[NDIRECT] != 0
    requires b < |bit| && !bit[b]
    ensures
      var x := ino[i].addrs[NDIRECT];
      var blk' := blk[b := ZERO][x := PutWord(blk[x], w, b)];
      && x != b
      && (forall j: nat, t: nat :: j < |ino| && t < SLOTS ==>
            AddrOf(blk', ino[j], t) == if j == i && t == NDIRECT + 1 + w then b else AddrOf(blk, ino[j], t))
  {
    hide GetWord, PutWord;
    var x := ino[i].addrs[NDIRECT];
    var blk' := blk[b := ZERO][x := PutWord(blk[x], w, b)];
    assert SlotOk(bit, blk, ino, owner, i, NDIRECT);
    forall j: nat, t: nat | j < |ino| && t < SLOTS
      ensures AddrOf(blk', ino[j], t) == if j == i && t == NDIRECT + 1 + w then b else AddrOf(blk, ino[j], t)
    {
      assert SlotOk(bit, blk, ino, owner, j, NDIRECT);
      if t > NDIRECT {
        PutThenGet(blk[x], w, b, t - NDIRECT - 1);
      }
    }
  }

  /** Giving a free block to an empty slot keeps the ownership in order and changes no file. */
  lemma Filled(bit: seq<bool>, blk: seq<Block>, ino: seq<Inode>, owner: map<nat, Owner>, meta: nat,
               blk': seq<Block>, ino': seq<Inode>, i: nat, s: nat, b: nat)
    requires Owned(bit, blk, ino, owner, meta) && i < |ino| && s < SLOTS && AddrOf(blk, ino[i], s) == 0
    requires b < |bit| && !bit[b] && |blk'| == |blk| && |ino'| == |ino|
    requires InodesFit(blk', ino')
    requires forall j: nat, t: nat :: j < |ino| && t < SLOTS ==>
               AddrOf(blk', ino'[j], t) == if j == i && t == s then b else AddrOf(blk, ino[j], t)
    requires blk'[b] == ZERO
    requires forall a: nat :: a < |blk| && a != b && a in owner && owner[a].slot != NDIRECT ==> blk'[a] == blk[a]
    ensures Owned(bit[b := true], blk', ino', owner[b := Owner(i, s)], meta)
    ensures SameBytes(blk, ino, blk', ino') && SlotsKept(blk, ino, blk', ino')
  {
    hide GetWord, AddrOf;
    var bit', owner' := bit[b := true], owner[b := Owner(i, s)];
    forall j: nat, t: nat | j < |ino'| && t < SLOTS ensures SlotOk(bit', blk', ino', owner', j, t) {
      assert SlotOk(bit, blk, ino, owner, j, t);
    }
    forall a: nat | a in owner' ensures meta <= a && BlockOk(bit', blk', ino', owner', a) {
      if a != b {
        assert BlockOk(bit, blk, ino, owner, a);
      }
    }
    forall j: nat, k: nat | j < |ino| && k < MAXFILE * BSIZE ensures ByteAt(blk', ino'[j], k) == ByteAt(blk, ino[j], k) {
      var t := SlotOf(k / BSIZE);
      assert SlotOk(bit, blk, ino, owner, j, t);
    }
  }

  // ----- Writing data -----

  /** A block with `bytes` copied over it from place `o` on. */
  function Over(b: Block, o: nat, bytes: seq<byte>): (c: Block)
    requires o + |bytes| <= BSIZE
    ensures forall x :: 0 <= x < BSIZE ==> c[x] == if o <= x < o + |bytes| then bytes[x - o] else b[x]
  {
    b[..o] + bytes + b[o + |bytes|..]
  }

  /** Writing to a data block leaves every address where it is. */
  lemma DataKeepsAddrs(bit: seq<bool>, blk: seq<Block>, ino: seq<Inode>, owner: map<nat, Owner>, meta: nat, i: nat, s: nat, c: Block)
    requires Owned(bit, blk, ino, owner, meta) && i < |ino| && s < SLOTS && s != NDIRECT && AddrOf(blk, ino[i], s) != 0
    ensures AddrOf(blk, ino[i], s) < |blk|
    ensures var blk' := blk[AddrOf(blk, ino[i], s) := c];
            forall j: nat, t: nat :: j < |ino| && t < SLOTS ==> AddrOf(blk', ino[j], t) == AddrOf(blk, ino[j], t)
  {
    hide GetWord;
    assert SlotOk(bit, blk, ino, owner, i, s);
    var a := AddrOf(blk, ino[i], s);
    var blk' := blk[a := c];
    forall j: nat, t: nat | j < |ino| && t < SLOTS ensures AddrOf(blk', ino[j], t) == AddrOf(blk, ino[j], t) {
      assert SlotOk(bit, blk, ino, owner, j, NDIRECT);
    }
  }

  /** Copying `bytes` into file block `bn` changes those bytes of that file and nothing else. */
  lemma DataWritten(bit: seq<bool>, blk: seq<Block>, ino: seq<Inode>, owner: map<nat, Owner>, meta: nat,
                    i: nat, bn: nat, o: nat, bytes: seq<byte>)
    requires Owned(bit, blk, ino, owner, meta) && i < |ino| && bn < MAXFILE && o + |bytes| <= BSIZE
    requires AddrOf(blk, ino[i], SlotOf(bn)) != 0
    ensures AddrOf(blk, ino[i], SlotOf(bn)) < |blk|
    ensures
      var a := AddrOf(blk, ino[i], SlotOf(bn));
      var blk' := blk[a := Over(blk[a], o, bytes)];
      && Owned(bit, blk', ino, owner, meta) && SlotsKept(blk, ino, blk', ino)
      && Present(blk', ino[i]) == Present(blk, ino[i])
      && (forall j: nat, k: nat :: j < |ino| && k < MAXFILE * BSIZE ==>
            ByteAt(blk', ino[j], k) ==
            if j == i && bn * BSIZE + o <= k < bn * BSIZE + o + |bytes| then bytes[k - bn * BSIZE - o] else ByteAt(blk, ino[j], k))
  {
    var s := SlotOf(bn);
    var a := AddrOf(blk, ino[i], s);
    assert SlotOk(bit, blk, ino, owner, i, s);
    var c := Over(blk[a], o, bytes);
    var blk' := blk[a := c];
    DataKeepsAddrs(bit, blk, ino, owner, meta, i, s, c);
    hide AddrOf, Over;
    forall j: nat, t: nat | j < |ino| && t < SLOTS ensures SlotOk(bit, blk', ino, owner, j, t) {
      assert SlotOk(bit, blk, ino, owner, j, t);
    }
    forall b: nat | b in owner ensures meta <= b && BlockOk(bit, blk', ino, owner, b) {
      assert BlockOk(bit, blk, ino, owner, b);
    }
    forall j: nat, k: nat | j < |ino| && k < MAXFILE * BSIZE
      ensures ByteAt(blk', ino[j], k) ==
        if j == i && bn * BSIZE + o <= k < bn * BSIZE + o + |bytes| then bytes[k - bn * BSIZE - o] else ByteAt(blk, ino[j], k)
    {
      OneByte(bit, blk, ino, owner, meta, blk', i, bn, o, bytes, j, k);
    }
  }

  lemma OneByte(bit: seq<bool>, blk: seq<Block>, ino: seq<Inode>, owner: map<nat, Owner>, meta: nat, blk': seq<Block>,
                i: nat, bn: nat, o: nat, bytes: seq<byte>, j: nat, k: nat)
    requires Owned(bit, blk, ino, owner, meta) && i < |ino| && bn < MAXFILE && o + |bytes| <= BSIZE
    requires 0 < AddrOf(blk, ino[i], SlotOf(bn)) < |blk| && j < |ino| && k < MAXFILE * BSIZE
    requires blk' == blk[AddrOf(blk, ino[i], SlotOf(bn)) := Over(blk[AddrOf(blk, ino[i], SlotOf(bn))], o, bytes)]
    requires AddrOf(blk', ino[j], SlotOf(k / BSIZE)) == AddrOf(blk, ino[j], SlotOf(k / BSIZE))
    ensures ByteAt(blk', ino[j], k) ==
      if j == i && bn * BSIZE + o <= k < bn * BSIZE + o + |bytes| then bytes[k - bn * BSIZE - o] else ByteAt(blk, ino[j], k)
  {
    hide AddrOf, Over;
    var a, e := AddrOf(blk, ino[i], SlotOf(bn)), AddrOf(blk, ino[j], SlotOf(k / BSIZE));
    if e == a {
      ReferencedOnce(bit, blk, ino, owner, meta, i, SlotOf(bn), j, SlotOf(k / BSIZE));
      assert k / BSIZE == bn;
      assert k % BSIZE == k - bn * BSIZE;
    } else if j == i {
      assert k / BSIZE != bn;
    }
  }

  /** What was written is what is read back, and the rest of the file is as it was. */
  lemma SpliceReads(c: seq<byte>, off: nat, src: seq<byte>)
    requires off <= |c|
    ensures |Splice(c, off, src)| == if off + |src| > |c| then off + |src| else |c|
    ensures Splice(c, off, src)[off..off + |src|] == src
    ensures Splice(c, off, src)[..off] == c[..off]
    ensures off + |src| <= |c| ==> Splice(c, off, src)[off + |src|..] == c[off + |src|..]
  {
  }

  // ----- Files -----

  /** The blocks of the first `n` bytes are there. */
  ghost predicate Mapped(blk: seq<Block>, ip: Inode, n: nat)
    requires InodeOk(ip, |blk|) && n <= MAXFILE * BSIZE
  {
    forall bn: nat :: bn * BSIZE < n ==> AddrOf(blk, ip, SlotOf(bn)) != 0
  }

  ghost predicate FileOk(blk: seq<Block>, ip: Inode)
    requires InodeOk(ip, |blk|)
  {
    ip.size <= MAXFILE * BSIZE && Mapped(blk, ip, ip.size)
  }

  /** The contents of a file as one sequence of bytes. */
  function Content(blk: seq<Block>, ip: Inode): (c: seq<byte>)
    requires InodeOk(ip, |blk|) && ip.size <= MAXFILE * BSIZE
    ensures |c| == ip.size && forall k :: 0 <= k < |c| ==> c[k] == ByteAt(blk, ip, k)
  {
    seq(ip.size, k requires 0 <= k < ip.size => ByteAt(blk, ip, k))
  }

  /** Where the bytes of a file are on disk: 512 to a block, the first twelve blocks named by the inode and the others by
      words of the indirect block. */
  lemma ContentLies(blk: seq<Block>, ip: Inode, k: nat)
    requires InodeOk(ip, |blk|) && FileOk(blk, ip) && k < ip.size
    ensures k < 12 * 512 ==> ip.addrs[k / 512] != 0 && Content(blk, ip)[k] == blk[ip.addrs[k / 512]][k % 512]
    ensures k >= 12 * 512 ==> ip.addrs[12] != 0 && forall a: nat :: a < |blk| && Spells(blk[ip.addrs[12]], k / 512 - 12, a) ==>
                                Content(blk, ip)[k] == blk[a][k % 512]
  {
    assert AddrOf(blk, ip, SlotOf(k / BSIZE)) != 0;
    if k >= 12 * 512 {
      WordBytes(blk[ip.addrs[12]], k / 512 - 12, 0);
    }
  }

  /** `c` with `src` written at `off`, which is not beyond its end. */
  function Splice(c: seq<byte>, off: nat, src: seq<byte>): (r: seq<byte>)
    requires off <= |c|
  {
    if off + |src| <= |c| then c[..off] + src + c[off + |src|..] else c[..off] + src
  }

  ghost predicate FilesOk(blk: seq<Block>, ino: seq<Inode>)
    requires InodesFit(blk, ino)
  {
    forall i :: 0 <= i < |ino| ==> FileOk(blk, ino[i])
  }

  lemma FilesStayOk(blk: seq<Block>, ino: seq<Inode>, blk': seq<Block>, ino': seq<Inode>)
    requires InodesFit(blk, ino)
    requires InodesFit(blk', ino')
    requires FilesOk(blk, ino) && SlotsKept(blk, ino, blk', ino')
    requires forall i :: 0 <= i < |ino| ==> ino'[i].size == ino[i].size
    ensures FilesOk(blk', ino')
  {
    hide AddrOf;
    forall i | 0 <= i < |ino'| ensures FileOk(blk', ino'[i]) {
      assert FileOk(blk, ino[i]);
    }
  }

  lemma SlotsKeptTwice(blk: seq<Block>, ino: seq<Inode>, blk': seq<Block>, ino': seq<Inode>, blk'': seq<Block>, ino'': seq<Inode>)
    requires InodesFit(blk, ino)
    requires InodesFit(blk', ino')
    requires InodesFit(blk'', ino'')
    requires SlotsKept(blk, ino, blk', ino') && SlotsKept(blk', ino', blk'', ino'')
    ensures SlotsKept(blk, ino, blk'', ino'')
  {
    hide AddrOf;
  }

  // ----- Blocks that are free, there, or wanted -----

  ghost function FreeSet(bit: seq<bool>): (f: set<nat>)
  {
    set a: nat | a < |bit| && !bit[a]
  }

  /** The slots of an inode that have a block. */
  ghost function Present(blk: seq<Block>, ip: Inode): (p: set<nat>)
    requires InodeOk(ip, |blk|)
  {
    set s: nat | s < SLOTS && AddrOf(blk, ip, s) != 0
  }

  /** The slots that the file blocks from `lo` up to `hi` use: their own, and that of the indirect block. */
  ghost function Wanted(lo: nat, hi: nat): (w: set<nat>)
    requires hi <= MAXFILE
  {
    set s: nat | s < SLOTS && InRange(s, lo, hi)
  }

  lemma InWanted(bn: nat)
    requires NDIRECT <= bn < MAXFILE
    ensures {bn + 1} <= Wanted(bn, bn + 1)
  {
  }

  predicate InRange(s: nat, lo: nat, hi: nat) {
    if s < NDIRECT then lo <= s < hi
    else if s == NDIRECT then lo < hi && NDIRECT < hi
    else lo < s <= hi
  }

  /** Blocks only move from the free ones to slots of the file, and only to wanted ones. */
  ghost predicate Moved(bit: seq<bool>, present: set<nat>, bit': seq<bool>, present': set<nat>, wanted: set<nat>) {
    && present <= present' && present' - present <= wanted
    && |FreeSet(bit')| + |present'| == |FreeSet(bit)| + |present|
  }

  lemma MovedOne(bit: seq<bool>, a: nat, present: set<nat>, s: nat, wanted: set<nat>)
    requires a < |bit| && !bit[a] && s !in present && s in wanted
    ensures Moved(bit, present, bit[a := true], present + {s}, wanted)
  {
    assert FreeSet(bit[a := true]) == FreeSet(bit) - {a};
  }

  lemma MovedWider(bit: seq<bool>, present: set<nat>, bit': seq<bool>, present': set<nat>, wanted: set<nat>, more: set<nat>)
    requires Moved(bit, present, bit', present', wanted) && wanted <= more
    ensures Moved(bit, present, bit', present', more)
  {
  }

  lemma MovedTwice(bit: seq<bool>, present: set<nat>, bit1: seq<bool>, present1: set<nat>, bit2: seq<bool>, present2: set<nat>,
                   wanted1: set<nat>, wanted2: set<nat>, wanted: set<nat>)
    requires Moved(bit, present, bit1, present1, wanted1) && Moved(bit1, present1, bit2, present2, wanted2)
    requires wanted1 <= wanted && wanted2 <= wanted
    ensures Moved(bit, present, bit2, present2, wanted)
  {
  }

  /** All wanted blocks come to be there if and only if there were as many free ones as missing ones. */
  lemma MovedAll(bit: seq<bool>, present: set<nat>, bit': seq<bool>, present': set<nat>, wanted: set<nat>)
    requires Moved(bit, present, bit', present', wanted)
    ensures wanted <= present' ==> |wanted - present| <= |FreeSet(bit)|
    ensures !(wanted <= present') && FreeSet(bit') == {} ==> |wanted - present| > |FreeSet(bit)|
  {
    var added := present' - present;
    assert present' == present + added;
    var missing := wanted - present;
    assert missing == added + (missing - added);
    if wanted <= present' {
      assert missing == added;
    }
  }

  lemma Unmoved(bit: seq<bool>, blk: seq<Block>, ino: seq<Inode>)
    requires InodesFit(blk, ino)
    ensures forall j, w :: 0 <= j < |ino| ==> Moved(bit, Present(blk, ino[j]), bit, Present(blk, ino[j]), w)
    ensures SameBytes(blk, ino, blk, ino) && SlotsKept(blk, ino, blk, ino)
  {
  }

  lemma NoneFree(bit: seq<bool>)
    ensures FreeSet(bit) == {} <==> forall a :: 0 <= a < |bit| ==> bit[a]
  {
    if FreeSet(bit) == {} {
      forall a | 0 <= a < |bit| ensures bit[a] {
        assert a in FreeSet(bit) <==> !bit[a];
      }
    }
  }

  /** An address slot of the inode gets a free block. */
  lemma SlotFilled(bit: seq<bool>, blk: seq<Block>, ino: seq<Inode>, owner: map<nat, Owner>, meta: nat, i: nat, s: nat, b: nat)
    requires Owned(bit, blk, ino, owner, meta) && FilesOk(blk, ino) && i < |ino| && s <= NDIRECT && ino[i].addrs[s] == 0
    requires b < |bit| && !bit[b]
    ensures
      var blk' := blk[b := ZERO];
      var ino' := ino[i := ino[i].(addrs := ino[i].addrs[s := b])];
      && Owned(bit[b := true], blk', ino', owner[b := Owner(i, s)], meta) && FilesOk(blk', ino')
      && SameBytes(blk, ino, blk', ino') && SlotsKept(blk, ino, blk', ino')
      && Moved(bit, Present(blk, ino[i]), bit[b := true], Present(blk', ino'[i]), {s})
  {
    FillSlot(bit, blk, ino, owner, meta, i, s, b);
    var blk' := blk[b := ZERO];
    var ino' := ino[i := ino[i].(addrs := ino[i].addrs[s := b])];
    NotZero(bit, blk, ino, owner, meta, b);
    assert AddrOf(blk, ino[i], s) == 0;
    assert forall j :: 0 <= j < |ino| ==> ino'[j].size == ino[j].size;
    hide AddrOf, ByteAt, FreeSet, Owned;
    Filled(bit, blk, ino, owner, meta, blk', ino', i, s, b);
    FilesStayOk(blk, ino, blk', ino');
    assert Present(blk', ino'[i]) == Present(blk, ino[i]) + {s};
    MovedOne(bit, b, Present(blk, ino[i]), s, {s});
  }

  /** A word of the indirect block gets a free block. */
  lemma WordFilled(bit: seq<bool>, blk: seq<Block>, ino: seq<Inode>, owner: map<nat, Owner>, meta: nat, i: nat, w: nat, b: nat)
    requires Owned(bit, blk, ino, owner, meta) && FilesOk(blk, ino) && i < |ino| && w < NINDIRECT
    requires ino[i].addrs[NDIRECT] != 0 && AddrOf(blk, ino[i], NDIRECT + 1 + w) == 0
    requires b < |bit| && !bit[b]
    ensures
      var x := ino[i].addrs[NDIRECT];
      var blk' := blk[b := ZERO][x := PutWord(blk[x], w, b)];
      && x != b && Owned(bit[b := true], blk', ino, owner[b := Owner(i, NDIRECT + 1 + w)], meta) && FilesOk(blk', ino)
      && SameBytes(blk, ino, blk', ino) && SlotsKept(blk, ino, blk', ino)
      && AddrOf(blk', ino[i], NDIRECT + 1 + w) == b
      && Moved(bit, Present(blk, ino[i]), bit[b := true], Present(blk', ino[i]), {NDIRECT + 1 + w})
  {
    hide GetWord, PutWord, ByteAt, FreeSet;
    FillWord(bit, blk, ino, owner, meta, i, w, b);
    NotZero(bit, blk, ino, owner, meta, b);
    var x := ino[i].addrs[NDIRECT];
    assert SlotOk(bit, blk, ino, owner, i, NDIRECT);
    var blk' := blk[b := ZERO][x := PutWord(blk[x], w, b)];
    hide AddrOf, Owned;
    Filled(bit, blk, ino, owner, meta, blk', ino, i, NDIRECT + 1 + w, b);
    FilesStayOk(blk, ino, blk', ino);
    assert Present(blk', ino[i]) == Present(blk, ino[i]) + {NDIRECT + 1 + w};
    MovedOne(bit, b, Present(blk, ino[i]), NDIRECT + 1 + w, {NDIRECT + 1 + w});
  }

  function BlocksFor(n: nat): (b: nat) {
    (n + BSIZE - 1) / BSIZE
  }

  /** The free blocks are enough for writing `n` bytes at `off`. */
  ghost predicate Enough(bit: seq<bool>, blk: seq<Block>, ip: Inode, off: nat, n: nat)
    requires InodeOk(ip, |blk|) && off + n <= MAXFILE * BSIZE
  {
    |Missing(blk, ip, off, n)| <= |FreeSet(bit)|
  }

  /** The slots without a block that writing `n` bytes at `off` uses. */
  ghost function Missing(blk: seq<Block>, ip: Inode, off: nat, n: nat): (m: set<nat>)
    requires InodeOk(ip, |blk|) && off + n <= MAXFILE * BSIZE
  {
    Wanted(off / BSIZE, BlocksFor(off + n)) - Present(blk, ip)
  }

  lemma WantedWithin(off: nat, at: nat, end: nat)
    requires off <= at < end <= MAXFILE * BSIZE
    ensures at / BSIZE < MAXFILE && BlocksFor(end) <= MAXFILE
    ensures Wanted(at / BSIZE, at / BSIZE + 1) <= Wanted(off / BSIZE, BlocksFor(end)) && SlotOf(at / BSIZE) in Wanted(at / BSIZE, at / BSIZE + 1)
  {
    assert off / BSIZE <= at / BSIZE < BlocksFor(end);
  }

  lemma AllThere(blk0: seq<Block>, ino0: seq<Inode>, blk: seq<Block>, ino: seq<Inode>, i: nat, off: nat, src: seq<byte>)
    requires PartWritten(blk0, ino0, blk, ino, i, off, src)
    ensures BlocksFor(off + |src|) <= MAXFILE && Wanted(off / BSIZE, BlocksFor(off + |src|)) <= Present(blk, ino[i])
  {
    hide ByteAt, GetWord;
    var lo, hi := off / BSIZE, BlocksFor(off + |src|);
    forall s | s in Wanted(lo, hi) ensures s in Present(blk, ino[i]) {
      var bn := if s < NDIRECT then s else if s == NDIRECT then hi - 1 else s - 1;
      assert bn * BSIZE < off + |src|;
      assert AddrOf(blk, ino[i], SlotOf(bn)) != 0;
    }
  }

  /** The blocks that file `i` has got since `blk0` were free and are wanted for the write. */
  ghost predicate Supplied(bit0: seq<bool>, blk0: seq<Block>, ino0: seq<Inode>, bit: seq<bool>, blk: seq<Block>, ino: seq<Inode>,
                           i: nat, off: nat, n: nat) {
    && InodesFit(blk0, ino0) && InodesFit(blk, ino) && i < |ino| == |ino0| && BlocksFor(off + n) <= MAXFILE
    && Moved(bit0, Present(blk0, ino0[i]), bit, Present(blk, ino[i]), Wanted(off / BSIZE, BlocksFor(off + n)))
  }

  lemma SuppliedMore(bit0: seq<bool>, blk0: seq<Block>, ino0: seq<Inode>, bit1: seq<bool>, blk1: seq<Block>, ino1: seq<Inode>,
                     bit: seq<bool>, blk: seq<Block>, ino: seq<Inode>, i: nat, off: nat, n: nat, at: nat, ok: bool)
    requires Supplied(bit0, blk0, ino0, bit1, blk1, ino1, i, off, n) && InodesFit(blk, ino) && |ino| == |ino1|
    requires off <= at < off + n <= MAXFILE * BSIZE
    requires Moved(bit1, Present(blk1, ino1[i]), bit, Present(blk, ino[i]), Wanted(at / BSIZE, at / BSIZE + 1))
    requires !ok ==> FreeSet(bit) == {} && AddrOf(blk, ino[i], SlotOf(at / BSIZE)) == 0
    ensures Supplied(bit0, blk0, ino0, bit, blk, ino, i, off, n)
    ensures !ok ==> !Enough(bit0, blk0, ino0[i], off, n)
  {
    var wanted := Wanted(off / BSIZE, BlocksFor(off + n));
    WantedWithin(off, at, off + n);
    assert !ok ==> SlotOf(at / BSIZE) !in Present(blk, ino[i]);
    hide Moved, FreeSet, Wanted, Present, AddrOf;
    MovedTwice(bit0, Present(blk0, ino0[i]), bit1, Present(blk1, ino1[i]), bit, Present(blk, ino[i]),
               wanted, Wanted(at / BSIZE, at / BSIZE + 1), wanted);
    MovedAll(bit0, Present(blk0, ino0[i]), bit, Present(blk, ino[i]), wanted);
  }

  lemma AllSupplied(bit0: seq<bool>, blk0: seq<Block>, ino0: seq<Inode>, bit: seq<bool>, blk: seq<Block>, ino: seq<Inode>,
                    i: nat, off: nat, src: seq<byte>)
    requires Supplied(bit0, blk0, ino0, bit, blk, ino, i, off, |src|) && PartWritten(blk0, ino0, blk, ino, i, off, src)
    ensures Enough(bit0, blk0, ino0[i], off, |src|)
  {
    hide Moved, FreeSet, Wanted, Present;
    AllThere(blk0, ino0, blk, ino, i, off, src);
    MovedAll(bit0, Present(blk0, ino0[i]), bit, Present(blk, ino[i]), Wanted(off / BSIZE, BlocksFor(off + |src|)));
  }

  lemma NotZero(bit: seq<bool>, blk: seq<Block>, ino: seq<Inode>, owner: map<nat, Owner>, meta: nat, b: nat)
    requires Owned(bit, blk, ino, owner, meta) && b < |bit| && !bit[b]
    ensures 0 < b < |blk| && b !in owner && InodesFit(blk, ino) && |bit| == |blk|
  {
  }

  // ----- The file system -----

  /** Bitmap bits in a block. */
  const BPB: nat := BSIZE * 8

  /** How writei ends: all bytes written, refused for its offset or length, or out of blocks. */
  datatype Written = All(n: nat) | Refused | OutOfBlocks

  /** The source's test for an offset and length whose 32-bit sum wraps. */
  predicate Wraps(off: nat, n: nat) {
    (off + n) % U32 < off
  }

  lemma WrapTest(off: nat, n: nat)
    requires off < U32 && n < U32
    ensures Wraps(off, n) <==> off + n >= U32
  {
  }

  lemma Pieces(src: seq<byte>, tot: nat, m: nat)
    requires tot + m <= |src|
    ensures src[..tot + m] == src[..tot] + src[tot..tot + m]
  {
  }

  /** How many of `left` bytes from `at` on lie in one block. */
  function PieceLength(at: nat, left: nat): (m: nat)
    ensures m <= left && at % BSIZE + m <= BSIZE && (left > 0 ==> m > 0)
  {
    Min(left, BSIZE - at % BSIZE)
  }

  class FileSystem {
    // Blocks at the start of the disk that hold no file contents.
    const meta: nat
    var bit: seq<bool>
    var blk: seq<Block>
    // The inodes in memory, and as they are on disk.
    var ino: seq<Inode>
    var dino: seq<Inode>
    ghost var owner: map<nat, Owner>

    ghost predicate Valid()
      reads this
    {
      Owned(bit, blk, ino, owner, meta) && |dino| == |ino| && FilesOk(blk, ino)
    }

    // An empty file system, as mkfs lays it out.
    constructor (nblocks: nat, meta: nat, ninodes: nat)
      requires 0 < meta <= nblocks <= U32
      ensures Valid() && this.meta == meta && |blk| == nblocks && |ino| == ninodes
      ensures forall i :: 0 <= i < ninodes ==> ino[i].size == 0
    {
      this.meta := meta;
      bit := seq(nblocks, a => a < meta);
      blk := seq(nblocks, _ => ZERO);
      ino := seq(ninodes, _ => Inode(0, 0, 0, 0, 0, seq(NDIRECT + 1, _ => 0)));
      dino := seq(ninodes, _ => Inode(0, 0, 0, 0, 0, seq(NDIRECT + 1, _ => 0)));
      owner := map[];
    }

    // Allocate the first free block and zero it; zero stands for the panic "out of blocks" (fs.c:56-78).
    method Balloc() returns (r: nat)
      requires |bit| == |blk| > 0 && bit[0]
      modifies this`bit, this`blk
      ensures r == 0 ==> bit == old(bit) && blk == old(blk) && forall a :: 0 <= a < |bit| ==> bit[a]
      ensures r > 0 ==> r < |bit| == |old(bit)| && !old(bit)[r] && forall a :: 0 <= a < r ==> old(bit)[a]
      ensures r > 0 ==> bit == old(bit)[r := true] && blk == old(blk)[r := ZERO]
    {
      var b := 0;
      while b < |bit|
        invariant b >= 0 && bit == old(bit) && blk == old(blk)
        invariant forall a :: 0 <= a < b && a < |bit| ==> bit[a]
      {
        var bi := 0;
        while bi < BPB && b + bi < |bit|
          invariant 0 <= bi <= BPB && bit == old(bit) && blk == old(blk)
          invariant forall a :: 0 <= a < b + bi && a < |bit| ==> bit[a]
        {
          if !bit[b + bi] {
            bit := bit[b + bi := true];
            blk := blk[b + bi := ZERO];
            return b + bi;
          }
          bi := bi + 1;
        }
        b := b + BPB;
      }
      return 0;
    }

    // Give the empty slot `s` in the inode itself a new block; zero if there is none (fs.c:379-380, fs.c:387-388).
    method AllocSlot(i: nat, s: nat) returns (a: nat)
      requires Valid() && i < |ino| && s <= NDIRECT && ino[i].addrs[s] == 0
      modifies this`bit, this`blk, this`ino, this`owner
      ensures Valid() && |blk| == |old(blk)| && |ino| == |old(ino)|
      ensures SameBytes(old(blk), old(ino), blk, ino) && SlotsKept(old(blk), old(ino), blk, ino)
      ensures Moved(old(bit), Present(old(blk), old(ino)[i]), bit, Present(blk, ino[i]), {s})
      ensures a == 0 <==> FreeSet(old(bit)) == {}
      ensures a == 0 ==> bit == old(bit) && blk == old(blk) && ino == old(ino) && owner == old(owner)
      ensures a > 0 ==> a < |blk| && !old(bit)[a] && a !in old(owner) && ino == old(ino[i := ino[i].(addrs := ino[i].addrs[s := a])])
      ensures a > 0 ==> blk == old(blk)[a := ZERO]
    {
      InodesOk();
      Unmoved(bit, blk, ino);
      NoneFree(bit);
      a := Balloc();
      if a > 0 {
        NotZero(old(bit), old(blk), ino, owner, meta, a);
        hide Owned, FilesOk, SameBytes, SlotsKept, Moved, AddrOf, FreeSet;
        SlotFilled(old(bit), old(blk), ino, owner, meta, i, s, a);
        ino := ino[i := ino[i].(addrs := ino[i].addrs[s := a])];
        owner := owner[a := Owner(i, s)];
      }
    }

    // Give the empty word `w` of the indirect block a new block; zero if there is none (fs.c:391-394).
    method AllocWord(i: nat, w: nat) returns (a: nat)
      requires Valid() && i < |ino| && w < NINDIRECT && ino[i].addrs[NDIRECT] != 0
      requires AddrOf(blk, ino[i], NDIRECT + 1 + w) == 0
      modifies this`bit, this`blk, this`owner
      ensures Valid() && |blk| == |old(blk)|
      ensures SameBytes(old(blk), ino, blk, ino) && SlotsKept(old(blk), ino, blk, ino)
      ensures Moved(old(bit), Present(old(blk), ino[i]), bit, Present(blk, ino[i]), {NDIRECT + 1 + w})
      ensures a == 0 <==> FreeSet(old(bit)) == {}
      ensures a == 0 ==> bit == old(bit) && blk == old(blk) && owner == old(owner)
      ensures a > 0 ==> a < |blk| && !old(bit)[a] && a !in old(owner) && AddrOf(blk, ino[i], NDIRECT + 1 + w) == a
      ensures a > 0 ==> var x := ino[i].addrs[NDIRECT];
                        x < |blk| && Spells(blk[x], w, a) && OnlyWord(old(blk)[x], blk[x], w)
    {
      InodesOk();
      Unmoved(bit, blk, ino);
      NoneFree(bit);
      a := Balloc();
      if a > 0 {
        NotZero(old(bit), old(blk), ino, owner, meta, a);
        hide Owned, FilesOk, SameBytes, SlotsKept, Moved, AddrOf, FreeSet, PutWord;
        WordFilled(old(bit), old(blk), ino, owner, meta, i, w, a);
        var x := ino[i].addrs[NDIRECT];
        WordBytes(blk[x], w, a);
        blk := blk[x := PutWord(blk[x], w, a)];
        owner := owner[a := Owner(i, NDIRECT + 1 + w)];
      }
    }

    // The first blocks of a file have their addresses in the inode (fs.c:378-382).
    method Direct(i: nat, bn: nat) returns (a: nat)
      requires Valid() && i < |ino| && bn < NDIRECT
      modifies this`bit, this`blk, this`ino, this`owner
      ensures Valid() && |blk| == |old(blk)| && |ino| == |old(ino)|
      ensures SameBytes(old(blk), old(ino), blk, ino) && SlotsKept(old(blk), old(ino), blk, ino)
      ensures ino == old(ino)[i := old(ino)[i].(addrs := ino[i].addrs)]
      ensures Moved(old(bit), Present(old(blk), old(ino)[i]), bit, Present(blk, ino[i]), Wanted(bn, bn + 1))
      ensures old(ino)[i].addrs[bn] != 0 ==>
                a != 0 && bit == old(bit) && blk == old(blk) && ino == old(ino) && owner == old(owner)
      ensures a < |blk| && a == ino[i].addrs[bn] && (a == 0 ==> FreeSet(bit) == {})
      ensures a != 0 ==> Located(old(blk), old(ino)[i], blk, ino[i], bn, a)
    {
      hide Owned, ByteAt, FilesOk, FreeSet, Moved, Present, SameBytes, SlotsKept;
      InodesOk();
      Unmoved(bit, blk, ino);
      KeptAlready(blk, ino);
      a := ino[i].addrs[bn];
      if a == 0 {
        a := AllocSlot(i, bn);
        InodesOk();
        MovedWider(old(bit), Present(old(blk), old(ino)[i]), bit, Present(blk, ino[i]), {bn}, Wanted(bn, bn + 1));
      }
    }

    // The indirect block, allocated if there is none (fs.c:387-388).
    method Indirect(i: nat, ghost bn: nat) returns (a: nat)
      requires Valid() && i < |ino| && NDIRECT <= bn < MAXFILE
      modifies this`bit, this`blk, this`ino, this`owner
      ensures Valid() && |blk| == |old(blk)| && |ino| == |old(ino)|
      ensures SameBytes(old(blk), old(ino), blk, ino) && SlotsKept(old(blk), old(ino), blk, ino)
      ensures ino == old(ino)[i := old(ino)[i].(addrs := ino[i].addrs)]
      ensures Moved(old(bit), Present(old(blk), old(ino)[i]), bit, Present(blk, ino[i]), Wanted(bn, bn + 1))
      ensures old(ino)[i].addrs[NDIRECT] != 0 ==>
                a != 0 && bit == old(bit) && blk == old(blk) && ino == old(ino) && owner == old(owner)
      ensures a < |blk| && ino[i].addrs == old(ino)[i].addrs[NDIRECT := a] && (a == 0 ==> FreeSet(bit) == {})
      ensures old(ino)[i].addrs[NDIRECT] == 0 && a != 0 ==> blk[a] == ZERO
    {
      hide Owned, ByteAt, FilesOk, FreeSet, Moved, Present, SameBytes, SlotsKept;
      InodesOk();
      Unmoved(bit, blk, ino);
      KeptAlready(blk, ino);
      a := ino[i].addrs[NDIRECT];
      if a == 0 {
        a := AllocSlot(i, NDIRECT);
        InodesOk();
        MovedWider(old(bit), Present(old(blk), old(ino)[i]), bit, Present(blk, ino[i]), {NDIRECT}, Wanted(bn, bn + 1));
      }
    }

    // The address of block `bn` of a file, allocated if there is none; zero stands for a panic (fs.c:372-400).
    method Bmap(i: nat, bn: nat) returns (a: nat)
      requires Valid() && i < |ino|
      modifies this`bit, this`blk, this`ino, this`owner
      ensures Valid() && |blk| == |old(blk)| && |ino| == |old(ino)|
      ensures SameBytes(old(blk), old(ino), blk, ino) && SlotsKept(old(blk), old(ino), blk, ino)
      ensures ino == old(ino)[i := old(ino)[i].(addrs := ino[i].addrs)]
      ensures bn < MAXFILE ==> Moved(old(bit), Present(old(blk), old(ino)[i]), bit, Present(blk, ino[i]), Wanted(bn, bn + 1))
      ensures bn < MAXFILE && AddrOf(old(blk), old(ino)[i], SlotOf(bn)) != 0 ==>
                a != 0 && bit == old(bit) && blk == old(blk) && ino == old(ino) && owner == old(owner)
      ensures a != 0 ==> bn < MAXFILE && a < |blk| && a == AddrOf(blk, ino[i], SlotOf(bn))
      ensures a == 0 && bn < MAXFILE ==> FreeSet(bit) == {} && AddrOf(blk, ino[i], SlotOf(bn)) == 0
      ensures bn >= MAXFILE ==> bit == old(bit) && blk == old(blk) && ino == old(ino) && owner == old(owner)
      ensures a != 0 ==> Located(old(blk), old(ino)[i], blk, ino[i], bn, a)
    {
      hide Owned, ByteAt, FilesOk, FreeSet, Moved, Present, SameBytes, SlotsKept, Spells, OnlyWord, GetWord, Wanted;
      InodesOk();
      Unmoved(bit, blk, ino);
      KeptAlready(blk, ino);
      if bn < NDIRECT {
        a := Direct(i, bn);
        return;
      }
      var w := bn - NDIRECT;
      if w < NINDIRECT {
        a := Indirect(i, bn);
        InodesOk();
        if a == 0 {
          return;
        }
        ghost var bit1, blk1, ino1 := bit, blk, ino;
        WordBytes(blk[a], w, 0);
        a := GetWord(blk[a], w);
        AddrInRange(i, bn + 1);
        ghost var x := ino[i].addrs[NDIRECT];
        Unwritten(blk[x], blk[x], w);
        if a == 0 {
          a := AllocWord(i, w);
          InodesOk();
          Unwritten(blk1[x], blk[x], w);
          SlotsKeptTwice(old(blk), old(ino), blk1, ino1, blk, ino);
          SameTwice(old(blk), old(ino), blk1, ino1, blk, ino);
          InWanted(bn);
          MovedTwice(old(bit), Present(old(blk), old(ino)[i]), bit1, Present(blk1, ino1[i]), bit, Present(blk, ino[i]),
                     Wanted(bn, bn + 1), {bn + 1}, Wanted(bn, bn + 1));
        }
        return;
      }
      a := 0;
    }

    lemma InodesOk()
      requires Valid()
      ensures 0 < meta <= |bit| && bit[0]
      ensures |bit| == |blk| && InodesFit(blk, ino)
    {
    }

    lemma AddrInRange(i: nat, s: nat)
      requires Valid() && i < |ino| && s < SLOTS
      ensures InodeOk(ino[i], |blk|) && AddrOf(blk, ino[i], s) < |blk|
    {
      assert SlotOk(bit, blk, ino, owner, i, s);
    }

    // One turn of the loop of readi: the bytes from `at` on that lie in one block, at most `left` (fs.c:469-472).
    method ReadPiece(i: nat, at: nat, left: nat) returns (piece: seq<byte>)
      requires Valid() && i < |ino| && 0 < left && at + left <= ino[i].size <= MAXFILE * BSIZE
      modifies this`bit, this`blk, this`ino, this`owner
      ensures bit == old(bit) && blk == old(blk) && ino == old(ino) && owner == old(owner)
      ensures 0 < |piece| <= left && InodeOk(ino[i], |blk|)
      ensures forall k :: 0 <= k < |piece| ==> piece[k] == ByteAt(blk, ino[i], at + k)
    {
      MappedAt(i, at);
      AllMapped(i);
      hide Owned, FilesOk, FileOk, ByteAt, AddrOf, PieceLength, Located;
      var a := Bmap(i, at / BSIZE);
      var m := PieceLength(at, left);
      piece := blk[a][at % BSIZE..at % BSIZE + m];
      ReadChunk(blk, ino[i], a, at, piece);
    }

    // Read up to `n` bytes from `off` on; no blocks are allocated (fs.c:453-476).
    method Readi(i: nat, off: nat, n: nat) returns (r: int, dst: seq<byte>)
      requires Valid() && i < |ino| && off < U32 && n < U32
      modifies this`bit, this`blk, this`ino, this`owner
      ensures bit == old(bit) && blk == old(blk) && ino == old(ino) && owner == old(owner)
      ensures r == if off > ino[i].size || off + n >= U32 then -1 else Min(n, ino[i].size - off)
      ensures r == -1 ==> dst == []
      ensures r >= 0 ==> InodeOk(ino[i], |blk|) && ino[i].size <= MAXFILE * BSIZE && dst == Content(blk, ino[i])[off..off + r]
    {
      WrapTest(off, n);
      AllMapped(i);
      hide Owned, FilesOk, FileOk, ByteAt, AddrOf, Content, Wraps, PieceLength, Located;
      dst := [];
      if off > ino[i].size || Wraps(off, n) {
        return -1, [];
      }
      var len := if off + n > ino[i].size then ino[i].size - off else n;
      var tot := 0;
      while tot < len
        invariant bit == old(bit) && blk == old(blk) && ino == old(ino) && owner == old(owner)
        invariant 0 <= tot <= len && off + len <= ino[i].size <= MAXFILE * BSIZE && |dst| == tot
        invariant forall k :: 0 <= k < tot ==> dst[k] == ByteAt(blk, ino[i], off + k)
      {
        var piece := ReadPiece(i, off + tot, len - tot);
        dst := dst + piece;
        tot := tot + |piece|;
      }
      assert dst == Content(blk, ino[i])[off..off + len];
      return len, dst;
    }

    // A write that succeeds is what a read of the same range gives.
    method WriteThenRead(i: nat, src: seq<byte>, off: nat) returns (w: Written, r: int, dst: seq<byte>)
      requires Valid() && i < |ino| && off < U32 && |src| < U32
      modifies this`bit, this`blk, this`ino, this`dino, this`owner
      ensures w.All? ==> r == |src| && dst == src
    {
      InodesOk();
      SizesBounded(blk, ino);
      ghost var c := Content(blk, ino[i]);
      hide Owned, FilesOk, FileOk, ByteAt, AddrOf, Content, Splice, Enough, SlotsKept;
      w := Writei(i, src, off);
      if w.All? {
        SpliceReads(c, off, src);
      }
      r, dst := Readi(i, off, |src|);
    }

    lemma AllMapped(i: nat)
      requires Valid() && i < |ino|
      ensures InodeOk(ino[i], |blk|) && FileOk(blk, ino[i]) && ino[i].size <= MAXFILE * BSIZE
    {
    }

    lemma MappedAt(i: nat, k: nat)
      requires Valid() && i < |ino| && k < ino[i].size
      ensures InodeOk(ino[i], |blk|) && k / BSIZE < MAXFILE && AddrOf(blk, ino[i], SlotOf(k / BSIZE)) != 0
    {
      assert FileOk(blk, ino[i]);
      assert k / BSIZE * BSIZE < ino[i].size;
    }

    // Write one piece of a file that lies in one block; false if the disk is full (fs.c:499-503).
    method WriteChunk(i: nat, at: nat, bytes: seq<byte>) returns (ok: bool)
      requires Valid() && i < |ino| && at % BSIZE + |bytes| <= BSIZE && at < MAXFILE * BSIZE
      modifies this`bit, this`blk, this`ino, this`owner
      ensures Valid() && |blk| == |old(blk)| && |ino| == |old(ino)| && SlotsKept(old(blk), old(ino), blk, ino)
      ensures ino == old(ino)[i := old(ino)[i].(addrs := ino[i].addrs)]
      ensures AddrOf(old(blk), old(ino)[i], SlotOf(at / BSIZE)) != 0 ==> ok && ino == old(ino)
      ensures ok ==> AddrOf(blk, ino[i], SlotOf(at / BSIZE)) != 0
      ensures Moved(old(bit), Present(old(blk), old(ino)[i]), bit, Present(blk, ino[i]), Wanted(at / BSIZE, at / BSIZE + 1))
      ensures !ok ==> FreeSet(bit) == {} && AddrOf(blk, ino[i], SlotOf(at / BSIZE)) == 0
      ensures Overwritten(old(blk), old(ino), blk, ino, i, at, if ok then bytes else [])
    {
      hide Owned, ByteAt, FilesOk, AddrOf, Moved, FreeSet, Present, Wanted, Located;
      InodesOk();
      var a := Bmap(i, at / BSIZE);
      InodesOk();
      if a == 0 {
        return false;
      }
      ghost var blk1 := blk;
      BlockPlace(at);
      DataWritten(bit, blk, ino, owner, meta, i, at / BSIZE, at % BSIZE, bytes);
      blk := blk[a := Over(blk[a], at % BSIZE, bytes)];
      SlotsKeptTwice(old(blk), old(ino), blk1, ino, blk, ino);
      FilesStayOk(blk1, ino, blk, ino);
      return true;
    }

    // Copy the inode in memory to disk (fs.c:221-236).
    method Iupdate(i: nat)
      requires i < |ino| == |dino|
      modifies this`dino
      ensures dino == old(dino)[i := ino[i]]
    {
      dino := dino[i := ino[i]];
    }

    // One turn of the loop of writei: the piece of `src` from `tot` on that lies in one block (fs.c:499-503).
    method WritePiece(i: nat, src: seq<byte>, off: nat, tot: nat, ghost bit0: seq<bool>, ghost blk0: seq<Block>, ghost ino0: seq<Inode>)
      returns (ok: bool, m: nat)
      requires Valid() && i < |ino| == |ino0| && tot < |src| && off + |src| <= MAXFILE * BSIZE
      requires PartWritten(blk0, ino0, blk, ino, i, off, src[..tot]) && Untouched(ino0, ino, i, off + tot) && FileOk(blk0, ino0[i])
      requires Supplied(bit0, blk0, ino0, bit, blk, ino, i, off, |src|)
      modifies this`bit, this`blk, this`ino, this`owner
      ensures Valid() && |blk| == |old(blk)| && |ino| == |old(ino)| && 0 < m <= |src| - tot
      ensures PartWritten(blk0, ino0, blk, ino, i, off, src[..if ok then tot + m else tot])
      ensures ok ==> Untouched(ino0, ino, i, off + tot + m)
      ensures Supplied(bit0, blk0, ino0, bit, blk, ino, i, off, |src|)
      ensures !ok ==> !Enough(bit0, blk0, ino0[i], off, |src|)
    {
      InodesOk();
      hide Owned, ByteAt, FilesOk, AddrOf, SlotsKept, Moved, FreeSet, Wanted, Present, FileOk, PartWritten, Untouched, Supplied,
        Enough, SlotOf, PieceLength, Overwritten;
      var at := off + tot;
      m := PieceLength(at, |src| - tot);
      var piece := src[tot..tot + m];
      ghost var bit1, blk1, ino1 := bit, blk, ino;
      ok := WriteChunk(i, at, piece);
      InodesOk();
      Pieces(src, tot, m);
      PartMore(blk0, ino0, blk1, ino1, blk, ino, i, off, src[..tot], piece, ok);
      SuppliedMore(bit0, blk0, ino0, bit1, blk1, ino1, bit, blk, ino, i, off, |src|, at, ok);
    }

    // The loop of writei: copy `src` to the file piece by piece; false if the disk is full (fs.c:498-504).
    method WriteAll(i: nat, src: seq<byte>, off: nat) returns (ok: bool, ghost done: seq<byte>)
      requires Valid() && i < |ino| && off <= ino[i].size && off + |src| <= MAXFILE * BSIZE
      modifies this`bit, this`blk, this`ino, this`owner
      ensures Valid() && |blk| == |old(blk)|
      ensures PartWritten(old(blk), old(ino), blk, ino, i, off, done)
      ensures ok ==> done == src && Untouched(old(ino), ino, i, off + |src|)
      ensures ok <==> Enough(old(bit), old(blk), old(ino)[i], off, |src|)
    {
      ghost var bit0, blk0, ino0 := bit, blk, ino;
      InodesOk();
      AllMapped(i);
      PartNone(blk, ino, i, off);
      Unmoved(bit, blk, ino);
      assert Supplied(bit0, blk0, ino0, bit, blk, ino, i, off, |src|);
      hide Owned, ByteAt, FilesOk, AddrOf, PartWritten, SlotsKept, Supplied, Enough, FileOk;
      var n := |src|;
      var tot := 0;
      while tot < n
        invariant 0 <= tot <= n && Valid() && |blk| == |blk0| && |ino| == |ino0|
        invariant PartWritten(blk0, ino0, blk, ino, i, off, src[..tot]) && Untouched(ino0, ino, i, off + tot)
        invariant Supplied(bit0, blk0, ino0, bit, blk, ino, i, off, |src|)
      {
        var m;
        ok, m := WritePiece(i, src, off, tot, bit0, blk0, ino0);
        if !ok {
          return false, src[..tot];
        }
        tot := tot + m;
      }
      assert src[..tot] == src;
      AllSupplied(bit0, blk0, ino0, bit, blk, ino, i, off, src);
      return true, src;
    }

    // The file gets a larger size, in memory and on disk (fs.c:506-509).
    method Grow(i: nat, size: nat)
      requires Valid() && i < |ino| && size <= MAXFILE * BSIZE && Mapped(blk, ino[i], size)
      modifies this`ino, this`dino
      ensures Valid() && ino == old(ino)[i := old(ino)[i].(size := size)] && dino == old(dino)[i := ino[i]]
      ensures SlotsKept(blk, old(ino), blk, ino)
    {
      Resized(bit, blk, ino, owner, meta, i, size);
      hide Owned, FilesOk, SlotsKept, Mapped;
      ino := ino[i := ino[i].(size := size)];
      Iupdate(i);
    }

    // Write `src` at `off`, growing the file if it ends there or in it (fs.c:482-511).
    method Writei(i: nat, src: seq<byte>, off: nat) returns (r: Written)
      requires Valid() && i < |ino| && off < U32 && |src| < U32
      modifies this`bit, this`blk, this`ino, this`dino, this`owner
      ensures Valid() && |blk| == |old(blk)| && |ino| == |old(ino)| && SlotsKept(old(blk), old(ino), blk, ino)
      ensures r == Refused <==> off > old(ino)[i].size || off + |src| >= U32 || off + |src| > MAXFILE * BSIZE
      ensures r == Refused ==> bit == old(bit) && blk == old(blk) && ino == old(ino) && dino == old(dino)
      ensures r != Refused ==> (r.All? <==> Enough(old(bit), old(blk), old(ino)[i], off, |src|))
      ensures r.All? ==> r.n == |src| && Content(blk, ino[i]) == Splice(Content(old(blk), old(ino)[i]), off, src)
      ensures forall j :: 0 <= j < |ino| && j != i ==>
                ino[j] == old(ino)[j] && dino[j] == old(dino)[j] && Content(blk, ino[j]) == Content(old(blk), old(ino)[j])
      ensures r.All? && old(dino)[i] == old(ino)[i] ==> dino[i] == ino[i]
    {
      InodesOk();
      KeptAlready(blk, ino);
      WrapTest(off, |src|);
      hide Owned, ByteAt, FilesOk, AddrOf, Content, Splice, PartWritten, SlotsKept, Mapped, Wraps, Enough;
      if off > ino[i].size || Wraps(off, |src|) {
        SizesBounded(blk, ino);
        return Refused;
      }
      if off + |src| > MAXFILE * BSIZE {
        SizesBounded(blk, ino);
        return Refused;
      }
      ghost var blk0, ino0 := blk, ino;
      var ok, done := WriteAll(i, src, off);
      InodesOk();
      OthersSame(blk0, ino0, blk, ino, i, off, done);
      if !ok {
        return OutOfBlocks;
      }
      ContentAfter(blk0, ino0, blk, ino, i, off, src);
      if |src| > 0 && off + |src| > ino[i].size {
        ghost var ino1 := ino;
        Grow(i, off + |src|);
        InodesOk();
        SlotsKeptTwice(blk0, ino0, blk, ino1, blk, ino);
      } else {
        assert ino[i] == ino[i].(size := ino0[i].size);
      }
      return All(|src|);
    }

    // Free a block; the panic "freeing free block" is one whose bit is not set (fs.c:81-95).
    method Bfree(b: nat)
      requires b < |bit| && bit[b]
      modifies this`bit
      ensures bit == old(bit)[b := false]
    {
      bit := bit[b := false];
    }

    // Free the direct blocks of an inode (fs.c:414-419).
    method FreeDirect(i: nat)
      requires Valid() && i < |ino|
      modifies this`bit, this`ino
      ensures |bit| == |old(bit)| && |ino| == |old(ino)|
      ensures Freed(old(bit), bit, owner, i, NDIRECT)
      ensures |ino[i].addrs| == NDIRECT + 1 && ino[i].addrs[NDIRECT] == old(ino)[i].addrs[NDIRECT]
      ensures forall t :: 0 <= t < NDIRECT ==> ino[i].addrs[t] == 0
      ensures ino == old(ino)[i := old(ino)[i].(addrs := ino[i].addrs)]
    {
      InodesOk();
      ghost var ino0 := ino;
      hide Owned, GetWord;
      assert ino[i] == ino[i].(addrs := ino[i].addrs);
      FreedNone(bit, owner, i);
      var s := 0;
      while s < NDIRECT
        invariant 0 <= s <= NDIRECT && |bit| == |old(bit)| && |ino| == |old(ino)|
        invariant Freed(old(bit), bit, owner, i, s)
        invariant |ino[i].addrs| == NDIRECT + 1
        invariant forall t :: 0 <= t < s ==> ino[i].addrs[t] == 0
        invariant forall t :: s <= t <= NDIRECT ==> ino[i].addrs[t] == old(ino)[i].addrs[t]
        invariant ino == old(ino)[i := old(ino)[i].(addrs := ino[i].addrs)]
      {
        FreedMore(old(bit), bit, blk, ino0, owner, meta, i, s);
        if ino[i].addrs[s] != 0 {
          Bfree(ino[i].addrs[s]);
          ino := ino[i := ino[i].(addrs := ino[i].addrs[s := 0])];
        }
        s := s + 1;
      }
    }

    // Free the blocks in the words of the indirect block (fs.c:422-428).
    method FreeWords(i: nat, x: nat, ghost bit0: seq<bool>, ghost ino0: seq<Inode>)
      requires Owned(bit0, blk, ino0, owner, meta) && i < |ino0| && x == ino0[i].addrs[NDIRECT] != 0 && |bit| == |bit0|
      requires Freed(bit0, bit, owner, i, NDIRECT)
      modifies this`bit
      ensures |bit| == |bit0| && Freed(bit0, bit, owner, i, NDIRECT + NINDIRECT)
    {
      hide Owned, GetWord;
      SlotInRange(bit0, blk, ino0, owner, meta, i, NDIRECT);
      var j := 0;
      while j < NINDIRECT
        invariant 0 <= j <= NINDIRECT && |bit| == |bit0|
        invariant Freed(bit0, bit, owner, i, NDIRECT + j)
      {
        FreedMore(bit0, bit, blk, ino0, owner, meta, i, NDIRECT + 1 + j);
        var a := GetWord(blk[x], j);
        if a != 0 {
          Bfree(a);
        }
        j := j + 1;
      }
    }

    // Free the indirect block, if any, with the blocks in it (fs.c:421-431).
    method FreeIndirect(i: nat, ghost bit0: seq<bool>, ghost ino0: seq<Inode>)
      requires Owned(bit0, blk, ino0, owner, meta) && i < |ino0| == |ino| && |bit| == |bit0| && Freed(bit0, bit, owner, i, NDIRECT)
      requires |ino[i].addrs| == NDIRECT + 1 && ino[i].addrs[NDIRECT] == ino0[i].addrs[NDIRECT]
      modifies this`bit, this`ino
      ensures |bit| == |bit0| && Freed(bit0, bit, owner, i, SLOTS)
      ensures ino == old(ino)[i := old(ino)[i].(addrs := old(ino)[i].addrs[NDIRECT := 0])]
    {
      hide Owned, GetWord, Freed;
      var x := ino[i].addrs[NDIRECT];
      if x != 0 {
        FreeWords(i, x, bit0, ino0);
        FreedMore(bit0, bit, blk, ino0, owner, meta, i, NDIRECT);
        Bfree(x);
        ino := ino[i := ino[i].(addrs := ino[i].addrs[NDIRECT := 0])];
      } else {
        NoWords(bit0, bit, blk, ino0, owner, meta, i);
        assert ino[i].addrs == ino[i].addrs[NDIRECT := 0];
        assert ino[i] == ino[i].(addrs := ino[i].addrs);
      }
    }

    // Discard a file's contents: free exactly the blocks it owns (fs.c:408-435).
    method Itrunc(i: nat)
      requires Valid() && i < |ino|
      modifies this`bit, this`ino, this`dino, this`owner
      ensures Valid() && |ino| == |old(ino)| && |bit| == |old(bit)|
      ensures ino[i] == old(ino)[i].(size := 0, addrs := seq(NDIRECT + 1, _ => 0)) && dino[i] == ino[i]
      ensures forall a: nat :: a < |bit| ==> (bit[a] <==> old(bit)[a] && !(a in old(owner) && old(owner)[a].inum == i))
      ensures forall j :: 0 <= j < |ino| && j != i ==>
                ino[j] == old(ino)[j] && dino[j] == old(dino)[j] && Content(blk, ino[j]) == Content(blk, old(ino)[j])
    {
      InodesOk();
      SizesBounded(blk, ino);
      hide Owned, GetWord, FilesOk, Content, Freed, Without;
      ghost var bit0, ino0, owner0 := bit, ino, owner;
      FreeDirect(i);
      FreeIndirect(i, bit0, ino0);
      ino := ino[i := ino[i].(size := 0)];
      NoAddrs(ino[i].addrs);
      owner := Without(owner, i);
      Truncated(bit0, bit, blk, ino0, ino, owner0, owner, meta, i);
      Iupdate(i);
    }
  }

  // ----- Freeing -----

  /** The order in which the slots are freed: the indirect block comes after the words in it. */
  function Order(s: nat): (n: nat) {
    if s < NDIRECT then s else if s == NDIRECT then NDIRECT + NINDIRECT else s - 1
  }

  /** From `bit0`, just the blocks in the first `n` slots of inode `i`, in that order, have been freed. */
  ghost predicate Freed(bit0: seq<bool>, bit: seq<bool>, owner: map<nat, Owner>, i: nat, n: nat) {
    |bit| == |bit0| && forall a: nat :: a < |bit| ==>
      (bit[a] <==> bit0[a] && !(a in owner && owner[a].inum == i && Order(owner[a].slot) < n))
  }

  lemma FreedNone(bit: seq<bool>, owner: map<nat, Owner>, i: nat)
    ensures Freed(bit, bit, owner, i, 0)
  {
  }

  lemma SlotInRange(bit: seq<bool>, blk: seq<Block>, ino: seq<Inode>, owner: map<nat, Owner>, meta: nat, i: nat, s: nat)
    requires Owned(bit, blk, ino, owner, meta) && i < |ino| && s < SLOTS
    ensures InodeOk(ino[i], |blk|) && |bit| == |blk| && AddrOf(blk, ino[i], s) < |blk|
  {
    assert SlotOk(bit, blk, ino, owner, i, s);
  }

  /** Freeing one more slot: its block, if any, is still marked, and nobody else's mark is lost. */
  lemma FreedMore(bit0: seq<bool>, bit: seq<bool>, blk: seq<Block>, ino: seq<Inode>, owner: map<nat, Owner>, meta: nat,
                  i: nat, s: nat)
    requires Owned(bit0, blk, ino, owner, meta) && i < |ino| && s < SLOTS && Freed(bit0, bit, owner, i, Order(s))
    ensures InodeOk(ino[i], |blk|)
    ensures var a := AddrOf(blk, ino[i], s);
            && a < |bit| && (a != 0 ==> bit[a])
            && Freed(bit0, if a != 0 then bit[a := false] else bit, owner, i, Order(s) + 1)
  {
    hide AddrOf;
    assert SlotOk(bit0, blk, ino, owner, i, s);
    var a := AddrOf(blk, ino[i], s);
    var now := if a != 0 then bit[a := false] else bit;
    forall b: nat | b < |now|
      ensures now[b] <==> bit0[b] && !(b in owner && owner[b].inum == i && Order(owner[b].slot) < Order(s) + 1)
    {
      if b in owner && owner[b] == Owner(i, s) {
        assert BlockOk(bit0, blk, ino, owner, b);
      }
    }
  }

  /** Without an indirect block there are no blocks in words of it. */
  lemma NoWords(bit0: seq<bool>, bit: seq<bool>, blk: seq<Block>, ino: seq<Inode>, owner: map<nat, Owner>, meta: nat, i: nat)
    requires Owned(bit0, blk, ino, owner, meta) && i < |ino| && ino[i].addrs[NDIRECT] == 0 && Freed(bit0, bit, owner, i, NDIRECT)
    ensures Freed(bit0, bit, owner, i, SLOTS)
  {
    forall a: nat | a < |bit| && a in owner && owner[a].inum == i ensures owner[a].slot < NDIRECT {
      assert BlockOk(bit0, blk, ino, owner, a);
    }
  }

  lemma NoAddrs(addrs: seq<nat>)
    requires |addrs| == NDIRECT + 1 && forall t :: 0 <= t <= NDIRECT ==> addrs[t] == 0
    ensures addrs == seq(NDIRECT + 1, _ => 0)
  {
  }

  ghost function Without(owner: map<nat, Owner>, i: nat): (m: map<nat, Owner>) {
    map a | a in owner && owner[a].inum != i :: owner[a]
  }

  /** An inode with no blocks left owns none, and the others own what they did. */
  lemma Truncated(bit0: seq<bool>, bit: seq<bool>, blk: seq<Block>, ino0: seq<Inode>, ino: seq<Inode>,
                  owner0: map<nat, Owner>, owner: map<nat, Owner>, meta: nat, i: nat)
    requires Owned(bit0, blk, ino0, owner0, meta) && FilesOk(blk, ino0) && i < |ino0| == |ino|
    requires Freed(bit0, bit, owner0, i, SLOTS)
    requires ino[i].size == 0 && ino[i].addrs == seq(NDIRECT + 1, _ => 0)
    requires forall j :: 0 <= j < |ino| && j != i ==> ino[j] == ino0[j]
    requires owner == Without(owner0, i)
    ensures Owned(bit, blk, ino, owner, meta) && FilesOk(blk, ino)
    ensures forall a: nat :: a < |bit| ==> (bit[a] <==> bit0[a] && !(a in owner0 && owner0[a].inum == i))
  {
    hide GetWord;
    assert InodesFit(blk, ino);
    forall j: nat, s: nat | j < |ino| && s < SLOTS ensures SlotOk(bit, blk, ino, owner, j, s) {
      assert SlotOk(bit0, blk, ino0, owner0, j, s);
    }
    forall a: nat | a in owner ensures meta <= a && BlockOk(bit, blk, ino, owner, a) {
      assert BlockOk(bit0, blk, ino0, owner0, a);
    }
    forall a: nat | a < |bit| ensures bit[a] <==> bit0[a] && !(a in owner0 && owner0[a].inum == i) {
      if a in owner0 {
        assert BlockOk(bit0, blk, ino0, owner0, a);
        assert Order(owner0[a].slot) < SLOTS;
      }
    }
    forall j | 0 <= j < |ino| ensures FileOk(blk, ino[j]) {
      if j != i {
        assert FileOk(blk, ino0[j]);
      }
    }
  }

  lemma SizesBounded(blk: seq<Block>, ino: seq<Inode>)
    requires InodesFit(blk, ino) && FilesOk(blk, ino)
    ensures forall j :: 0 <= j < |ino| ==> ino[j].size <= MAXFILE * BSIZE
  {
    forall j | 0 <= j < |ino| ensures ino[j].size <= MAXFILE * BSIZE {
      assert FileOk(blk, ino[j]);
    }
  }

  lemma KeptAlready(blk: seq<Block>, ino: seq<Inode>)
    requires InodesFit(blk, ino)
    ensures SlotsKept(blk, ino, blk, ino) && SameBytes(blk, ino, blk, ino)
  {
  }

  lemma SameTwice(blk0: seq<Block>, ino0: seq<Inode>, blk1: seq<Block>, ino1: seq<Inode>, blk: seq<Block>, ino: seq<Inode>)
    requires InodesFit(blk0, ino0) && InodesFit(blk1, ino1) && InodesFit(blk, ino)
    requires SameBytes(blk0, ino0, blk1, ino1) && SameBytes(blk1, ino1, blk, ino)
    ensures SameBytes(blk0, ino0, blk, ino)
  {
    hide ByteAt;
  }

  // ----- What a write has done so far -----

  /** The bytes of file `i` from `at` on are `bytes`; all others, and those of other files, are as they were. */
  ghost predicate Overwritten(blk0: seq<Block>, ino0: seq<Inode>, blk: seq<Block>, ino: seq<Inode>, i: nat, at: nat, bytes: seq<byte>) {
    && InodesFit(blk0, ino0) && InodesFit(blk, ino) && |ino| == |ino0|
    && (forall j: nat, k: nat :: j < |ino| && k < MAXFILE * BSIZE ==>
          ByteAt(blk, ino[j], k) == if j == i && at <= k < at + |bytes| then bytes[k - at] else ByteAt(blk0, ino0[j], k))
  }

  /** From `blk0` and `ino0`, the bytes `done` have been written at `off` of file `i`, and its blocks are there. */
  ghost predicate PartWritten(blk0: seq<Block>, ino0: seq<Inode>, blk: seq<Block>, ino: seq<Inode>, i: nat, off: nat, done: seq<byte>)
  {
    && Overwritten(blk0, ino0, blk, ino, i, off, done) && i < |ino| && off + |done| <= MAXFILE * BSIZE
    && ino == ino0[i := ino0[i].(addrs := ino[i].addrs)]
    && SlotsKept(blk0, ino0, blk, ino)
    && Mapped(blk, ino[i], off + |done|)
  }

  /** A write within the file allocates nothing. */
  ghost predicate Untouched(ino0: seq<Inode>, ino: seq<Inode>, i: nat, end: nat)
    requires i < |ino0|
  {
    end <= ino0[i].size ==> ino == ino0
  }

  lemma PartNone(blk: seq<Block>, ino: seq<Inode>, i: nat, off: nat)
    requires InodesFit(blk, ino) && i < |ino| && FileOk(blk, ino[i]) && off <= ino[i].size
    ensures PartWritten(blk, ino, blk, ino, i, off, [])
  {
    hide AddrOf, ByteAt;
    assert ino[i] == ino[i].(addrs := ino[i].addrs);
  }

  lemma PartMore(blk0: seq<Block>, ino0: seq<Inode>, blk1: seq<Block>, ino1: seq<Inode>, blk: seq<Block>, ino: seq<Inode>,
                 i: nat, off: nat, done: seq<byte>, bytes: seq<byte>, ok: bool)
    requires PartWritten(blk0, ino0, blk1, ino1, i, off, done) && InodesFit(blk, ino) && |ino| == |ino1|
    requires FileOk(blk0, ino0[i])
    requires 0 < |bytes| && off + |done| + |bytes| <= MAXFILE * BSIZE && (off + |done|) % BSIZE + |bytes| <= BSIZE
    requires SlotsKept(blk1, ino1, blk, ino) && ino == ino1[i := ino1[i].(addrs := ino[i].addrs)]
    requires AddrOf(blk1, ino1[i], SlotOf((off + |done|) / BSIZE)) != 0 ==> ok && ino == ino1
    requires ok ==> AddrOf(blk, ino[i], SlotOf((off + |done|) / BSIZE)) != 0
    requires Overwritten(blk1, ino1, blk, ino, i, off + |done|, if ok then bytes else [])
    ensures PartWritten(blk0, ino0, blk, ino, i, off, if ok then done + bytes else done)
    ensures ok && Untouched(ino0, ino1, i, off + |done|) ==> Untouched(ino0, ino, i, off + |done| + |bytes|)
  {
    hide AddrOf, ByteAt;
    var at := off + |done|;
    var now := if ok then done + bytes else done;
    SlotsKeptTwice(blk0, ino0, blk1, ino1, blk, ino);
    MappedMore(blk1, ino1, blk, ino, i, at, |bytes|, ok);
    if at < ino0[i].size {
      assert at / BSIZE * BSIZE < ino0[i].size;
      assert AddrOf(blk0, ino0[i], SlotOf(at / BSIZE)) != 0;
    }
    forall j: nat, k: nat | j < |ino| && k < MAXFILE * BSIZE
      ensures ByteAt(blk, ino[j], k) == if j == i && off <= k < off + |now| then now[k - off] else ByteAt(blk0, ino0[j], k)
    {
    }
  }

  lemma MappedMore(blk1: seq<Block>, ino1: seq<Inode>, blk: seq<Block>, ino: seq<Inode>, i: nat, at: nat, m: nat, ok: bool)
    requires InodesFit(blk1, ino1) && InodesFit(blk, ino) && SlotsKept(blk1, ino1, blk, ino) && i < |ino|
    requires at + m <= MAXFILE * BSIZE && at % BSIZE + m <= BSIZE && 0 < m && Mapped(blk1, ino1[i], at)
    requires ok ==> AddrOf(blk, ino[i], SlotOf(at / BSIZE)) != 0
    ensures Mapped(blk, ino[i], if ok then at + m else at)
  {
    hide AddrOf;
    forall bn: nat | bn * BSIZE < (if ok then at + m else at) ensures AddrOf(blk, ino[i], SlotOf(bn)) != 0 {
      if bn * BSIZE < at {
        assert AddrOf(blk1, ino1[i], SlotOf(bn)) != 0;
      } else {
        assert bn == at / BSIZE;
      }
    }
  }

  /** Other files are as before. */
  lemma OthersSame(blk0: seq<Block>, ino0: seq<Inode>, blk: seq<Block>, ino: seq<Inode>, i: nat, off: nat, done: seq<byte>)
    requires PartWritten(blk0, ino0, blk, ino, i, off, done) && FilesOk(blk0, ino0)
    ensures SlotsKept(blk0, ino0, blk, ino)
    ensures forall j :: 0 <= j < |ino| && j != i ==> ino[j] == ino0[j] && ino[j].size <= MAXFILE * BSIZE && Content(blk, ino[j]) == Content(blk0, ino0[j])
  {
    hide ByteAt, AddrOf, Content;
    forall j | 0 <= j < |ino| && j != i
      ensures ino[j] == ino0[j] && ino[j].size <= MAXFILE * BSIZE && Content(blk, ino[j]) == Content(blk0, ino0[j])
    {
      assert FileOk(blk0, ino0[j]);
    }
  }

  /** The file written is the old one with the new bytes spliced in. */
  lemma ContentAfter(blk0: seq<Block>, ino0: seq<Inode>, blk: seq<Block>, ino: seq<Inode>, i: nat, off: nat, src: seq<byte>)
    requires PartWritten(blk0, ino0, blk, ino, i, off, src) && FilesOk(blk0, ino0) && off <= ino0[i].size
    ensures ino[i].size == ino0[i].size <= MAXFILE * BSIZE
    ensures
      var size := if |src| > 0 && off + |src| > ino0[i].size then off + |src| else ino0[i].size;
      && Mapped(blk, ino[i], off + |src|)
      && InodeOk(ino[i].(size := size), |blk|)
      && Content(blk, ino[i].(size := size)) == Splice(Content(blk0, ino0[i]), off, src)
  {
    hide AddrOf;
    assert FileOk(blk0, ino0[i]);
    var size := if |src| > 0 && off + |src| > ino0[i].size then off + |src| else ino0[i].size;
    var ip := ino[i].(size := size);
    var c, e := Content(blk, ip), Splice(Content(blk0, ino0[i]), off, src);
    forall k | 0 <= k < |c| ensures c[k] == e[k] {
      SizeKeepsBytes(blk, ino[i], size, k);
    }
  }

  lemma SizeKeepsBytes(blk: seq<Block>, ip: Inode, size: nat, k: nat)
    requires InodeOk(ip, |blk|) && k < MAXFILE * BSIZE
    ensures InodeOk(ip.(size := size), |blk|) && ByteAt(blk, ip.(size := size), k) == ByteAt(blk, ip, k)
  {
  }

  /** A new size, with all blocks there, disturbs nothing. */
  lemma Resized(bit: seq<bool>, blk: seq<Block>, ino: seq<Inode>, owner: map<nat, Owner>, meta: nat, i: nat, size: nat)
    requires Owned(bit, blk, ino, owner, meta) && FilesOk(blk, ino) && i < |ino| && size <= MAXFILE * BSIZE && Mapped(blk, ino[i], size)
    ensures var ino' := ino[i := ino[i].(size := size)];
            && Owned(bit, blk, ino', owner, meta) && FilesOk(blk, ino') && SlotsKept(blk, ino, blk, ino')
  {
    hide GetWord;
    var ino' := ino[i := ino[i].(size := size)];
    assert InodesFit(blk, ino');
    assert forall j: nat, s: nat :: j < |ino| && s < SLOTS ==> AddrOf(blk, ino'[j], s) == AddrOf(blk, ino[j], s);
    hide AddrOf;
    forall j: nat, s: nat | j < |ino'| && s < SLOTS ensures SlotOk(bit, blk, ino', owner, j, s) {
      assert SlotOk(bit, blk, ino, owner, j, s);
    }
    forall a: nat | a in owner ensures meta <= a && BlockOk(bit, blk, ino', owner, a) {
      assert BlockOk(bit, blk, ino, owner, a);
    }
    forall j | 0 <= j < |ino'| ensures FileOk(blk, ino'[j]) {
      assert FileOk(blk, ino[j]);
    }
  }

  lemma BlockPlace(at: nat)
    ensures at == at / BSIZE * BSIZE + at % BSIZE
  {
  }

  /** The bytes of one piece of a read are those of the file. */
  lemma ReadChunk(blk: seq<Block>, ip: Inode, a: nat, at: nat, piece: seq<byte>)
    requires InodeOk(ip, |blk|) && at + |piece| <= MAXFILE * BSIZE && at / BSIZE < MAXFILE && at % BSIZE + |piece| <= BSIZE
    requires 0 < a < |blk| && a == AddrOf(blk, ip, SlotOf(at / BSIZE))
    requires piece == blk[a][at % BSIZE..at % BSIZE + |piece|]
    ensures forall x :: 0 <= x < |piece| ==> piece[x] == ByteAt(blk, ip, at + x)
  {
    hide AddrOf;
    forall x | 0 <= x < |piece| ensures piece[x] == ByteAt(blk, ip, at + x) {
      SameBlock(at, x);
    }
  }

  lemma SameBlock(at: nat, x: nat)
    requires at % BSIZE + x < BSIZE
    ensures (at + x) / BSIZE == at / BSIZE && (at + x) % BSIZE == at % BSIZE + x
  {
  }
}
