/** The image builder.  (tools/mkfs.c) */
module Mkfs {
  import opened CTypes
  import opened DiskLayout
  import opened FsSpec
  import opened Fs

  /** Blocks outside the bitmap agree. */
  ghost predicate Agree(g: Super, d: Disk, e: Disk) {
    |d| == |e| && forall x | 0 <= x < |d| && (x < BBlock(g, 0) || Meta(g) <= x) :: d[x] == e[x]
  }

  /** Two disks that agree outside the bitmap hold the same inodes, and the same names if those lie past it. */
  lemma AgreeInode(g: Super, d: Disk, e: Disk, i: nat)
    requires DiskOk(g, e) && Agree(g, d, e) && i < g.ninodes
    ensures IBlock(i) < g.size && DinodeAt(d, i) == DinodeAt(e, i) == DiskTable(g, e)[i]
  {
    AreasDisjoint(g, i, 0);
  }

  /** There is room, in the file and on the image, for n more bytes of a file without holes. */
  ghost predicate CanAppend(g: Super, d: Disk, i: nat, n: nat)
    requires DiskOk(g, d)
  {
    && i < g.ninodes && var v := DiskTable(g, d)[i];
    Dense(d, v, v.size) && v.size + n <= MAXFILE * BSIZE && RoomFor(g, d, v.size, v.size + n)
  }

  class Image {
    var disk: Disk
    var freeblock: nat
    var usedblocks: nat
    var freeinode: nat
    const g: Super          // the size and inode count the image is built for
    ghost var img: Disk     // disk, with the bits of the blocks handed out so far set

    ghost predicate Valid()
      reads this
    {
      Inv(g, img) && Core()
    }

    ghost predicate Core()
      reads this
    {
      && DiskOk(g, img) && Agree(g, disk, img)
      && (forall x | BBlock(g, 0) <= x < Meta(g) :: disk[x] == ZeroBlock())
      && Meta(g) <= freeblock == usedblocks <= g.size && 1 <= freeinode <= g.ninodes
      && (forall b | 0 <= b < g.size :: Bit(g, img, b) <==> b < freeblock)
    }

    /** The inode table with the local copy din in place of inode inum. */
    ghost function Tab(inum: nat, din: Dinode): Table
      reads this
      requires DiskOk(g, img)
    {
      if inum < g.ninodes then DiskTable(g, img)[inum := din] else DiskTable(g, img)
    }

    /** Inode inum is being appended to, through the local copy din. */
    ghost predicate Appending(inum: nat, din: Dinode)
      reads this
    {
      Core() && inum < g.ninodes && Owns(g, img, Tab(inum, din))
    }

    /** mkfs(nblocks, ninodes, size): zeroes every sector and writes the superblock. */
    constructor (nblocks: nat, ninodes: nat, size: nat)
      requires nblocks + Meta(Super(size, ninodes)) == size && size < UINT && 0 < ninodes < UINT
      ensures Valid() && g == Super(size, ninodes) && freeblock == Meta(g) && freeinode == 1
      ensures forall i | 0 <= i < ninodes :: NewInode(DiskTable(g, img)[i], 0, 0)
      ensures |disk| == size > 1 && WordAt(disk[1], 0) == size && WordAt(disk[1], 4) == nblocks && WordAt(disk[1], 8) == ninodes
      ensures forall x :: 0 <= x < size && x != 1 ==> disk[x] == ZeroBlock()
    {
      usedblocks := ninodes / IPB + 3 + (size / BPB + 1);
      freeblock := ninodes / IPB + 3 + (size / BPB + 1);
      freeinode := 1;
      g := Super(size, ninodes);
      disk, img := [], [];
      new;
      hide Bit, Inv, DiskTable, SuperBlock, ZeroBlock, Agree, DiskOk, WordAt, NewInode;
      var i := 0;
      while i < nblocks + usedblocks
        invariant i == |disk| <= size && forall x | 0 <= x < i :: disk[x] == ZeroBlock()
        invariant usedblocks == freeblock == Meta(g) && freeinode == 1
      {
        disk, i := disk + [ZeroBlock()], i + 1;
      }
      ghost var d0 := disk;
      disk := disk[1 := SuperBlock(size, nblocks, ninodes)];
      img := FreshImage(g, d0, disk, nblocks);
      SuperAt(size, nblocks, ninodes);
    }

    /** winode: the inode goes to its slot of its inode block. */
    method Winode(inum: nat, din: Dinode)
      requires Appending(inum, din) && din.Fits()
      modifies this`disk, this`img
      ensures Valid() && img == PutDinode(old(img), inum, din)
      ensures DiskTable(g, img) == old(DiskTable(g, img))[inum := din] && Free(g, img) == old(Free(g, img))
      ensures NamesSame(old(img), img, DiskTable(g, img))
    {
      hide Bit, Owns, DiskTable, Name, PutWords, Word, NamesSame;
      AreasDisjoint(g, inum, 0);
      BitmapArea(g, 0);
      ghost var e, t := img, Tab(inum, din);
      InodeWrite(g, e, t, inum, din);
      InodeWriteBits(g, e, inum, din);
      assert Free(g, PutDinode(e, inum, din)) == Free(g, e);
      disk := disk[IBlock(inum) := PutWords(disk[IBlock(inum)], inum % IPB * 16, din.Words())];
      img := PutDinode(e, inum, din);
      assert t == DiskTable(g, img);
    }

    /** ialloc: the next inode number, with an empty inode of the given type. */
    method Ialloc(typ: nat) returns (inum: nat)
      requires Valid() && freeinode < g.ninodes && typ < 0x1_0000
      modifies this
      ensures Valid() && inum == old(freeinode) && freeinode == inum + 1 && freeblock == old(freeblock)
      ensures Created(g, old(img), img, inum, FreshInode(typ, 1)) && NewInode(DiskTable(g, img)[inum], typ, 1)
    {
      hide Bit, Owns, DiskTable, Word, Created;
      inum := freeinode;
      OwnsForget(g, img, DiskTable(g, img), inum, FreshInode(typ, 1));
      FreshIsCreated(g, img, inum, FreshInode(typ, 1));
      freeinode := freeinode + 1;
      Winode(inum, FreshInode(typ, 1));
    }

    /** freeblock++, usedblocks++ into an empty address slot. */
    method TakeAddr(inum: nat, din: Dinode, s: nat) returns (din': Dinode)
      requires Appending(inum, din) && s < NADDR && din.addrs[s] == 0 && freeblock < g.size
      modifies this
      ensures din' == din.(addrs := din.addrs[s := old(freeblock)]) && Appending(inum, din')
      ensures freeblock == old(freeblock) + 1 && freeinode == old(freeinode)
      ensures Grew(g, old(img), old(Tab(inum, din)), img, Tab(inum, din'), inum, s, old(freeblock))
    {
      hide Bit, Owns, DiskTable, Word, SetBit, NamesPlus;
      ghost var e, t := img, Tab(inum, din);
      FreeMember(g, e, freeblock);
      GrewAddr(g, e, t, inum, s, freeblock);
      AgreeSetBit(g, disk, e, freeblock);
      din' := din.(addrs := din.addrs[s := freeblock]);
      img := SetBit(g, e, freeblock);
      freeblock, usedblocks := freeblock + 1, usedblocks + 1;
      assert Tab(inum, din') == t[inum := t[inum].(addrs := t[inum].addrs[s := old(freeblock)])];
    }

    /** indirect[k] = freeblock++, usedblocks++, with the indirect block written back. */
    method TakeEntry(inum: nat, din: Dinode, k: nat)
      requires Appending(inum, din) && k < NINDIRECT && din.addrs[NDIRECT] != 0 && freeblock < g.size
      requires Name(img, din, NADDR + k) == 0
      modifies this
      ensures Appending(inum, din) && freeblock == old(freeblock) + 1 && freeinode == old(freeinode)
      ensures Grew(g, old(img), old(Tab(inum, din)), img, Tab(inum, din), inum, NADDR + k, old(freeblock))
    {
      hide Bit, Owns, DiskTable, Word, SetBit, PutWord, NamesPlus, Name;
      ghost var e, t := img, Tab(inum, din);
      var x := din.addrs[NDIRECT];
      FreeMember(g, e, freeblock);
      GrewIndirect(g, e, t, inum, k, freeblock);
      WithEntryBlocks(g, e, x, k, freeblock);
      AgreeSetBit(g, disk, e, freeblock);
      BitmapArea(g, 0);
      disk := disk[x := PutWord(disk[x], k, freeblock)];
      img := WithEntry(g, e, x, k, freeblock);
      freeblock, usedblocks := freeblock + 1, usedblocks + 1;
      assert Tab(inum, din) == t;
    }

    /** The indirect half of iappend's block lookup. */
    method MapEntry(inum: nat, din: Dinode, k: nat) returns (x: nat)
      requires Appending(inum, din) && k < NINDIRECT && din.addrs[NDIRECT] != 0
      requires freeblock + NewBlocks(img, din, NDIRECT + k) <= g.size
      modifies this
      ensures Appending(inum, din) && freeinode == old(freeinode) && x == BlockOf(img, din, NDIRECT + k)
      ensures Mapped(g, old(img), old(Tab(inum, din)), img, Tab(inum, din), inum, NDIRECT + k)
    {
      hide Bit, Owns, Mapped, Grew, Word, DiskTable, Free;
      ghost var e, t := img, Tab(inum, din);
      assert din.addrs[NDIRECT] == Name(e, t[inum], NDIRECT);
      NamedIsData(g, e, t, inum, NDIRECT);
      assert disk[din.addrs[NDIRECT]] == e[din.addrs[NDIRECT]];
      x := Word(disk[din.addrs[NDIRECT]], k);
      assert x == Name(e, t[inum], SlotOf(NDIRECT + k));
      if x == 0 {
        x := freeblock;
        TakeEntry(inum, din, k);
        GrewName(g, e, t, img, Tab(inum, din), inum, NADDR + k, x);
        MappedByGrowth(g, e, t, img, Tab(inum, din), inum, NDIRECT + k, x);
      } else {
        MappedAlready(g, e, t, inum, NDIRECT + k);
      }
    }

    /** iappend's block lookup: the sector of file block fbn, taking fresh blocks for what is missing. */
    method MapBlock(inum: nat, din: Dinode, fbn: nat) returns (x: nat, din': Dinode)
      requires Appending(inum, din) && fbn < MAXFILE && freeblock + NewBlocks(img, din, fbn) <= g.size
      modifies this
      ensures Appending(inum, din') && freeinode == old(freeinode) && x == BlockOf(img, din', fbn)
      ensures Mapped(g, old(img), old(Tab(inum, din)), img, Tab(inum, din'), inum, fbn)
    {
      hide Bit, Owns, Mapped, Grew, Word, DiskTable, Free;
      ghost var e, t := img, Tab(inum, din);
      din' := din;
      if fbn < NDIRECT {
        if din'.addrs[fbn] == 0 {
          din' := TakeAddr(inum, din', fbn);
          MappedByGrowth(g, e, t, img, Tab(inum, din'), inum, fbn, din'.addrs[fbn]);
        } else {
          MappedAlready(g, e, t, inum, fbn);
        }
        return din'.addrs[fbn], din';
      }
      if din'.addrs[NDIRECT] != 0 {
        x := MapEntry(inum, din', fbn - NDIRECT);
      } else {
        ghost var b := freeblock;
        din' := TakeAddr(inum, din', NDIRECT);
        ghost var e1, t1 := img, Tab(inum, din');
        FreshIndirect(g, e, t, e1, t1, inum, fbn, b);
        x := MapEntry(inum, din', fbn - NDIRECT);
        MappedAfterIndirect(g, e, t, e1, t1, img, Tab(inum, din'), inum, fbn, b);
      }
    }

    /** One round of iappend's loop. */
    method AppendBlock(inum: nat, din: Dinode, chunk: seq<Byte>, off: nat,
                       ghost d0: Disk, ghost t0: Table, ghost start: nat, ghost w: seq<Byte>) returns (din': Dinode)
      requires Appending(inum, din) && DiskOk(g, d0) && |t0| == g.ninodes && start <= off && 0 < |chunk| <= BSIZE - off % BSIZE
      requires off + |chunk| <= start + |w| <= MAXFILE * BSIZE && chunk == w[off - start..off - start + |chunk|]
      requires Writing(g, d0, t0, img, Tab(inum, din), inum, start, w, off, Max(t0[inum].size, off))
      requires |Free(g, d0)| >= BlocksFor(Max(t0[inum].size, start + |w|)) - BlocksFor(t0[inum].size)
      modifies this
      ensures Appending(inum, din') && freeinode == old(freeinode)
      ensures Writing(g, d0, t0, img, Tab(inum, din'), inum, start, w, off + |chunk|, Max(t0[inum].size, off + |chunk|))
    {
      hide Bit, Owns, Name, DiskTable, Free, BlocksFor, OthersSame, FileByte, Dense, Mapped, Word, Writing, NewBlocks, BlockOf;
      ghost var d, t := img, Tab(inum, din);
      WritingEnough(g, d0, t0, d, t, inum, start, w, off, |chunk|);
      FreeCount(g, img, freeblock);
      var x;
      x, din' := MapBlock(inum, din, off / BSIZE);
      ghost var d1, t1 := img, Tab(inum, din');
      WritingMapped(g, d0, t0, d, t, d1, t1, inum, start, w, off, |chunk|);
      WritingBlock(g, d0, t0, d1, t1, inum, start, w, off, Max(t0[inum].size, off + |chunk|));
      MappedIsData(g, d1, t1, inum, off / BSIZE);
      assert disk[x] == img[x];
      disk := disk[x := Patch(disk[x], off % BSIZE, chunk)];
      img := img[x := Patch(img[x], off % BSIZE, chunk)];
      WritingData(g, d0, t0, d1, t1, img, inum, start, w, off, |chunk|);
      assert img == d1[x := img[x]];
      DataWriteBits(g, d1, x, img[x]);
      assert forall b | 0 <= b < g.size :: Bit(g, img, b) == Bit(g, d1, b);
      BitmapArea(g, 0);
      assert Tab(inum, din') == t1;
    }

    /** The end of iappend: din.size = off and winode. */
    method SetSize(inum: nat, din: Dinode, off: nat, ghost d0: Disk, ghost t0: Table, ghost start: nat, ghost p: seq<Byte>)
      requires Inv(g, d0) && t0 == DiskTable(g, d0) && inum < |t0| && start == t0[inum].size && off == start + |p| < UINT
      requires Appending(inum, din) && Writing(g, d0, t0, img, Tab(inum, din), inum, start, p, off, Max(start, off))
      modifies this`disk, this`img
      ensures Valid() && Wrote(g, d0, img, inum, start, p)
    {
      hide Bit, Owns, Name, DiskTable, Free, BlocksFor, OthersSame, FileByte, Dense, Writing, Wrote, BlockOf, NamesSame, Word;
      ghost var d1, t1 := img, Tab(inum, din);
      WritingFacts(g, d0, t0, d1, t1, inum, start, p, off, Max(t0[inum].size, off));
      Resized(g, d1, t1, inum, off, t0[inum]);
      var din := din.(size := off);
      assert Tab(inum, din) == t1[inum := t1[inum].(size := off)];
      Winode(inum, din);
      WroteMore(g, d0, t0, d1, t1, img, inum, start, p);
    }

    /** iappend: the bytes of p go at the end of inode inum. */
    method Iappend(inum: nat, p: seq<Byte>)
      requires Valid() && inum < freeinode && CanAppend(g, img, inum, |p|)
      modifies this
      ensures Valid() && freeinode == old(freeinode)
      ensures Wrote(g, old(img), img, inum, old(DiskTable(g, img))[inum].size, p)
    {
      hide Bit, Owns, Name, DiskTable, Free, BlocksFor, OthersSame, FileByte, Dense, Writing, Wrote, BlockOf, NamesSame, Word;
      AgreeInode(g, disk, img, inum);
      var din := DinodeAt(disk, inum);
      ghost var d0, t0, start := img, DiskTable(g, img), din.size;
      var off, done := din.size, 0;
      assert Tab(inum, din) == t0;
      WritingStart(g, d0, t0, inum, start, p);
      while done < |p|
        invariant 0 <= done <= |p| && off == start + done && Appending(inum, din) && freeinode == old(freeinode)
        invariant Writing(g, d0, t0, img, Tab(inum, din), inum, start, p, off, Max(t0[inum].size, off))
      {
        var n1 := Min(|p| - done, (off / BSIZE + 1) * BSIZE - off);
        din := AppendBlock(inum, din, p[done..done + n1], off, d0, t0, start, p);
        done, off := done + n1, off + n1;
      }
      SetSize(inum, din, off, d0, t0, start, p);
    }

    /** The final balloc(usedblocks): the bitmap block for the blocks handed out. */
    method Balloc(used: nat)
      requires Valid() && used == usedblocks && used < BPB
      modifies this`disk
      ensures Inv(g, disk) && DiskTable(g, disk) == DiskTable(g, img) && Agree(g, disk, img)
      ensures forall b | 0 <= b < g.size :: Bit(g, disk, b) <==> b < used
    {
      hide Owns, BitOf, DiskTable, Word;
      var buf := FirstBits(used);
      BitmapArea(g, 0);
      ghost var d0 := disk;
      disk := disk[g.ninodes / IPB + 3 := buf];
      assert Agree(g, disk, img);
      BitmapWritten(g, disk, img, buf, used);
      hide Bit, Agree;
      AgreeOwns(g, disk, img);
    }
  }

  /** From the image builder to the kernel: p is appended to a file, the bitmap is written, and the kernel
      reads the file on the finished disk. */
  method AppendThenRead(m: Image, inum: nat, p: seq<Byte>, off: nat, n: nat) returns (r: int, dst: seq<Byte>)
    requires m.Valid() && inum < m.freeinode && CanAppend(m.g, m.img, inum, |p|) && off < UINT && n < UINT
    requires DiskTable(m.g, m.img)[inum].typ != T_DEV
    requires m.freeblock + BlocksFor(DiskTable(m.g, m.img)[inum].size + |p|) - BlocksFor(DiskTable(m.g, m.img)[inum].size) < BPB
    modifies m
    ensures var c := old(Content(m.img, DiskTable(m.g, m.img)[inum])) + p;
            if off > |c| || off + n >= UINT then r == -1 && dst == [] else ReadBack(c, off, n, r, dst)
  {
    hide Bit, Owns, DiskTable, Free, BlocksFor, Content, Dense, OthersSame, Agree;
    ghost var d0, v0 := m.img, DiskTable(m.g, m.img)[inum];
    FreeCount(m.g, m.img, m.freeblock);
    m.Iappend(inum, p);
    FreeCount(m.g, m.img, m.freeblock);
    assert Splice(Content(d0, v0), v0.size, p) == Content(d0, v0) + p;
    m.Balloc(m.usedblocks);
    ImageContent(m.g, m.disk, m.img, inum);
    var fs := new FileSystem(m.disk, m.g);
    var ip := fs.Ilock(inum);
    r, dst := fs.Readi(ip, off, n);
  }

  /** A block whose first used bits are set. */
  method FirstBits(used: nat) returns (buf: Block)
    requires used < BPB
    ensures forall j :: 0 <= j < BPB ==> (BitOf(buf[j/8], j%8) <==> j < used)
  {
    hide BitOf;
    buf := ZeroBlock();
    var i := 0;
    ZeroBits();
    while i < used
      invariant 0 <= i <= used
      invariant forall j :: 0 <= j < BPB ==> (BitOf(buf[j/8], j%8) <==> j < i)
    {
      ghost var was := buf;
      buf := buf[i/8 := OrMask(buf[i/8], i%8)];
      forall j | 0 <= j < BPB
        ensures BitOf(buf[j/8], j%8) <==> j < i + 1
      {
        SetBitOf(was[i/8], i%8, j%8);
        assert j/8 == i/8 && j%8 == i%8 ==> j == i;
      }
      i := i + 1;
    }
  }

  /** The finished image holds, file by file, what was appended. */
  lemma ImageContent(g: Super, d: Disk, e: Disk, i: nat)
    requires Inv(g, e) && Inv(g, d) && Agree(g, d, e) && DiskTable(g, d) == DiskTable(g, e) && i < g.ninodes
    ensures Content(d, DiskTable(g, d)[i]) == Content(e, DiskTable(g, e)[i])
    ensures forall lim :: Dense(e, DiskTable(g, e)[i], lim) ==> Dense(d, DiskTable(g, d)[i], lim)
  {
    hide Bit, Word, Name, DiskTable, Owns, FileByte, BlockOf;
    var t := DiskTable(g, e);
    if Name(e, t[i], NDIRECT) != 0 {
      NamedIsData(g, e, t, i, NDIRECT);
    }
    forall k | 0 <= k < MAXFILE
      ensures BlockOf(d, t[i], k) == BlockOf(e, t[i], k)
    {
      NameFrame(e, d, t[i], SlotOf(k));
      NamedBlock(d, t[i], k);
      NamedBlock(e, t[i], k);
    }
    forall p | 0 <= p < t[i].size
      ensures FileByte(d, t[i], p) == FileByte(e, t[i], p)
    {
      if p / BSIZE < MAXFILE && BlockOf(e, t[i], p / BSIZE) != 0 {
        MappedIsData(g, e, t, i, p / BSIZE);
      }
      ByteOf(d, t[i], p);
      ByteOf(e, t[i], p);
    }
  }

  lemma NamedBlock(d: Disk, v: Dinode, k: nat)
    requires k < MAXFILE
    ensures BlockOf(d, v, k) == Name(d, v, SlotOf(k))
  {}

  lemma ByteOf(d: Disk, v: Dinode, p: nat)
    ensures FileByte(d, v, p) == if p / BSIZE < MAXFILE && 0 < BlockOf(d, v, p / BSIZE) < |d|
                                 then d[BlockOf(d, v, p / BSIZE)][p % BSIZE] else 0
  {}

  /** The bits of a bitmap that is zero except for its first block. */
  lemma BitmapWritten(g: Super, d: Disk, e: Disk, buf: Block, used: nat)
    requires DiskOk(g, e) && Agree(g, d, e) && used < BPB
    requires forall x | BBlock(g, 0) <= x < Meta(g) :: d[x] == if x == BBlock(g, 0) then buf else ZeroBlock()
    requires forall j :: 0 <= j < BPB ==> (BitOf(buf[j/8], j%8) <==> j < used)
    ensures DiskOk(g, d) && forall b | 0 <= b < g.size :: Bit(g, d, b) <==> b < used
  {
    BitmapArea(g, 0);
    forall b | 0 <= b < g.size
      ensures Bit(g, d, b) <==> b < used
    {
      BitmapArea(g, b);
      if b < BPB {
        assert b % BPB == b && BBlock(g, b) == BBlock(g, 0);
      } else {
        assert BBlock(g, b) != BBlock(g, 0);
        ZeroHasNoBits(b % BPB % 8);
      }
    }
  }

  /** A disk that differs from e only in how its bitmap bytes came about owns what e owns. */
  lemma AgreeOwns(g: Super, d: Disk, e: Disk)
    requires DiskOk(g, d) && Inv(g, e) && Agree(g, d, e)
    requires forall b | 0 <= b < g.size :: Bit(g, d, b) == Bit(g, e, b)
    ensures Inv(g, d) && DiskTable(g, d) == DiskTable(g, e)
  {
    hide Bit, Word, Name, Owns;
    BitmapArea(g, 0);
    DiskTableFrame(g, e, d);
    var t := DiskTable(g, e);
    forall j, r | 0 <= j < |t| && 0 <= r < NSLOT
      ensures Name(d, t[j], r) == Name(e, t[j], r)
    {
      if Name(e, t[j], NDIRECT) != 0 {
        NamedIsData(g, e, t, j, NDIRECT);
      }
      NameFrame(e, d, t[j], r);
    }
    forall c | c in Free(g, e)
      ensures d[c] == e[c]
    {
      FreeIsData(g, e, t, c);
    }
    OwnsSame(g, e, d, t);
  }

  lemma {:induction false} ZeroHasNoBits(k: nat)
    ensures !BitOf(0, k)
  {
    if k != 0 {
      ZeroHasNoBits(k - 1);
    }
  }

  lemma ZeroBits()
    ensures forall j :: 0 <= j < BPB ==> !BitOf(ZeroBlock()[j/8], j%8)
  {
    forall j | 0 <= j < BPB
      ensures !BitOf(ZeroBlock()[j/8], j%8)
    {
      ZeroHasNoBits(j%8);
    }
  }

  function SuperBlock(size: nat, nblocks: nat, ninodes: nat): Block
    requires size < UINT && nblocks < UINT && ninodes < UINT
  {
    PutWord(PutWord(PutWord(ZeroBlock(), 0, size), 1, nblocks), 2, ninodes)
  }

  lemma SuperAt(size: nat, nblocks: nat, ninodes: nat)
    requires size < UINT && nblocks < UINT && ninodes < UINT
    ensures var b := SuperBlock(size, nblocks, ninodes); WordAt(b, 0) == size && WordAt(b, 4) == nblocks && WordAt(b, 8) == ninodes
  {
    hide Word, SuperBlock, WordAt;
    SuperWords(size, nblocks, ninodes);
    WordIsAt(SuperBlock(size, nblocks, ninodes), 0);
    WordIsAt(SuperBlock(size, nblocks, ninodes), 1);
    WordIsAt(SuperBlock(size, nblocks, ninodes), 2);
  }

  lemma SuperWords(size: nat, nblocks: nat, ninodes: nat)
    requires size < UINT && nblocks < UINT && ninodes < UINT
    ensures Word(SuperBlock(size, nblocks, ninodes), 0) == size && Word(SuperBlock(size, nblocks, ninodes), 2) == ninodes
    ensures Word(SuperBlock(size, nblocks, ninodes), 1) == nblocks
  {
    hide Word, PutWord;
    var b1 := PutWord(ZeroBlock(), 0, size);
    var b2 := PutWord(b1, 1, nblocks);
    WordPutWord(ZeroBlock(), 0, size, 0);
    WordPutWord(b1, 1, nblocks, 0);
    WordPutWord(b1, 1, nblocks, 1);
    WordPutWord(b2, 2, ninodes, 1);
    WordPutWord(b2, 2, ninodes, 0);
    WordPutWord(b2, 2, ninodes, 2);
  }

  /** d with the bits of blocks 0 up to n set. */
  lemma {:induction false} Marked(g: Super, d: Disk, n: nat) returns (e: Disk)
    requires DiskOk(g, d) && n <= g.size && forall b | 0 <= b < n :: !Bit(g, d, b)
    ensures DiskOk(g, e) && Agree(g, d, e)
    ensures forall b | 0 <= b < g.size :: Bit(g, e, b) <==> b < n || Bit(g, d, b)
  {
    hide Bit, Word, SetBit;
    e := d;
    if n != 0 {
      var e' := Marked(g, d, n - 1);
      AgreeSetBit(g, d, e', n - 1);
      e := SetBit(g, e', n - 1);
    }
  }

  lemma AgreeSetBit(g: Super, d: Disk, e: Disk, b: nat)
    requires DiskOk(g, e) && b < g.size && !Bit(g, e, b) && Agree(g, d, e)
    ensures DiskOk(g, SetBit(g, e, b)) && Agree(g, d, SetBit(g, e, b))
    ensures forall c | 0 <= c < g.size :: Bit(g, SetBit(g, e, b), c) <==> c == b || Bit(g, e, c)
  {
    hide Bit, Word;
    SetBitBits(g, e, b);
    BitmapArea(g, b);
    BitmapArea(g, 0);
  }

  lemma ZeroDiskBits(g: Super, d: Disk)
    requires DiskOk(g, d) && forall x | 0 <= x < g.size && x != 1 :: d[x] == ZeroBlock()
    ensures forall b | 0 <= b < g.size :: !Bit(g, d, b)
  {
    hide Word;
    forall b | 0 <= b < g.size
      ensures !Bit(g, d, b)
    {
      BitmapArea(g, b);
      ZeroHasNoBits(b % BPB % 8);
    }
  }

  /** The all-zero image with the metadata blocks marked satisfies the invariant. */
  lemma EmptyImage(g: Super, d: Disk, e: Disk)
    requires DiskOk(g, d) && DiskOk(g, e) && Agree(g, d, e)
    requires forall x | 0 <= x < g.size && x != 1 :: d[x] == ZeroBlock()
    requires forall b | 0 <= b < g.size :: Bit(g, e, b) <==> b < Meta(g)
    ensures Inv(g, e) && forall i | 0 <= i < g.ninodes :: DiskTable(g, e)[i] == FreshInode(0, 0)
  {
    hide Bit, Word, SlotWords, FromWords;
    BitmapArea(g, 0);
    forall i | 0 <= i < g.ninodes
      ensures DiskTable(g, e)[i] == FreshInode(0, 0)
    {
      AreasDisjoint(g, i, 0);
      ZeroDinode(i % IPB);
    }
    hide DinodeAt;
    var t := DiskTable(g, e);
    assert forall j, r | 0 <= j < |t| && 0 <= r < NSLOT :: Name(e, t[j], r) == 0;
  }

  /** The zeroed disk with its superblock, and what it looks like with the metadata blocks marked. */
  lemma FreshImage(g: Super, d0: Disk, d: Disk, nblocks: nat) returns (e: Disk)
    requires nblocks + Meta(g) == g.size == |d0| < UINT && 0 < g.ninodes < UINT
    requires (forall x | 0 <= x < g.size :: d0[x] == ZeroBlock()) && d == d0[1 := SuperBlock(g.size, nblocks, g.ninodes)]
    ensures DiskOk(g, e) && Agree(g, d, e) && Inv(g, e)
    ensures forall x | BBlock(g, 0) <= x < Meta(g) :: d[x] == ZeroBlock()
    ensures forall b | 0 <= b < g.size :: Bit(g, e, b) <==> b < Meta(g)
    ensures forall i | 0 <= i < g.ninodes :: NewInode(DiskTable(g, e)[i], 0, 0)
  {
    hide Bit, Owns, DiskTable, PutWord, Word, ZeroBlock;
    SuperWords(g.size, nblocks, g.ninodes);
    hide SuperBlock;
    ZeroDiskBits(g, d);
    e := Marked(g, d, Meta(g));
    EmptyImage(g, d, e);
    BitmapArea(g, 0);
  }

  lemma ZeroDinode(slot: nat)
    requires slot < IPB
    ensures FromWords(SlotWords(ZeroBlock(), slot)) == FreshInode(0, 0)
  {
    assert SlotWords(ZeroBlock(), slot) == seq(16, _ => 0);
  }

  lemma FreeMember(g: Super, e: Disk, b: nat)
    requires DiskOk(g, e) && b < g.size && !Bit(g, e, b)
    ensures b in Free(g, e)
  {}

  lemma GrewName(g: Super, d: Disk, t: Table, d': Disk, t': Table, i: nat, s: nat, b: nat)
    requires DiskOk(g, d) && DiskOk(g, d') && i < |t| == |t'| && s < NSLOT && Grew(g, d, t, d', t', i, s, b)
    ensures Name(d', t'[i], s) == b
  {
    hide Name, Bit, Owns, Keeps;
  }

  lemma FreeCount(g: Super, e: Disk, n: nat)
    requires DiskOk(g, e) && n <= g.size && forall b | 0 <= b < g.size :: Bit(g, e, b) <==> b < n
    ensures |Free(g, e)| == g.size - n
  {
    hide Bit;
    assert Free(g, e) == Range(g.size) - Range(n);
    assert Range(n) <= Range(g.size);
  }

  lemma MappedIsData(g: Super, d: Disk, t: Table, i: nat, k: nat)
    requires DiskOk(g, d) && Owns(g, d, t) && i < |t| && k < MAXFILE && BlockOf(d, t[i], k) != 0
    ensures Meta(g) <= BlockOf(d, t[i], k) < g.size
  {
    hide Bit, Name, Owns, Word;
    NamedIsData(g, d, t, i, SlotOf(k));
  }
}
