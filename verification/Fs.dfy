/** Block allocation, block map, truncation and byte-level reads and writes.  (kernel/fs.c) */
module Fs {
  import opened CTypes
  import opened DiskLayout
  import opened FsSpec

  /** The slot that names block number k of a file. */
  function SlotOf(k: nat): nat { if k < NDIRECT then k else k + 1 }

  /** The disk block holding block number k of the file, 0 if there is none. */
  function BlockOf(d: Disk, di: Dinode, k: nat): nat
    requires k < MAXFILE
  {
    Name(d, di, SlotOf(k))
  }

  /** The file has a disk block for exactly the block numbers below lim bytes, and an indirect
      block exactly when it needs one: no holes and no stray blocks. */
  ghost predicate Dense(d: Disk, di: Dinode, lim: nat) {
    && lim <= MAXFILE * BSIZE
    && (forall k | 0 <= k < MAXFILE :: BlockOf(d, di, k) != 0 <==> k * BSIZE < lim)
    && (di.addrs[NDIRECT] != 0 <==> NDIRECT * BSIZE < lim)
  }

  /** Blocks, indirect block included, of a dense file of n bytes. */
  function BlocksFor(n: nat): nat {
    (n + BSIZE - 1) / BSIZE + if NDIRECT * BSIZE < n then 1 else 0
  }

  /** Byte p of the file. */
  function FileByte(d: Disk, di: Dinode, p: nat): Byte {
    if p / BSIZE < MAXFILE && 0 < BlockOf(d, di, p / BSIZE) < |d| then d[BlockOf(d, di, p / BSIZE)][p % BSIZE] else 0
  }

  /** The file as a flat byte sequence. */
  function Content(d: Disk, di: Dinode): (c: seq<Byte>)
    ensures |c| == di.size
  {
    seq(di.size, p requires 0 <= p < di.size => FileByte(d, di, p))
  }

  /** c with the bytes from off on replaced by w, extended if w runs past the end. */
  function Splice(c: seq<Byte>, off: nat, w: seq<Byte>): seq<Byte>
    requires off <= |c|
  {
    c[..off] + w + if off + |w| < |c| then c[off + |w|..] else []
  }

  /** The invariant between operations: the disk's own inode table owns its blocks. */
  ghost predicate Inv(g: Super, d: Disk) {
    DiskOk(g, d) && Owns(g, d, DiskTable(g, d))
  }

  /** Every inode but i has, in d', the names and the data it had in d. */
  ghost predicate OthersSame(g: Super, d: Disk, d': Disk, t: Table, i: nat)
    requires DiskOk(g, d) && DiskOk(g, d')
  {
    forall j, r | 0 <= j < |t| && 0 <= r < NSLOT && j != i ::
      && Name(d', t[j], r) == Name(d, t[j], r)
      && (r != NDIRECT && 0 < Name(d, t[j], r) < g.size ==> d'[Name(d, t[j], r)] == d[Name(d, t[j], r)])
  }

  /** So every other file reads the same. */
  lemma OtherContentSame(g: Super, d: Disk, d': Disk, t: Table, i: nat, j: nat)
    requires DiskOk(g, d) && DiskOk(g, d') && OthersSame(g, d, d', t, i) && j < |t| && j != i
    ensures Content(d', t[j]) == Content(d, t[j])
    ensures forall lim :: Dense(d, t[j], lim) ==> Dense(d', t[j], lim)
  {
    hide Bit, Name;
    forall p | 0 <= p < t[j].size
      ensures FileByte(d', t[j], p) == FileByte(d, t[j], p)
    {
      if p / BSIZE < MAXFILE {
        assert Name(d', t[j], SlotOf(p / BSIZE)) == Name(d, t[j], SlotOf(p / BSIZE));
      }
    }
    assert Name(d', t[j], NDIRECT) == Name(d, t[j], NDIRECT);
    forall k | 0 <= k < MAXFILE
      ensures BlockOf(d', t[j], k) == BlockOf(d, t[j], k)
    {
      assert Name(d', t[j], SlotOf(k)) == Name(d, t[j], SlotOf(k));
    }
  }

  /** Where balloc's scan ends: a whole number of bitmap blocks, at or past the size of the disk. */
  function ScanEnd(g: Super): nat { (g.size + BPB - 1) / BPB * BPB }

  /** What the scan tests for number p: a bit of the bitmap, though p may lie past the size. */
  predicate Scanned(g: Super, d: Disk, p: nat)
    requires DiskOk(g, d)
  {
    BBlock(g, p) < g.size && BitOf(d[BBlock(g, p)][p % BPB / 8], p % BPB % 8)
  }

  /** The scan advances by whole bitmap blocks. */
  lemma ScanRounds(g: Super, b: nat)
    requires b % BPB == 0
    ensures b < g.size ==> b + BPB <= ScanEnd(g) && (b + BPB >= g.size ==> b + BPB == ScanEnd(g))
    ensures g.size == 0 ==> ScanEnd(g) == 0
  {}

  /** The first clear bit is that of the first free block, or no block of the disk is free. */
  lemma FirstClear(g: Super, d: Disk, r: nat)
    requires DiskOk(g, d) && !Scanned(g, d, r) && forall p :: 0 <= p < r ==> Scanned(g, d, p)
    ensures r < g.size <==> Free(g, d) != {}
    ensures r < g.size ==> r in Free(g, d) && forall b :: b in Free(g, d) ==> r <= b
  {
    hide Scanned, Bit;
    forall p | 0 <= p < g.size ensures Scanned(g, d, p) == Bit(g, d, p) { ScannedBit(g, d, p); }
    if r < g.size { assert r in Free(g, d); }
  }

  lemma NoneClear(g: Super, d: Disk)
    requires DiskOk(g, d) && forall p :: 0 <= p < ScanEnd(g) ==> Scanned(g, d, p)
    ensures Free(g, d) == {}
  {
    hide Scanned, Bit;
    forall p | 0 <= p < g.size ensures Bit(g, d, p) { ScannedBit(g, d, p); }
  }

  lemma ScannedBit(g: Super, d: Disk, p: nat)
    requires DiskOk(g, d) && p < g.size
    ensures Scanned(g, d, p) == Bit(g, d, p)
  {
    BitmapArea(g, p);
  }

  /** Bit bi of the bitmap block for b is the bit of block b + bi. */
  lemma ScanPosition(g: Super, d: Disk, b: nat, bi: nat)
    requires DiskOk(g, d) && b % BPB == 0 && bi < BPB && b < g.size
    ensures BBlock(g, b) < g.size && BBlock(g, b + bi) == BBlock(g, b) && (b + bi) % BPB == bi
    ensures Scanned(g, d, b + bi) == BitOf(d[BBlock(g, b)][bi/8], bi % 8)
    ensures b + bi < g.size && !Scanned(g, d, b + bi) ==>
              !Bit(g, d, b + bi) && SetBit(g, d, b + bi) == PutByte(d, BBlock(g, b), bi / 8, OrMask(d[BBlock(g, b)][bi/8], bi % 8))
  {
    hide BitOf, OrMask;
    BitmapArea(g, b);
    assert (b + bi) / BPB == b / BPB;
  }

  lemma NameOfEntry(d: Disk, v: Dinode, k: nat)
    requires k < NINDIRECT && 0 < v.addrs[NDIRECT] < |d|
    ensures Name(d, v, NADDR + k) == Word(d[v.addrs[NDIRECT]], k)
  {}

  /** The in-memory copy of an inode. */
  class Inode {
    const inum: nat
    var v: Dinode

    constructor (inum: nat, v: Dinode)
      ensures this.inum == inum && this.v == v
    {
      this.inum := inum;
      this.v := v;
    }
  }

  class FileSystem {
    var disk: Disk
    ghost const g: Super

    /** The kernel on a disk, with its superblock's size and inode count. */
    constructor (d: Disk, ghost g: Super)
      requires Inv(g, d)
      ensures disk == d && this.g == g
    {
      disk := d;
      this.g := g;
    }

    /** The effective inode table while ip is being changed: the disk's, with ip's memory copy. */
    ghost function Tab(ip: Inode): Table
      reads this, ip
      requires DiskOk(g, disk)
    {
      if ip.inum < g.ninodes then DiskTable(g, disk)[ip.inum := ip.v] else DiskTable(g, disk)
    }

    ghost predicate Owning(ip: Inode)
      reads this, ip
    {
      DiskOk(g, disk) && ip.inum < g.ninodes && Owns(g, disk, Tab(ip))
    }

    /** ip is a locked, up-to-date copy of a non-device inode without holes. */
    ghost predicate Ready(ip: Inode)
      reads this, ip
    {
      && Inv(g, disk) && ip.inum < g.ninodes && ip.v == DiskTable(g, disk)[ip.inum]
      && ip.v.typ != T_DEV && Dense(disk, ip.v, ip.v.size)
    }

    method Readsb() returns (sb: Super)
      requires DiskOk(g, disk)
      ensures sb == g
    {
      sb := Super(Word(disk[1], 0), Word(disk[1], 2));
    }

    /** Takes the first block whose bit is clear; -1 stands for the panic.  The scan tests whole
        bitmap blocks, bits past sb.size included, so it yields a block of the disk exactly when
        some block of the disk is free, and panics exactly when every scanned bit is set. */
    method Balloc() returns (r: int)
      requires DiskOk(g, disk)
      modifies this
      ensures r == -1 <==> forall p :: 0 <= p < ScanEnd(g) ==> Scanned(g, old(disk), p)
      ensures r != -1 ==> 0 <= r < ScanEnd(g) && !Scanned(g, old(disk), r) && forall p :: 0 <= p < r ==> Scanned(g, old(disk), p)
      ensures 0 <= r < g.size <==> old(Free(g, disk)) != {}
      ensures old(Free(g, disk)) != {} ==>
                r in old(Free(g, disk)) && (forall b :: b in old(Free(g, disk)) ==> r <= b) && disk == SetBit(g, old(disk), r)
      ensures r == -1 ==> disk == old(disk)
    {
      hide BitOf, OrMask, Bit, Scanned, Free, ScanEnd, SetBit, Word, BBlock, Meta;
      var sb := Readsb();
      var b := 0;
      ScanRounds(g, b);
      while b < sb.size
        invariant b % BPB == 0 && disk == old(disk) && DiskOk(g, disk) && b <= ScanEnd(g) && (b >= g.size ==> b == ScanEnd(g))
        invariant forall p :: 0 <= p < b ==> Scanned(g, disk, p)
      {
        BitmapArea(sb, b);
        ScanRounds(g, b);
        var bno := BBlock(sb, b);
        var data := disk[bno];
        var bi := 0;
        while bi < BPB
          invariant 0 <= bi <= BPB && disk == old(disk)
          invariant forall p :: 0 <= p < b + bi ==> Scanned(g, disk, p)
        {
          ScanPosition(g, disk, b, bi);
          if !BitOf(data[bi/8], bi % 8) {
            FirstClear(g, disk, b + bi);
            disk := disk[bno := data[bi/8 := OrMask(data[bi/8], bi % 8)]];
            return b + bi;
          }
          bi := bi + 1;
        }
        b := b + BPB;
      }
      NoneClear(g, disk);
      return -1;
    }

    /** ip->addrs[s] = balloc() */
    method BallocAddr(ip: Inode, s: nat) returns (addr: nat)
      requires Owning(ip) && s < NADDR && ip.v.addrs[s] == 0 && Free(g, disk) != {}
      modifies this, ip
      ensures Owning(ip) && Grew(g, old(disk), old(Tab(ip)), disk, Tab(ip), ip.inum, s, addr)
      ensures addr != 0 && addr == ip.v.addrs[s] && addr < g.size
    {
      hide Bit, SetBit, Owns, Scanned, ScanEnd, DiskTable;
      ghost var d, t := disk, Tab(ip);
      var r := Balloc();
      addr := r;
      FreeIsData(g, d, t, addr);
      GrewAddr(g, d, t, ip.inum, s, addr);
      ip.v := ip.v.(addrs := ip.v.addrs[s := addr]);
      assert Tab(ip) == t[ip.inum := t[ip.inum].(addrs := t[ip.inum].addrs[s := addr])];
    }

    /** a[k] = balloc(), with the indirect block x held in a, and x written back. */
    method BallocEntry(ip: Inode, x: nat, k: nat, a: Block) returns (addr: nat)
      requires Owning(ip) && k < NINDIRECT && ip.v.addrs[NDIRECT] == x && 0 < x < g.size && a == disk[x]
      requires Word(a, k) == 0 && Free(g, disk) != {}
      modifies this
      ensures Owning(ip) && Grew(g, old(disk), old(Tab(ip)), disk, Tab(ip), ip.inum, NADDR + k, addr)
      ensures addr != 0 && addr < g.size && addr == Word(disk[x], k)
    {
      hide Bit, SetBit, Owns, PutWord, DiskTable, NamesPlus, Word, Name, Scanned, ScanEnd, BBlock;
      ghost var d, t := disk, Tab(ip);
      NameOfEntry(d, t[ip.inum], k);
      var r := Balloc();
      addr := r;
      FreeIsData(g, d, t, addr);
      GrewIndirect(g, d, t, ip.inum, k, addr);
      WordPutWord(a, k, addr, k);
      disk := disk[x := PutWord(a, k, addr)];
      assert disk == WithEntry(g, d, x, k, addr);
      assert Tab(ip) == t;
    }

    /** The block named by entry k of the indirect block, allocating it if there is none. */
    method BmapEntry(ip: Inode, k: nat) returns (addr: nat)
      requires Owning(ip) && k < NINDIRECT && ip.v.addrs[NDIRECT] != 0
      requires |Free(g, disk)| >= NewBlocks(disk, ip.v, NDIRECT + k)
      modifies this
      ensures Owning(ip) && Mapped(g, old(disk), old(Tab(ip)), disk, Tab(ip), ip.inum, NDIRECT + k)
      ensures addr == BlockOf(disk, ip.v, NDIRECT + k)
    {
      hide Bit, Owns, Mapped, Grew, Word, DiskTable, Free;
      ghost var d, t := disk, Tab(ip);
      var x := ip.v.addrs[NDIRECT];
      assert x == Name(d, t[ip.inum], NDIRECT);
      NamedIsData(g, d, t, ip.inum, NDIRECT);
      var a := disk[x];
      addr := Word(a, k);
      assert addr == Name(d, t[ip.inum], SlotOf(NDIRECT + k));
      if addr == 0 {
        addr := BallocEntry(ip, x, k, a);
        MappedByGrowth(g, d, t, disk, Tab(ip), ip.inum, NDIRECT + k, addr);
      } else {
        MappedAlready(g, d, t, ip.inum, NDIRECT + k);
      }
    }

    /** The disk block of block number bn, allocating it (and the indirect block) if there is none. */
    method Bmap(ip: Inode, bn: nat) returns (addr: nat)
      requires Owning(ip) && bn < MAXFILE
      requires |Free(g, disk)| >= NewBlocks(disk, ip.v, bn)
      modifies this, ip
      ensures Owning(ip) && Mapped(g, old(disk), old(Tab(ip)), disk, Tab(ip), ip.inum, bn)
      ensures addr == BlockOf(disk, ip.v, bn)
    {
      hide Bit, Owns, Mapped, Grew, Word, DiskOk, DiskTable, Free;
      ghost var d, t := disk, Tab(ip);
      if bn < NDIRECT {
        addr := ip.v.addrs[bn];
        if addr == 0 {
          addr := BallocAddr(ip, bn);
          MappedByGrowth(g, d, t, disk, Tab(ip), ip.inum, bn, addr);
        } else {
          MappedAlready(g, d, t, ip.inum, bn);
        }
        return;
      }
      if ip.v.addrs[NDIRECT] != 0 {
        addr := BmapEntry(ip, bn - NDIRECT);
      } else {
        var x := BallocAddr(ip, NDIRECT);
        ghost var d1, t1 := disk, Tab(ip);
        FreshIndirect(g, d, t, d1, t1, ip.inum, bn, x);
        addr := BmapEntry(ip, bn - NDIRECT);
        MappedAfterIndirect(g, d, t, d1, t1, disk, Tab(ip), ip.inum, bn, x);
      }
    }

    /** Copies the memory inode to its place in the on-disk table. */
    method Iupdate(ip: Inode)
      requires Owning(ip) && ip.v.Fits()
      modifies this
      ensures Owning(ip) && Tab(ip) == old(Tab(ip)) == DiskTable(g, disk)
      ensures DiskTable(g, disk) == old(DiskTable(g, disk))[ip.inum := ip.v] && Free(g, disk) == old(Free(g, disk))
      ensures NamesSame(old(disk), disk, Tab(ip))
      ensures forall x | 0 <= x < g.size && x != IBlock(ip.inum) :: disk[x] == old(disk)[x]
    {
      hide Bit, Owns, DiskTable, Name, PutWords, Word, NamesSame;
      ghost var d, t := disk, Tab(ip);
      InodeWrite(g, d, t, ip.inum, ip.v);
      assert Free(g, PutDinode(d, ip.inum, ip.v)) == Free(g, d);
      disk := disk[IBlock(ip.inum) := PutWords(disk[IBlock(ip.inum)], ip.inum % IPB * 16, ip.v.Words())];
      assert disk == PutDinode(d, ip.inum, ip.v);
      assert Tab(ip) == t == DiskTable(g, disk);
    }

    /** Reads the inode in from disk. */
    method Ilock(inum: nat) returns (ip: Inode)
      requires Inv(g, disk) && inum < g.ninodes
      ensures fresh(ip) && ip.inum == inum && ip.v == DiskTable(g, disk)[inum] && Owning(ip)
    {
      hide Bit, Owns, DinodeAt, Word;
      AreasDisjoint(g, inum, 0);
      ip := new Inode(inum, DinodeAt(disk, inum));
      assert Tab(ip) == DiskTable(g, disk);
    }

    /** Takes the first free inode from 1 on and empties it; -1 stands for the panic. */
    method Ialloc(typ: nat) returns (inum: int)
      requires Inv(g, disk) && 0 < typ < 0x1_0000
      modifies this
      ensures inum == -1 || 1 <= inum < g.ninodes
      ensures forall i | 1 <= i < if inum == -1 then g.ninodes else inum :: old(DiskTable(g, disk))[i].typ != 0
      ensures if inum == -1 then disk == old(disk)
              else old(DiskTable(g, disk))[inum].typ == 0 && Created(g, old(disk), disk, inum, FreshInode(typ, 0))
      ensures inum != -1 ==> NewInode(DiskTable(g, disk)[inum], typ, 0)
    {
      hide Bit, Owns, DinodeAt, PutWords, Word, Created;
      var sb := Readsb();
      var i := 1;
      while i < sb.ninodes
        invariant 1 <= i && disk == old(disk)
        invariant forall k | 1 <= k < i && k < g.ninodes :: DiskTable(g, disk)[k].typ != 0
      {
        AreasDisjoint(g, i, 0);
        if DinodeAt(disk, i).typ == 0 {
          FreshIsCreated(g, disk, i, FreshInode(typ, 0));
          CreatedAt(g, disk, PutDinode(disk, i, FreshInode(typ, 0)), i, FreshInode(typ, 0));
          disk := disk[IBlock(i) := PutWords(disk[IBlock(i)], i % IPB * 16, FreshInode(typ, 0).Words())];
          return i;
        }
        i := i + 1;
      }
      return -1;
    }

    /** The m bytes at o, all in one block of the file. */
    method ReadBlock(ip: Inode, o: nat, m: nat) returns (b: seq<Byte>)
      requires Ready(ip) && 0 < m <= BSIZE - o % BSIZE && o + m <= ip.v.size
      modifies this, ip
      ensures Ready(ip) && disk == old(disk) && ip.v == old(ip.v) && b == Content(disk, ip.v)[o..o + m]
    {
      hide Bit, Owns, Name, DiskTable, Content, Dense, BlockOf, Mapped, NewBlocks, Word, Free;
      ghost var d, t := disk, Tab(ip);
      assert t == DiskTable(g, disk);
      ReadiAllocatesNothing(disk, ip.v, o);
      var addr := Bmap(ip, o / BSIZE);
      MappedNothing(g, d, t, disk, Tab(ip), ip.inum, o / BSIZE);
      assert ip.v == Tab(ip)[ip.inum];
      BlockSlice(g, disk, t, ip.inum, o, m);
      b := disk[addr][o % BSIZE..o % BSIZE + m];
    }

    /** Reads up to n bytes at off.  Returns -1 and no bytes on a bad offset. */
    method Readi(ip: Inode, off: nat, n: nat) returns (r: int, dst: seq<Byte>)
      requires Ready(ip) && off < UINT && n < UINT
      modifies this, ip
      ensures disk == old(disk) && ip.v == old(ip.v)
      ensures r == -1 <==> off > ip.v.size || off + n >= UINT
      ensures if r == -1 then dst == [] else ReadBack(Content(disk, ip.v), off, n, r, dst)
    {
      hide Ready, Content;
      dst := [];
      if off > ip.v.size || (off + n) % UINT < off {
        return -1, dst;
      }
      var n := n;
      if (off + n) % UINT > ip.v.size {
        n := ip.v.size - off;
      }
      var tot, o := 0, off;
      while tot < n
        invariant 0 <= tot <= n && o == off + tot && off + n <= ip.v.size
        invariant Ready(ip) && disk == old(disk) && ip.v == old(ip.v) && dst == Content(disk, ip.v)[off..o]
      {
        var m := Min(n - tot, BSIZE - o % BSIZE);
        var b := ReadBlock(ip, o, m);
        assert Content(disk, ip.v)[off..o + m] == Content(disk, ip.v)[off..o] + Content(disk, ip.v)[o..o + m];
        dst := dst + b;
        tot, o := tot + m, o + m;
      }
      return n, dst;
    }

    /** One round of writei: store chunk at o, all in one block of the file. */
    method WriteBlock(ip: Inode, chunk: seq<Byte>, o: nat, ghost d0: Disk, ghost t0: Table, ghost off: nat, ghost w: seq<Byte>)
      requires Owning(ip) && DiskOk(g, d0) && |t0| == g.ninodes && off <= o && 0 < |chunk| <= BSIZE - o % BSIZE
      requires o + |chunk| <= off + |w| <= MAXFILE * BSIZE && chunk == w[o - off..o - off + |chunk|]
      requires Writing(g, d0, t0, disk, Tab(ip), ip.inum, off, w, o, Max(t0[ip.inum].size, o))
      requires |Free(g, d0)| >= BlocksFor(Max(t0[ip.inum].size, off + |w|)) - BlocksFor(t0[ip.inum].size)
      modifies this, ip
      ensures Owning(ip)
      ensures Writing(g, d0, t0, disk, Tab(ip), ip.inum, off, w, o + |chunk|, Max(t0[ip.inum].size, o + |chunk|))
    {
      hide Bit, Owns, Name, DiskTable, Free, BlocksFor, OthersSame, FileByte, Dense, Mapped, Word, Writing, Wrote, NewBlocks, BlockOf;
      ghost var d, t := disk, Tab(ip);
      WritingEnough(g, d0, t0, d, t, ip.inum, off, w, o, |chunk|);
      var addr := Bmap(ip, o / BSIZE);
      ghost var d1, t1 := disk, Tab(ip);
      WritingMapped(g, d0, t0, d, t, d1, t1, ip.inum, off, w, o, |chunk|);
      WritingBlock(g, d0, t0, d1, t1, ip.inum, off, w, o, Max(t0[ip.inum].size, o + |chunk|));
      disk := disk[addr := Patch(disk[addr], o % BSIZE, chunk)];
      WritingData(g, d0, t0, d1, t1, disk, ip.inum, off, w, o, |chunk|);
      assert Tab(ip) == t1;
    }

    /** The end of writei: a file that grew gets its new size, in memory and on disk. */
    method CommitSize(ip: Inode, n: nat, o: nat, ghost d0: Disk, ghost t0: Table, ghost off: nat, ghost w: seq<Byte>)
      requires Inv(g, d0) && t0 == DiskTable(g, d0) && ip.inum < |t0| && off <= t0[ip.inum].size && n == |w| && o == off + n < UINT
      requires Owning(ip) && Writing(g, d0, t0, disk, Tab(ip), ip.inum, off, w, o, Max(t0[ip.inum].size, o))
      requires t0[ip.inum].typ != T_DEV
      modifies this, ip
      ensures Wrote(g, d0, disk, ip.inum, off, w) && Ready(ip)
    {
      hide Bit, Owns, Name, DiskTable, Free, BlocksFor, OthersSame, FileByte, Dense, Writing, Wrote, BlockOf, NamesSame, Word;
      ghost var d1, t1 := disk, Tab(ip);
      WritingFacts(g, d0, t0, d1, t1, ip.inum, off, w, o, Max(t0[ip.inum].size, o));
      if n > 0 && o > ip.v.size {
        Resized(g, d1, t1, ip.inum, o, t0[ip.inum]);
        ip.v := ip.v.(size := o);
        assert Tab(ip) == t1[ip.inum := t1[ip.inum].(size := o)];
        Iupdate(ip);
        WroteMore(g, d0, t0, d1, t1, disk, ip.inum, off, w);
      } else {
        WroteWithin(g, d0, t0, d1, t1, ip.inum, off, w);
      }
      assert ip.v == DiskTable(g, disk)[ip.inum];
      WroteDense(g, d0, disk, ip.inum, off, w);
    }

    /** Writes src at off. */
    method Writei(ip: Inode, src: seq<Byte>, off: nat) returns (r: int)
      requires Ready(ip) && off < UINT && |src| < UINT && (off <= ip.v.size ==> RoomFor(g, disk, ip.v.size, off + |src|))
      modifies this, ip
      ensures r == -1 <==> off > old(ip.v.size) || off + |src| >= UINT
      ensures r == -1 ==> disk == old(disk) && ip.v == old(ip.v)
      ensures r != -1 ==> 0 <= r <= |src| && off + r == Min(off + |src|, MAXFILE * BSIZE)
      ensures r != -1 ==> Wrote(g, old(disk), disk, ip.inum, off, src[..r]) && Ready(ip)
    {
      hide Bit, Owns, Name, DiskTable, Free, BlocksFor, OthersSame, FileByte, Dense, Writing, Wrote, BlockOf, NamesSame, Word, Content, Splice, Keeps, Meta;
      if off > ip.v.size || (off + |src|) % UINT < off {
        return -1;
      }
      DenseBound(disk, ip.v);
      var n := |src|;
      if (off + n) % UINT > MAXFILE * BSIZE {
        n := MAXFILE * BSIZE - off;
      }
      ghost var d0, t0, w := disk, Tab(ip), src[..n];
      assert t0 == DiskTable(g, disk);
      WritingStart(g, d0, t0, ip.inum, off, w);
      var tot, o := 0, off;
      while tot < n
        invariant 0 <= tot <= n && o == off + tot && Owning(ip)
        invariant Writing(g, d0, t0, disk, Tab(ip), ip.inum, off, w, o, Max(t0[ip.inum].size, o))
      {
        var m := Min(n - tot, BSIZE - o % BSIZE);
        SliceOfPrefix(src, n, tot, tot + m);
        WriteBlock(ip, src[tot..tot + m], o, d0, t0, off, w);
        tot, o := tot + m, o + m;
      }
      CommitSize(ip, n, o, d0, t0, off, w);
      return n;
    }

    /** Zeroes block b and clears its bit.  The branch that panics on a clear bit is dead. */
    method Bfree(b: nat)
      requires DiskOk(g, disk) && Meta(g) <= b < g.size && Bit(g, disk, b)
      modifies this
      ensures DiskOk(g, disk) && Freed(g, old(disk), disk, {b})
    {
      hide BitOf, AndNotMask, Word, Bit;
      ghost var d := disk;
      BitmapArea(g, b);
      DataWriteBits(g, disk, b, ZeroBlock());
      disk := disk[b := ZeroBlock()];
      var sb := Readsb();
      var bno := BBlock(sb, b);
      var bi := b % BPB;
      BitPlace(g, disk, b);
      if !BitOf(disk[bno][bi/8], bi % 8) {
        assert false;
      }
      ClearBitBits(g, disk, b);
      disk := disk[bno := disk[bno][bi/8 := AndNotMask(disk[bno][bi/8], bi % 8)]];
      BitmapArea(g, 0);
    }

    /** bfree of a block the inode held in (d, t), whose blocks F are already back. */
    method FreeHeld(b: nat, ghost d: Disk, ghost t: Table, ghost i: nat, ghost s: nat, ghost F: set<nat>)
      requires DiskOk(g, d) && Owns(g, d, t) && i < |t| && s < NSLOT && b == Name(d, t[i], s) != 0 && b !in F
      requires DiskOk(g, disk) && Freed(g, d, disk, F)
      modifies this
      ensures DiskOk(g, disk) && Freed(g, d, disk, F + {b})
    {
      hide Bit, Word, BBlock, Meta;
      NamedIsData(g, d, t, i, s);
      ghost var d1 := disk;
      Bfree(b);
      hide Freed;
      FreedPlus(g, d, d1, disk, F, b);
    }

    /** itrunc's first loop: the direct blocks. */
    method FreeDirect(ip: Inode, ghost d: Disk, ghost t: Table)
      requires DiskOk(g, d) && disk == d && Owns(g, d, t) && ip.inum < |t| && t[ip.inum] == ip.v
      modifies this, ip
      ensures DiskOk(g, disk) && Freed(g, d, disk, NamesIn(d, t[ip.inum], 0, NDIRECT))
      ensures ip.v == WithoutDirect(t[ip.inum])
    {
      hide Bit, NamesUsed, NamesDistinct, FreeZero, Freed, Name, NamesIn, Word, ZeroedTo;
      ghost var v := ip.v;
      FreedNone(g, d, v);
      ZeroedNone(v.addrs);
      var i := 0;
      while i < NDIRECT
        invariant 0 <= i <= NDIRECT && DiskOk(g, disk) && Freed(g, d, disk, NamesIn(d, v, 0, i))
        invariant ip.v == v.(addrs := ZeroedTo(v.addrs, i))
      {
        NamesInStep(d, t, ip.inum, 0, i);
        AddrIsName(d, v, i);
        ZeroedNext(v.addrs, i);
        if ip.v.addrs[i] != 0 {
          FreeHeld(ip.v.addrs[i], d, t, ip.inum, i, NamesIn(d, v, 0, i));
          ip.v := ip.v.(addrs := ip.v.addrs[i := 0]);
        }
        i := i + 1;
      }
    }

    /** itrunc's second part: the blocks of the indirect block, then the indirect block. */
    method FreeIndirect(x: nat, ghost d: Disk, ghost t: Table, ghost i: nat)
      requires DiskOk(g, d) && DiskOk(g, disk) && Owns(g, d, t) && i < |t| && x == t[i].addrs[NDIRECT] != 0
      requires Freed(g, d, disk, NamesIn(d, t[i], 0, NDIRECT))
      modifies this
      ensures DiskOk(g, disk) && Freed(g, d, disk, Names(d, t[i]))
    {
      hide Bit, NamesUsed, NamesDistinct, FreeZero, Freed, Name, NamesIn, Word, Names;
      ghost var v, F := t[i], NamesIn(d, t[i], 0, NDIRECT);
      AddrIsName(d, v, NDIRECT);
      IndirectHeld(g, d, t, disk, i);
      var a := disk[x];
      NoNames(d, v);
      assert F + NamesIn(d, v, NADDR, NADDR) == F;
      var j := 0;
      while j < NINDIRECT
        invariant 0 <= j <= NINDIRECT && DiskOk(g, disk) && Freed(g, d, disk, F + NamesIn(d, v, NADDR, NADDR + j))
      {
        NamesInStep(d, t, i, NADDR, NADDR + j);
        EntryNotDirect(g, d, t, i, j);
        assert Word(a, j) == Name(d, v, NADDR + j);
        if Word(a, j) != 0 {
          FreeHeld(Word(a, j), d, t, i, NADDR + j, F + NamesIn(d, v, NADDR, NADDR + j));
        }
        assert Word(a, j) != 0 ==>
          F + NamesIn(d, v, NADDR, NADDR + j + 1) == F + NamesIn(d, v, NADDR, NADDR + j) + {Word(a, j)};
        j := j + 1;
      }
      FreeHeld(x, d, t, i, NDIRECT, F + NamesIn(d, v, NADDR, NSLOT));
      AllNames(d, v);
      assert F + NamesIn(d, v, NADDR, NSLOT) + {x} == Names(d, v);
    }

    /** Gives back every block of the inode and makes it empty, in memory and on disk. */
    method Itrunc(ip: Inode)
      requires Owning(ip) && ip.v.Fits()
      modifies this, ip
      ensures ip.v == Emptied(old(ip.v)) && Truncated(g, old(disk), old(Tab(ip)), disk, ip.inum)
    {
      hide Bit, Owns, Freed, Name, NamesIn, DiskTable, Word, Free, Names, OthersSame, NamesSame;
      ghost var d, t, v, i := disk, Tab(ip), ip.v, ip.inum;
      assert t[i] == v;
      FreeDirect(ip, d, t);
      AllNames(d, v);
      if ip.v.addrs[NDIRECT] != 0 {
        FreeIndirect(ip.v.addrs[NDIRECT], d, t, i);
        ip.v := ip.v.(addrs := ip.v.addrs[NDIRECT := 0]);
      }
      assert ip.v.addrs == seq(NADDR, _ => 0);
      ip.v := ip.v.(size := 0);
      ghost var d1 := disk;
      OwnsMinus(g, d, t, d1, i);
      NamesAreData(g, d, t, i);
      FreedTable(g, d, d1, Names(d, v));
      assert Tab(ip) == t[i := ip.v];
      Iupdate(ip);
      FreedOthers(g, d, t, d1, i);
      OthersSameInodeWrite(g, d, d1, disk, t, Tab(ip), i);
    }
  }

  function ZeroedTo(a: Addrs, i: nat): Addrs
    requires i <= NADDR
  {
    seq(i, _ => 0) + a[i..]
  }

  lemma ZeroedNone(a: Addrs)
    ensures ZeroedTo(a, 0) == a
  {}

  lemma ZeroedNext(a: Addrs, i: nat)
    requires i < NADDR
    ensures ZeroedTo(a, i + 1) == ZeroedTo(a, i)[i := 0] && ZeroedTo(a, i)[i] == a[i]
    ensures a[i] == 0 ==> ZeroedTo(a, i + 1) == ZeroedTo(a, i)
  {}

  function WithoutDirect(v: Dinode): Dinode {
    v.(addrs := ZeroedTo(v.addrs, NDIRECT))
  }

  /** A newly allocated inode. */
  function FreshInode(typ: nat, nlink: nat): Dinode {
    Dinode(typ, 0, 0, nlink, 0, seq(NADDR, _ => 0))
  }

  /** An inode of the type with nlink links, no device numbers, no bytes and no blocks. */
  predicate NewInode(v: Dinode, typ: nat, nlink: nat) {
    && v.typ == typ && v.nlink == nlink && v.major == 0 && v.minor == 0 && v.size == 0
    && forall s :: 0 <= s < NADDR ==> v.addrs[s] == 0
  }

  lemma CreatedAt(g: Super, d0: Disk, d: Disk, i: nat, v: Dinode)
    requires DiskOk(g, d0) && Created(g, d0, d, i, v)
    ensures DiskOk(g, d) && DiskTable(g, d)[i] == v
  {}

  /** The inode table gained the empty inode v at i; nothing else moved. */
  ghost predicate Created(g: Super, d0: Disk, d: Disk, i: nat, v: Dinode)
    requires DiskOk(g, d0)
  {
    && Inv(g, d) && i < g.ninodes && DiskTable(g, d) == DiskTable(g, d0)[i := v]
    && Free(g, d) == Free(g, d0) && OthersSame(g, d0, d, DiskTable(g, d0), i) && Dense(d, v, 0)
  }

  lemma FreshIsCreated(g: Super, d: Disk, i: nat, v: Dinode)
    requires Inv(g, d) && i < g.ninodes && v.Fits() && v.addrs == seq(NADDR, _ => 0)
    ensures IBlock(i) < Meta(g) && Created(g, d, PutDinode(d, i, v), i, v)
  {
    hide Bit, Word, Owns, DiskTable, Name, NamesSame, PutWords, Free;
    var t := DiskTable(g, d);
    var t' := t[i := v];
    var d' := PutDinode(d, i, v);
    OwnsForget(g, d, t, i, v);
    InodeWrite(g, d, t', i, v);
    assert Free(g, d') == Free(g, d);
    OthersItself(g, d, t, i);
    OthersSameInodeWrite(g, d, d, d', t, t', i);
    EmptyIsDense(d', v);
    hide Dense, OthersSame;
  }

  lemma OthersItself(g: Super, d: Disk, t: Table, i: nat)
    requires DiskOk(g, d)
    ensures OthersSame(g, d, d, t, i)
  {}

  lemma EmptyIsDense(d: Disk, v: Dinode)
    requires v.addrs == seq(NADDR, _ => 0)
    ensures Dense(d, v, 0)
  {
    hide Word;
  }

  /** After itrunc: the inode is empty on disk, exactly its blocks became free, no other file moved. */
  ghost predicate Truncated(g: Super, d0: Disk, t0: Table, d: Disk, i: nat)
    requires DiskOk(g, d0) && i < |t0|
  {
    && Inv(g, d) && DiskTable(g, d) == t0[i := Emptied(t0[i])]
    && Free(g, d) == Free(g, d0) + Names(d0, t0[i])
    && OthersSame(g, d0, d, t0, i)
  }

  // ---------- itrunc ----------

  /** The blocks named by slots lo up to hi. */
  ghost function NamesIn(d: Disk, di: Dinode, lo: nat, hi: nat): set<nat>
    requires hi <= NSLOT
  {
    set s | lo <= s < hi && Name(d, di, s) != 0 :: Name(d, di, s)
  }

  lemma FreedNone(g: Super, d: Disk, v: Dinode)
    requires DiskOk(g, d)
    ensures NamesIn(d, v, 0, 0) == {} && Freed(g, d, d, {})
  {
    hide Bit, Name, Word;
  }

  lemma NoNames(d: Disk, v: Dinode)
    ensures NamesIn(d, v, NADDR, NADDR) == {}
  {}

  lemma NamesAreData(g: Super, d: Disk, t: Table, i: nat)
    requires DiskOk(g, d) && Owns(g, d, t) && i < |t|
    ensures forall b :: b in Names(d, t[i]) ==> Meta(g) <= b < g.size
  {
    hide Bit, Name, Word;
  }

  lemma AddrIsName(d: Disk, v: Dinode, s: nat)
    requires s < NADDR
    ensures v.addrs[s] == Name(d, v, s)
  {}

  /** Slot hi names a block not among those of slots lo up to hi. */
  lemma NamesInStep(d: Disk, t: Table, i: nat, lo: nat, hi: nat)
    requires NamesDistinct(d, t) && i < |t| && lo <= hi < NSLOT
    ensures Name(d, t[i], hi) !in NamesIn(d, t[i], lo, hi)
    ensures Name(d, t[i], hi) == 0 ==> NamesIn(d, t[i], lo, hi + 1) == NamesIn(d, t[i], lo, hi)
    ensures Name(d, t[i], hi) != 0 ==> NamesIn(d, t[i], lo, hi + 1) == NamesIn(d, t[i], lo, hi) + {Name(d, t[i], hi)}
  {
    hide Name;
    var N := NamesIn(d, t[i], lo, hi + 1);
    forall s | lo <= s < hi + 1 && Name(d, t[i], s) != 0
      ensures Name(d, t[i], s) in N
    {}
  }

  lemma IndirectHeld(g: Super, d: Disk, t: Table, d1: Disk, i: nat)
    requires DiskOk(g, d) && DiskOk(g, d1) && Owns(g, d, t) && i < |t| && t[i].addrs[NDIRECT] != 0
    requires Freed(g, d, d1, NamesIn(d, t[i], 0, NDIRECT))
    ensures t[i].addrs[NDIRECT] < g.size && d1[t[i].addrs[NDIRECT]] == d[t[i].addrs[NDIRECT]]
    ensures t[i].addrs[NDIRECT] !in NamesIn(d, t[i], 0, NDIRECT) + NamesIn(d, t[i], NADDR, NSLOT)
    ensures forall j | 0 <= j < NINDIRECT :: Name(d, t[i], NADDR + j) == Word(d[t[i].addrs[NDIRECT]], j)
  {
    hide Bit, Word;
    assert t[i].addrs[NDIRECT] == Name(d, t[i], NDIRECT);
  }

  lemma EntryNotDirect(g: Super, d: Disk, t: Table, i: nat, j: nat)
    requires NamesDistinct(d, t) && i < |t| && j < NINDIRECT
    ensures Name(d, t[i], NADDR + j) !in NamesIn(d, t[i], 0, NDIRECT)
  {
    hide Name;
  }

  lemma AllNames(d: Disk, v: Dinode)
    ensures v.addrs[NDIRECT] == 0 ==> Names(d, v) == NamesIn(d, v, 0, NDIRECT)
    ensures v.addrs[NDIRECT] != 0 ==>
              Names(d, v) == NamesIn(d, v, 0, NDIRECT) + NamesIn(d, v, NADDR, NSLOT) + {v.addrs[NDIRECT]}
  {
    hide Word;
    assert v.addrs[NDIRECT] == Name(d, v, NDIRECT);
  }

  lemma FreedTable(g: Super, d: Disk, d1: Disk, F: set<nat>)
    requires DiskOk(g, d) && DiskOk(g, d1) && Freed(g, d, d1, F) && forall b :: b in F ==> Meta(g) <= b
    ensures DiskTable(g, d1) == DiskTable(g, d)
  {
    hide Bit, Word;
    BitmapArea(g, 0);
    DiskTableFrame(g, d, d1);
  }

  lemma FreedOthers(g: Super, d: Disk, t: Table, d1: Disk, i: nat)
    requires DiskOk(g, d) && DiskOk(g, d1) && Owns(g, d, t) && i < |t|
    requires Freed(g, d, d1, Names(d, t[i]))
    ensures OthersSame(g, d, d1, t, i)
  {
    hide Bit, Word, Owns, Name, Freed;
    FreedNames(g, d, t, d1, i);
  }

  lemma BitPlace(g: Super, d: Disk, b: nat)
    requires DiskOk(g, d) && b < g.size
    ensures BBlock(g, b) < g.size && Bit(g, d, b) == BitOf(d[BBlock(g, b)][b % BPB / 8], b % BPB % 8)
  {
    BitmapArea(g, b);
  }

  lemma FreedPlus(g: Super, d: Disk, d1: Disk, d2: Disk, F: set<nat>, b: nat)
    requires DiskOk(g, d) && DiskOk(g, d1) && DiskOk(g, d2)
    requires Freed(g, d, d1, F) && Freed(g, d1, d2, {b})
    ensures Freed(g, d, d2, F + {b})
  {
    hide Bit, Word;
  }

  const T_DEV := 3

  lemma SliceOfPrefix(s: seq<Byte>, n: nat, a: nat, b: nat)
    requires a <= b <= n <= |s|
    ensures s[..n][a..b] == s[a..b]
  {}

  /** dst is the r bytes of c from off on, as many of n as there are. */
  predicate ReadBack(c: seq<Byte>, off: nat, n: nat, r: int, dst: seq<Byte>) {
    off <= |c| && 0 <= r && off + r == Min(off + n, |c|) && dst == c[off..off + r]
  }

  /** There are free blocks for a dense file to grow from size bytes to cover end, or to the largest file. */
  ghost predicate RoomFor(g: Super, d: Disk, size: nat, end: nat)
    requires DiskOk(g, d)
  {
    |Free(g, d)| >= BlocksFor(Max(size, Min(end, MAXFILE * BSIZE))) - BlocksFor(size)
  }

  function Min(a: int, b: int): int { if a < b then a else b }

  /** Blocks that bmap must allocate to map block number bn. */
  function NewBlocks(d: Disk, di: Dinode, bn: nat): nat
    requires bn < MAXFILE
  {
    (if BlockOf(d, di, bn) == 0 then 1 else 0) + if bn >= NDIRECT && di.addrs[NDIRECT] == 0 then 1 else 0
  }

  /** What bmap did: block number bn of inode i now has a block, zeroed if new; nothing else moved. */
  ghost predicate Mapped(g: Super, d: Disk, t: Table, d': Disk, t': Table, i: nat, bn: nat)
    requires DiskOk(g, d) && DiskOk(g, d') && i < |t| == |t'| && bn < MAXFILE
  {
    && Keeps(g, d, t, d', t', i) && BlockOf(d', t'[i], bn) != 0
    && (forall k | 0 <= k < MAXFILE && k != bn :: BlockOf(d', t'[i], k) == BlockOf(d, t[i], k))
    && (t'[i].addrs[NDIRECT] != 0 <==> t[i].addrs[NDIRECT] != 0 || bn >= NDIRECT)
    && |Free(g, d')| == |Free(g, d)| - NewBlocks(d, t[i], bn)
    && if BlockOf(d, t[i], bn) != 0 then d' == d && t' == t
       else BlockOf(d', t'[i], bn) < g.size && d'[BlockOf(d', t'[i], bn)] == ZeroBlock()
  }

  lemma MappedAlready(g: Super, d: Disk, t: Table, i: nat, bn: nat)
    requires DiskOk(g, d) && i < |t| && bn < MAXFILE && BlockOf(d, t[i], bn) != 0
    ensures Mapped(g, d, t, d, t, i, bn)
  {}

  lemma MappedByGrowth(g: Super, d: Disk, t: Table, d': Disk, t': Table, i: nat, bn: nat, b: nat)
    requires DiskOk(g, d) && DiskOk(g, d') && i < |t| == |t'| && bn < MAXFILE
    requires BlockOf(d, t[i], bn) == 0 && (bn >= NDIRECT ==> t[i].addrs[NDIRECT] != 0)
    requires Grew(g, d, t, d', t', i, SlotOf(bn), b) && b != 0
    ensures Mapped(g, d, t, d', t', i, bn)
  {
    hide Bit, Word, Owns;
    assert t'[i].addrs[NDIRECT] == Name(d', t'[i], NDIRECT) && t[i].addrs[NDIRECT] == Name(d, t[i], NDIRECT);
    hide Name, Keeps;
  }

  lemma FreshIndirect(g: Super, d: Disk, t: Table, d1: Disk, t1: Table, i: nat, bn: nat, x: nat)
    requires DiskOk(g, d) && DiskOk(g, d1) && i < |t| == |t1| && NDIRECT <= bn < MAXFILE
    requires t[i].addrs[NDIRECT] == 0 && Grew(g, d, t, d1, t1, i, NDIRECT, x) && x != 0
    ensures t1[i].addrs[NDIRECT] == x && NewBlocks(d, t[i], bn) == 2 && NewBlocks(d1, t1[i], bn) == 1
    ensures |Free(g, d1)| == |Free(g, d)| - 1
  {
    hide Bit, Word, Owns, Keeps;
    assert BlockOf(d, t[i], bn) == 0 && BlockOf(d1, t1[i], bn) == 0;
    assert t1[i].addrs[NDIRECT] == Name(d1, t1[i], NDIRECT);
  }

  lemma MappedAfterIndirect(g: Super, d: Disk, t: Table, d1: Disk, t1: Table, d': Disk, t': Table, i: nat, bn: nat, x: nat)
    requires DiskOk(g, d) && DiskOk(g, d1) && DiskOk(g, d') && i < |t| == |t1| == |t'| && NDIRECT <= bn < MAXFILE
    requires t[i].addrs[NDIRECT] == 0 && Grew(g, d, t, d1, t1, i, NDIRECT, x) && x != 0
    requires Mapped(g, d1, t1, d', t', i, bn)
    ensures Mapped(g, d, t, d', t', i, bn)
  {
    hide Bit, Word, Owns;
    assert BlockOf(d, t[i], bn) == 0 && BlockOf(d1, t1[i], bn) == 0;
    KeepsTrans(g, d, t, d1, t1, d', t', i);
    assert t1[i].addrs[NDIRECT] == Name(d1, t1[i], NDIRECT) == x;
    hide Name, Keeps;
  }

  // ---------- one round of writei's loop ----------

  function Max(a: nat, b: nat): nat { if a < b then b else a }

  /** writei has stored the bytes of w that go in [off, o) of inode i, starting from (d0, t0);
      the inode has blocks for exactly lim bytes. */
  ghost predicate Writing(g: Super, d0: Disk, t0: Table, d: Disk, t: Table, i: nat, off: nat, w: seq<Byte>, o: nat, lim: nat)
    requires DiskOk(g, d0) && DiskOk(g, d) && i < |t0| == |t| && off <= o <= off + |w|
  {
    && Owns(g, d, t) && DiskTable(g, d) == DiskTable(g, d0)
    && t == t0[i := t0[i].(addrs := t[i].addrs)] && (lim == t0[i].size ==> t == t0)
    && OthersSame(g, d0, d, t0, i) && Dense(d, t[i], lim)
    && (forall p | 0 <= p < Max(t0[i].size, o) ::
          FileByte(d, t[i], p) == if off <= p < o then w[p - off] else FileByte(d0, t0[i], p))
    && |Free(g, d)| == |Free(g, d0)| - (BlocksFor(lim) - BlocksFor(t0[i].size))
  }

  lemma BlocksForMonotone(a: nat, b: nat)
    requires a <= b
    ensures BlocksFor(a) <= BlocksFor(b)
  {}

  /** bmap allocates what growing a dense file calls for, and only at the end of the file. */
  lemma DenseGrows(g: Super, d: Disk, t: Table, d': Disk, t': Table, i: nat, lim: nat, o: nat, m: nat)
    requires DiskOk(g, d) && DiskOk(g, d') && i < |t| == |t'| && Dense(d, t[i], lim)
    requires o <= lim && 0 < m <= BSIZE - o % BSIZE && o + m <= MAXFILE * BSIZE
    ensures NewBlocks(d, t[i], o / BSIZE) == BlocksFor(Max(lim, o + m)) - BlocksFor(lim)
    ensures BlockOf(d, t[i], o / BSIZE) == 0 ==> o == lim
    ensures Mapped(g, d, t, d', t', i, o / BSIZE) ==> Dense(d', t'[i], Max(lim, o + m))
  {
    hide Name, Keeps, Free, Bit, DiskTable;
    var bn := o / BSIZE;
    assert o == bn * BSIZE + o % BSIZE;
    if BlockOf(d, t[i], bn) == 0 {
      assert lim <= bn * BSIZE;
      assert (lim + BSIZE - 1) / BSIZE == bn && (o + m + BSIZE - 1) / BSIZE == bn + 1;
    }
    if Mapped(g, d, t, d', t', i, bn) {
      forall k | 0 <= k < MAXFILE
        ensures BlockOf(d', t'[i], k) != 0 <==> k * BSIZE < Max(lim, o + m)
      {
        if k != bn {
          assert BlockOf(d', t'[i], k) == BlockOf(d, t[i], k);
        }
      }
    }
  }

  /** FileByte of a mapped byte, without the bounds tests. */
  lemma FileByteAt(g: Super, d: Disk, t: Table, i: nat, lim: nat, p: nat)
    requires DiskOk(g, d) && Owns(g, d, t) && i < |t| && Dense(d, t[i], lim) && p < lim
    ensures p / BSIZE < MAXFILE && 0 < BlockOf(d, t[i], p / BSIZE) < g.size
    ensures FileByte(d, t[i], p) == d[BlockOf(d, t[i], p / BSIZE)][p % BSIZE]
  {
    hide Owns, Bit, Word, Name;
    var k := p / BSIZE;
    assert k * BSIZE <= p && k < MAXFILE;
    assert BlockOf(d, t[i], k) != 0;
    NamedIsData(g, d, t, i, SlotOf(k));
  }

  lemma OthersSameMapped(g: Super, d0: Disk, t0: Table, d: Disk, t: Table, d1: Disk, t1: Table, i: nat)
    requires DiskOk(g, d0) && DiskOk(g, d) && DiskOk(g, d1) && i < |t0| == |t| == |t1|
    requires OthersSame(g, d0, d, t0, i) && Keeps(g, d, t, d1, t1, i) && (forall j | 0 <= j < |t0| && j != i :: t[j] == t0[j])
    ensures OthersSame(g, d0, d1, t0, i)
  {
    hide Bit, Name, DiskTable;
    forall j, r | 0 <= j < |t0| && 0 <= r < NSLOT && j != i
      ensures Name(d1, t0[j], r) == Name(d0, t0[j], r)
      ensures r != NDIRECT && 0 < Name(d0, t0[j], r) < g.size ==> d1[Name(d0, t0[j], r)] == d0[Name(d0, t0[j], r)]
    {
      assert Name(d, t0[j], r) == Name(d0, t0[j], r) && Name(d1, t1[j], r) == Name(d, t[j], r);
    }
  }

  /** Writing survives the bmap call for the block that holds byte o. */
  lemma WritingMapped(g: Super, d0: Disk, t0: Table, d: Disk, t: Table, d1: Disk, t1: Table,
                      i: nat, off: nat, w: seq<Byte>, o: nat, m: nat)
    requires DiskOk(g, d0) && DiskOk(g, d) && DiskOk(g, d1) && i < |t0| == |t| == |t1| && off <= o < off + |w|
    requires 0 < m <= BSIZE - o % BSIZE && o + m <= off + |w| && o + m <= MAXFILE * BSIZE
    requires Writing(g, d0, t0, d, t, i, off, w, o, Max(t0[i].size, o))
    requires Owns(g, d1, t1) && Mapped(g, d, t, d1, t1, i, o / BSIZE)
    ensures Writing(g, d0, t0, d1, t1, i, off, w, o, Max(t0[i].size, o + m))
  {
    hide Bit, Owns, DiskTable, Free, BlocksFor;
    var lim := Max(t0[i].size, o);
    DenseGrows(g, d, t, d1, t1, i, lim, o, m);
    assert Max(lim, o + m) == Max(t0[i].size, o + m);
    OthersSameMapped(g, d0, t0, d, t, d1, t1, i);
    forall p | 0 <= p < lim
      ensures FileByte(d1, t1[i], p) == FileByte(d, t[i], p)
    {
      FileByteAt(g, d, t, i, lim, p);
      if BlockOf(d, t[i], o / BSIZE) == 0 {
        assert p / BSIZE != o / BSIZE;
        assert d1[Name(d, t[i], SlotOf(p / BSIZE))] == d[Name(d, t[i], SlotOf(p / BSIZE))];
      }
    }
    hide Name, FileByte, OthersSame, Dense, Keeps;
  }

  /** Bytes at.. of a block replaced by w: memmove(bp->data + at, src, |w|). */
  function Patch(b: Block, at: nat, w: seq<Byte>): Block
    requires at + |w| <= BSIZE
  {
    b[..at] + w + b[at + |w|..]
  }

  lemma WritingFacts(g: Super, d0: Disk, t0: Table, d: Disk, t: Table, i: nat, off: nat, w: seq<Byte>, o: nat, lim: nat)
    requires DiskOk(g, d0) && DiskOk(g, d) && i < |t0| == |t| && off <= o <= off + |w|
    requires Writing(g, d0, t0, d, t, i, off, w, o, lim)
    ensures t == t0[i := t0[i].(addrs := t[i].addrs)] && DiskTable(g, d) == DiskTable(g, d0)
    ensures lim == t0[i].size ==> t == t0
  {
    hide Bit, Word, Owns, DiskTable, Free, BlocksFor, Name, FileByte, OthersSame, BlockOf, Dense;
  }

  lemma DenseSize(d: Disk, v: Dinode, v': Dinode, lim: nat)
    requires Dense(d, v, lim) && v'.addrs == v.addrs
    ensures Dense(d, v', lim)
  {
    forall k | 0 <= k < MAXFILE
      ensures BlockOf(d, v', k) == BlockOf(d, v, k)
    {}
  }

  /** The block that holds byte o is a data block of the inode. */
  lemma WritingBlock(g: Super, d0: Disk, t0: Table, d: Disk, t: Table, i: nat, off: nat, w: seq<Byte>, o: nat, lim: nat)
    requires DiskOk(g, d0) && DiskOk(g, d) && i < |t0| == |t| && off <= o <= off + |w| && o < lim
    requires Writing(g, d0, t0, d, t, i, off, w, o, lim)
    ensures o / BSIZE < MAXFILE && 0 < BlockOf(d, t[i], o / BSIZE) < g.size
  {
    hide Bit, Word, Owns, DiskTable, Free, BlocksFor, Name, FileByte, OthersSame, BlockOf, Dense;
    FileByteAt(g, d, t, i, lim, o);
  }

  /** Writing advances when the mapped block is patched. */
  lemma WritingData(g: Super, d0: Disk, t0: Table, d: Disk, t: Table, d': Disk, i: nat, off: nat, w: seq<Byte>, o: nat, m: nat)
    requires DiskOk(g, d0) && DiskOk(g, d) && i < |t0| == |t| && off <= o < off + |w|
    requires 0 < m <= BSIZE - o % BSIZE && o + m <= off + |w| && o + m <= MAXFILE * BSIZE
    requires Writing(g, d0, t0, d, t, i, off, w, o, Max(t0[i].size, o + m))
    requires 0 < BlockOf(d, t[i], o / BSIZE) < g.size
    requires d' == d[BlockOf(d, t[i], o / BSIZE) := Patch(d[BlockOf(d, t[i], o / BSIZE)], o % BSIZE, w[o - off..o - off + m])]
    ensures DiskOk(g, d') && Writing(g, d0, t0, d', t, i, off, w, o + m, Max(t0[i].size, o + m))
    ensures Owns(g, d', t) && DiskTable(g, d') == DiskTable(g, d)
  {
    hide Bit, Word, Owns, DiskTable, Free, BlocksFor, Name, FileByte, OthersSame, Patch, NamesSame, DataSameBut, Dense;
    DataWrite(g, d, t, i, SlotOf(o / BSIZE), d');
    assert DiskTable(g, d') == DiskTable(g, d);
    assert Free(g, d') == Free(g, d);
    OthersSameData(g, d0, t0, d, t, d', i, SlotOf(o / BSIZE));
    DataBytes(g, d, t, d', i, Max(t0[i].size, o + m), off, w, o, m);
  }

  lemma DataBytes(g: Super, d: Disk, t: Table, d': Disk, i: nat, lim: nat, off: nat, w: seq<Byte>, o: nat, m: nat)
    requires DiskOk(g, d) && DiskOk(g, d') && Owns(g, d, t) && Owns(g, d', t) && i < |t|
    requires off <= o && o + m <= off + |w| && 0 < m <= BSIZE - o % BSIZE && o < lim && Dense(d, t[i], lim)
    requires NamesSame(d, d', t) && DataSameBut(g, d, d', t, i, SlotOf(o / BSIZE))
    requires 0 < BlockOf(d, t[i], o / BSIZE) < g.size
    requires d'[BlockOf(d, t[i], o / BSIZE)] == Patch(d[BlockOf(d, t[i], o / BSIZE)], o % BSIZE, w[o - off..o - off + m])
    ensures Dense(d', t[i], lim)
    ensures forall p | 0 <= p < lim ::
              FileByte(d', t[i], p) == if o <= p < o + m then w[p - off] else FileByte(d, t[i], p)
  {
    hide Bit, Word, Owns, Name, Patch;
    forall k | 0 <= k < MAXFILE
      ensures BlockOf(d', t[i], k) == BlockOf(d, t[i], k)
    {
      assert Name(d', t[i], SlotOf(k)) == Name(d, t[i], SlotOf(k));
    }
    hide FileByte;
    forall p | 0 <= p < lim
      ensures FileByte(d', t[i], p) == if o <= p < o + m then w[p - off] else FileByte(d, t[i], p)
    {
      FileByteAt(g, d, t, i, lim, p);
      FileByteAt(g, d', t, i, lim, p);
      if p / BSIZE == o / BSIZE {
        PatchByte(d[BlockOf(d, t[i], o / BSIZE)], o, w, off, m, p);
      } else {
        assert d'[Name(d, t[i], SlotOf(p / BSIZE))] == d[Name(d, t[i], SlotOf(p / BSIZE))];
      }
    }
  }

  lemma PatchByte(b: Block, o: nat, w: seq<Byte>, off: nat, m: nat, p: nat)
    requires off <= o && o + m <= off + |w| && 0 < m <= BSIZE - o % BSIZE && p / BSIZE == o / BSIZE
    ensures Patch(b, o % BSIZE, w[o - off..o - off + m])[p % BSIZE]
            == if o <= p < o + m then w[p - off] else b[p % BSIZE]
  {
    assert p - o == p % BSIZE - o % BSIZE;
  }

  lemma OthersSameData(g: Super, d0: Disk, t0: Table, d: Disk, t: Table, d': Disk, i: nat, s: nat)
    requires DiskOk(g, d0) && DiskOk(g, d) && DiskOk(g, d') && i < |t0| == |t|
    requires OthersSame(g, d0, d, t0, i) && NamesSame(d, d', t) && DataSameBut(g, d, d', t, i, s)
    requires forall j | 0 <= j < |t0| && j != i :: t[j] == t0[j]
    ensures OthersSame(g, d0, d', t0, i)
  {
    hide Bit, Name, DiskTable;
    forall j, r | 0 <= j < |t0| && 0 <= r < NSLOT && j != i
      ensures Name(d', t0[j], r) == Name(d0, t0[j], r)
      ensures r != NDIRECT && 0 < Name(d0, t0[j], r) < g.size ==> d'[Name(d0, t0[j], r)] == d0[Name(d0, t0[j], r)]
    {
      assert Name(d, t0[j], r) == Name(d0, t0[j], r) && Name(d', t[j], r) == Name(d, t[j], r);
    }
  }

  lemma ReadiAllocatesNothing(d: Disk, v: Dinode, o: nat)
    requires Dense(d, v, v.size) && o < v.size
    ensures o / BSIZE < MAXFILE && BlockOf(d, v, o / BSIZE) != 0 && NewBlocks(d, v, o / BSIZE) == 0
  {
    hide Name;
    assert o / BSIZE * BSIZE <= o;
  }

  lemma BlockSlice(g: Super, d: Disk, t: Table, i: nat, o: nat, m: nat)
    requires DiskOk(g, d) && Owns(g, d, t) && i < |t| && Dense(d, t[i], t[i].size)
    requires 0 < m <= BSIZE - o % BSIZE && o + m <= t[i].size
    ensures o / BSIZE < MAXFILE && BlockOf(d, t[i], o / BSIZE) < g.size
    ensures d[BlockOf(d, t[i], o / BSIZE)][o % BSIZE..o % BSIZE + m] == Content(d, t[i])[o..o + m]
  {
    hide Owns, Bit, Name, Dense, FileByte, BlockOf;
    FileByteAt(g, d, t, i, t[i].size, o);
    var a, c := d[BlockOf(d, t[i], o / BSIZE)][o % BSIZE..o % BSIZE + m], Content(d, t[i])[o..o + m];
    assert |a| == |c| == m;
    forall q | 0 <= q < m
      ensures a[q] == c[q]
    {
      assert a[q] == d[BlockOf(d, t[i], o / BSIZE)][o % BSIZE + q] && c[q] == FileByte(d, t[i], o + q);
      FileByteAt(g, d, t, i, t[i].size, o + q);
      assert (o + q) / BSIZE == o / BSIZE && (o + q) % BSIZE == o % BSIZE + q;
    }
  }

  lemma WritingStart(g: Super, d0: Disk, t0: Table, i: nat, off: nat, w: seq<Byte>)
    requires DiskOk(g, d0) && Owns(g, d0, t0) && i < |t0| && off <= t0[i].size && Dense(d0, t0[i], t0[i].size)
    ensures Writing(g, d0, t0, d0, t0, i, off, w, off, Max(t0[i].size, off))
  {
    hide Owns, Bit, Name, Dense, FileByte, BlockOf, DiskTable, Free;
  }

  /** The free blocks writei asked for cover every bmap call of its loop. */
  lemma WritingEnough(g: Super, d0: Disk, t0: Table, d: Disk, t: Table, i: nat, off: nat, w: seq<Byte>, o: nat, m: nat)
    requires DiskOk(g, d0) && DiskOk(g, d) && i < |t0| == |t| && off <= o < off + |w| <= MAXFILE * BSIZE
    requires 0 < m <= BSIZE - o % BSIZE && o + m <= off + |w|
    requires Writing(g, d0, t0, d, t, i, off, w, o, Max(t0[i].size, o))
    requires |Free(g, d0)| >= BlocksFor(Max(t0[i].size, off + |w|)) - BlocksFor(t0[i].size)
    ensures |Free(g, d)| >= NewBlocks(d, t[i], o / BSIZE)
  {
    hide Owns, Bit, Name, Dense, FileByte, BlockOf, DiskTable, Free, BlocksFor, OthersSame, NewBlocks;
    DenseGrows(g, d, t, d, t, i, Max(t0[i].size, o), o, m);
    BlocksForMonotone(Max(t0[i].size, o + m), Max(t0[i].size, off + |w|));
    assert Max(Max(t0[i].size, o), o + m) == Max(t0[i].size, o + m);
  }

  /** The inode table of a disk with invariant, after w was stored at off of inode i. */
  ghost predicate Wrote(g: Super, d0: Disk, d: Disk, i: nat, off: nat, w: seq<Byte>)
  {
    && Inv(g, d0) && Inv(g, d) && i < g.ninodes && off <= DiskTable(g, d0)[i].size
    && var v0, v := DiskTable(g, d0)[i], DiskTable(g, d)[i];
    && DiskTable(g, d) == DiskTable(g, d0)[i := v]
    && v == v0.(size := Max(v0.size, off + |w|), addrs := v.addrs)
    && Content(d, v) == Splice(Content(d0, v0), off, w)
    && Dense(d, v, v.size) && OthersSame(g, d0, d, DiskTable(g, d0), i)
    && |Free(g, d)| == |Free(g, d0)| - (BlocksFor(v.size) - BlocksFor(v0.size))
  }

  lemma WroteDense(g: Super, d0: Disk, d: Disk, i: nat, off: nat, w: seq<Byte>)
    requires Wrote(g, d0, d, i, off, w)
    ensures Inv(g, d) && i < g.ninodes && Dense(d, DiskTable(g, d)[i], DiskTable(g, d)[i].size)
    ensures DiskTable(g, d)[i].typ == DiskTable(g, d0)[i].typ
  {
    hide Owns, Dense, Name, Content, OthersSame, Bit, Word;
  }

  /** Writing, finished, is the splice. */
  lemma WritingContent(g: Super, d0: Disk, t0: Table, d: Disk, t: Table, i: nat, off: nat, w: seq<Byte>, v: Dinode)
    requires DiskOk(g, d0) && DiskOk(g, d) && i < |t0| == |t| && off <= t0[i].size
    requires Writing(g, d0, t0, d, t, i, off, w, off + |w|, Max(t0[i].size, off + |w|))
    requires v.addrs == t[i].addrs && v.size == Max(t0[i].size, off + |w|)
    ensures Content(d, v) == Splice(Content(d0, t0[i]), off, w)
  {
    hide Owns, Bit, Dense, DiskTable, Free, OthersSame;
    forall p | 0 <= p < v.size
      ensures Content(d, v)[p] == Splice(Content(d0, t0[i]), off, w)[p]
    {
      assert FileByte(d, v, p) == FileByte(d, t[i], p);
      hide FileByte;
    }
  }

  lemma WroteWithin(g: Super, d0: Disk, t0: Table, d: Disk, t: Table, i: nat, off: nat, w: seq<Byte>)
    requires Inv(g, d0) && DiskOk(g, d) && t0 == DiskTable(g, d0) && i < |t0| == |t| && off <= t0[i].size
    requires Writing(g, d0, t0, d, t, i, off, w, off + |w|, Max(t0[i].size, off + |w|))
    requires Max(t0[i].size, off + |w|) == t0[i].size
    ensures Wrote(g, d0, d, i, off, w)
  {
    hide Owns, Bit, Dense, DiskTable, Free, OthersSame, FileByte, BlocksFor, Splice, Content;
    WritingContent(g, d0, t0, d, t, i, off, w, t[i]);
  }

  lemma Resized(g: Super, d: Disk, t: Table, i: nat, o: nat, v0: Dinode)
    requires DiskOk(g, d) && Owns(g, d, t) && i < |t| && o < UINT
    requires v0.Fits() && t[i] == v0.(addrs := t[i].addrs)
    ensures Owns(g, d, t[i := t[i].(size := o)]) && t[i].(size := o).Fits()
  {
    hide Bit, Word;
    var t' := t[i := t[i].(size := o)];
    forall j, r | 0 <= j < |t| && 0 <= r < NSLOT
      ensures Name(d, t'[j], r) == Name(d, t[j], r)
    {}
    forall k | 0 <= k < NADDR
      ensures t[i].addrs[k] < UINT
    {
      assert t[i].addrs[k] == Name(d, t[i], k);
    }
    hide Name;
  }

  lemma WroteMore(g: Super, d0: Disk, t0: Table, d: Disk, t: Table, d': Disk, i: nat, off: nat, w: seq<Byte>)
    requires Inv(g, d0) && DiskOk(g, d) && DiskOk(g, d') && t0 == DiskTable(g, d0) && i < |t0| == |t| && off <= t0[i].size
    requires Writing(g, d0, t0, d, t, i, off, w, off + |w|, Max(t0[i].size, off + |w|)) && off + |w| >= t0[i].size
    requires DiskTable(g, d') == DiskTable(g, d)[i := t[i].(size := off + |w|)]
    requires Owns(g, d', DiskTable(g, d')) && Free(g, d') == Free(g, d) && NamesSame(d, d', DiskTable(g, d'))
    requires forall x | 0 <= x < g.size && x != IBlock(i) :: d'[x] == d[x]
    ensures Wrote(g, d0, d', i, off, w)
  {
    hide Bit, Word, DiskTable, Free, BlocksFor, Splice;
    var v := t[i].(size := off + |w|);
    var t' := DiskTable(g, d');
    assert Free(g, d') == Free(g, d);
    WritingContent(g, d0, t0, d, t, i, off, w, v);
    DenseSize(d, t[i], v, v.size);
    AfterInodeWrite(g, d, d', t', i, v);
    OthersSameInodeWrite(g, d0, d, d', t0, t', i);
    hide Name, OthersSame, Dense, Content, Owns, NamesSame, FileByte;
  }

  /** Writing an inode back changes no file's blocks or bytes. */
  lemma AfterInodeWrite(g: Super, d: Disk, d': Disk, t': Table, i: nat, v: Dinode)
    requires DiskOk(g, d) && DiskOk(g, d') && Owns(g, d', t') && i < |t'| == g.ninodes && t'[i] == v
    requires NamesSame(d, d', t') && forall x | 0 <= x < g.size && x != IBlock(i) :: d'[x] == d[x]
    ensures Content(d', v) == Content(d, v)
    ensures forall lim :: Dense(d, v, lim) ==> Dense(d', v, lim)
  {
    hide Bit, Word;
    AreasDisjoint(g, i, 0);
    forall k | 0 <= k < MAXFILE
      ensures BlockOf(d', v, k) == BlockOf(d, v, k)
    {
      assert Name(d', t'[i], SlotOf(k)) == Name(d, t'[i], SlotOf(k));
    }
    forall p | 0 <= p < v.size
      ensures FileByte(d', v, p) == FileByte(d, v, p)
    {
      if p / BSIZE < MAXFILE && BlockOf(d', v, p / BSIZE) != 0 {
        NamedIsData(g, d', t', i, SlotOf(p / BSIZE));
      }
    }
  }

  lemma OthersSameInodeWrite(g: Super, d0: Disk, d: Disk, d': Disk, t: Table, t': Table, i: nat)
    requires DiskOk(g, d0) && DiskOk(g, d) && DiskOk(g, d') && Owns(g, d', t') && i < |t| == |t'| == g.ninodes
    requires NamesSame(d, d', t') && forall x | 0 <= x < g.size && x != IBlock(i) :: d'[x] == d[x]
    requires forall j | 0 <= j < |t| && j != i :: t'[j] == t[j]
    requires OthersSame(g, d0, d, t, i)
    ensures OthersSame(g, d0, d', t, i)
  {
    hide Bit, Word, Name, DiskTable, Owns;
    AreasDisjoint(g, i, 0);
    forall j, r | 0 <= j < |t| && 0 <= r < NSLOT && j != i
      ensures Name(d', t[j], r) == Name(d0, t[j], r)
      ensures r != NDIRECT && 0 < Name(d0, t[j], r) < g.size ==> d'[Name(d0, t[j], r)] == d0[Name(d0, t[j], r)]
    {
      assert Name(d, t[j], r) == Name(d0, t[j], r) && Name(d', t'[j], r) == Name(d, t'[j], r);
      if Name(d', t'[j], r) != 0 {
        NamedIsData(g, d', t', j, r);
      }
    }
  }

  lemma DenseBound(d: Disk, v: Dinode)
    requires Dense(d, v, v.size)
    ensures v.size <= MAXFILE * BSIZE
  {}

  lemma MappedNothing(g: Super, d: Disk, t: Table, d': Disk, t': Table, i: nat, bn: nat)
    requires DiskOk(g, d) && DiskOk(g, d') && i < |t| == |t'| && bn < MAXFILE
    requires Mapped(g, d, t, d', t', i, bn) && BlockOf(d, t[i], bn) != 0
    ensures d' == d && t' == t
  {
    hide Bit, Name;
  }

  // ---------- what callers get ----------

  /** ialloc twice: the second inode is another one, and the first keeps its type. */
  method IallocTwice(fs: FileSystem, typ: nat, typ2: nat) returns (i: int, j: int)
    requires Inv(fs.g, fs.disk) && 0 < typ < 0x1_0000 && 0 < typ2 < 0x1_0000
    modifies fs
    ensures i != -1 ==> Inv(fs.g, fs.disk) && 0 <= i < fs.g.ninodes && NewInode(DiskTable(fs.g, fs.disk)[i], typ, 0)
    ensures j != -1 ==> Inv(fs.g, fs.disk) && 0 <= j < fs.g.ninodes && NewInode(DiskTable(fs.g, fs.disk)[j], typ2, 0)
    ensures i != -1 ==> j != i && (j != -1 ==> j > i)
    ensures i == -1 ==> j == -1
  {
    hide Owns, DinodeAt, Word, OthersSame, Dense, Free;
    i := fs.Ialloc(typ);
    j := fs.Ialloc(typ2);
  }

  /** Reading back the written range gives the written bytes. */
  lemma ReadAfterWrite(g: Super, d0: Disk, d: Disk, i: nat, off: nat, w: seq<Byte>, r: int, dst: seq<Byte>)
    requires Wrote(g, d0, d, i, off, w)
    requires ReadBack(Content(d, DiskTable(g, d)[i]), off, |w|, r, dst)
    ensures r == |w| && dst == w
  {
    hide Owns, Dense, OthersSame, DiskTable, Content;
    var c := Content(d0, DiskTable(g, d0)[i]);
    assert Splice(c, off, w)[off..off + |w|] == w;
  }

  /** Byte by byte: the written range holds the bytes written, and the rest of the file is as before. */
  lemma WrittenBytes(g: Super, d0: Disk, d: Disk, i: nat, off: nat, w: seq<Byte>, p: nat)
    requires Wrote(g, d0, d, i, off, w)
    ensures var c0, c := Content(d0, DiskTable(g, d0)[i]), Content(d, DiskTable(g, d)[i]);
            && |c| == Max(|c0|, off + |w|)
            && (p < |c| ==> c[p] == if off <= p < off + |w| then w[p - off] else c0[p])
  {
    hide Owns, Dense, OthersSame, DiskTable, Content, Free;
  }

  /** A write to one file changes the contents of no other. */
  lemma WriteIsLocal(g: Super, d0: Disk, d: Disk, i: nat, off: nat, w: seq<Byte>, j: nat)
    requires Wrote(g, d0, d, i, off, w) && j < g.ninodes && j != i
    ensures Content(d, DiskTable(g, d)[j]) == Content(d0, DiskTable(g, d0)[j])
    ensures forall lim :: Dense(d0, DiskTable(g, d0)[j], lim) ==> Dense(d, DiskTable(g, d)[j], lim)
  {
    hide Owns, Dense, OthersSame, DiskTable, Content, Splice, Bit, Free;
    OtherContentSame(g, d0, d, DiskTable(g, d0), i, j);
  }

  /** Truncating a file empties it and changes the contents of no other. */
  lemma TruncateIsLocal(g: Super, d0: Disk, d: Disk, i: nat, j: nat)
    requires Inv(g, d0) && i < g.ninodes && Truncated(g, d0, DiskTable(g, d0), d, i) && j < g.ninodes && j != i
    ensures Content(d, DiskTable(g, d)[j]) == Content(d0, DiskTable(g, d0)[j])
    ensures Content(d, DiskTable(g, d)[i]) == [] && Dense(d, DiskTable(g, d)[i], 0)
    ensures var v0, v := DiskTable(g, d0)[i], DiskTable(g, d)[i];
            && v.typ == v0.typ && v.major == v0.major && v.minor == v0.minor && v.nlink == v0.nlink && v.size == 0
            && forall s :: 0 <= s < NADDR ==> v.addrs[s] == 0
  {
    hide Owns, OthersSame, DiskTable, Content, Bit, Free, Word;
    OtherContentSame(g, d0, d, DiskTable(g, d0), i, j);
  }

  /** A dense file of n bytes holds BlocksFor(n) blocks: itrunc frees as many as writei takes to grow an
      empty file to n bytes. */
  lemma DenseCount(g: Super, d: Disk, t: Table, i: nat, n: nat)
    requires DiskOk(g, d) && Owns(g, d, t) && i < |t| && Dense(d, t[i], n)
    ensures |Names(d, t[i])| == BlocksFor(n)
  {
    hide Bit, Word, Name, BlockOf, FreeZero, NamesUsed;
    var q := (n + BSIZE - 1) / BSIZE;
    var S := set s | 0 <= s < NSLOT && Name(d, t[i], s) != 0;
    forall s | 0 <= s < NSLOT
      ensures s in S <==> s in UsedSlots(q)
    {
      SlotUsed(d, t[i], n, s);
    }
    assert S == UsedSlots(q);
    ImageCount(d, t, i, S);
    assert Names(d, t[i]) == set s | s in S :: Name(d, t[i], s);
  }

  /** The slots in use in a dense file of q data blocks. */
  function UsedSlots(q: nat): set<nat> {
    if q <= NDIRECT then Range(q) else Range(q + 1)
  }

  lemma SlotUsed(d: Disk, v: Dinode, n: nat, s: nat)
    requires Dense(d, v, n) && s < NSLOT
    ensures Name(d, v, s) != 0 <==> s in UsedSlots((n + BSIZE - 1) / BSIZE)
  {
    hide Word;
    if s != NDIRECT {
      var k := if s < NDIRECT then s else s - 1;
      assert BlockOf(d, v, k) == Name(d, v, s);
      assert k * BSIZE < n <==> k < (n + BSIZE - 1) / BSIZE;
    }
  }

  /** {0, ..., n-1} */
  function Range(n: nat): (r: set<nat>)
    ensures |r| == n && forall k: nat :: k in r <==> k < n
  {
    if n == 0 then {} else Range(n - 1) + {n - 1}
  }

  /** Distinct names: a set of naming slots names as many blocks. */
  lemma {:induction false} ImageCount(d: Disk, t: Table, i: nat, S: set<nat>)
    requires NamesDistinct(d, t) && i < |t| && forall s :: s in S ==> s < NSLOT && Name(d, t[i], s) != 0
    ensures |set s | s in S :: Name(d, t[i], s)| == |S|
  {
    hide Name;
    if S != {} {
      var x :| x in S;
      ImageCount(d, t, i, S - {x});
      var img := set s | s in S - {x} :: Name(d, t[i], s);
      assert (set s | s in S :: Name(d, t[i], s)) == img + {Name(d, t[i], x)};
      assert Name(d, t[i], x) !in img;
    }
  }
}
