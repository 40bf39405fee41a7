/** What the on-disk file layer means: which blocks are free, which block each slot of each
    inode names, who owns what, and the bytes of a file.  (kernel/fs.c, include/fs.h) */
module FsSpec {
  import opened CTypes
  import opened DiskLayout

  // ---------- where things live ----------

  datatype Super = Super(size: nat, ninodes: nat)

  function IBlock(i: nat): nat { i / IPB + 2 }

  function BBlock(g: Super, b: nat): nat { b / BPB + g.ninodes / IPB + 3 }

  /** First block after the boot block, superblock, inode blocks and bitmap blocks. */
  function Meta(g: Super): nat { g.ninodes / IPB + 3 + (g.size / BPB + 1) }

  predicate DiskOk(g: Super, d: Disk) {
    && Meta(g) <= g.size == |d| < UINT
    && Word(d[1], 0) == g.size && Word(d[1], 2) == g.ninodes
  }

  /** The superblock, the inode blocks and the bitmap blocks do not overlap, and data blocks lie past them. */
  lemma AreasDisjoint(g: Super, i: nat, b: nat)
    requires i < g.ninodes && b < g.size
    ensures 1 < IBlock(i) < BBlock(g, b) < Meta(g)
  {
    assert i / IPB <= g.ninodes / IPB && b / BPB <= g.size / BPB;
  }

  lemma BitmapArea(g: Super, b: nat)
    requires b < g.size
    ensures 1 < BBlock(g, b) < Meta(g)
  {
    assert b / BPB <= g.size / BPB;
  }

  // ---------- bitmap ----------

  predicate Bit(g: Super, d: Disk, b: nat)
    requires DiskOk(g, d) && b < g.size
  {
    BitmapArea(g, b);
    BitOf(d[BBlock(g, b)][b % BPB / 8], b % BPB % 8)
  }

  ghost function Free(g: Super, d: Disk): set<nat>
    requires DiskOk(g, d)
  {
    set b | 0 <= b < g.size && !Bit(g, d, b)
  }

  /** d with one byte of block x replaced. */
  function PutByte(d: Disk, x: nat, k: nat, v: Byte): Disk
    requires x < |d| && k < BSIZE
  {
    d[x := d[x][k := v]]
  }

  function SetBit(g: Super, d: Disk, b: nat): (d': Disk)
    requires DiskOk(g, d) && b < g.size && !Bit(g, d, b)
    ensures |d'| == |d|
  {
    BitmapArea(g, b);
    PutByte(d, BBlock(g, b), b % BPB / 8, OrMask(d[BBlock(g, b)][b % BPB / 8], b % BPB % 8))
  }

  function ClearBit(g: Super, d: Disk, b: nat): Disk
    requires DiskOk(g, d) && b < g.size && Bit(g, d, b)
  {
    BitmapArea(g, b);
    PutByte(d, BBlock(g, b), b % BPB / 8, AndNotMask(d[BBlock(g, b)][b % BPB / 8], b % BPB % 8))
  }

  lemma SetBitBits(g: Super, d: Disk, b: nat)
    requires DiskOk(g, d) && b < g.size && !Bit(g, d, b)
    ensures DiskOk(g, SetBit(g, d, b))
    ensures forall c :: 0 <= c < g.size ==> (Bit(g, SetBit(g, d, b), c) <==> c == b || Bit(g, d, c))
    ensures forall x :: 0 <= x < g.size && x != BBlock(g, b) ==> SetBit(g, d, b)[x] == d[x]
  {
    BitmapArea(g, b);
    forall c | 0 <= c < g.size
      ensures Bit(g, SetBit(g, d, b), c) <==> c == b || Bit(g, d, c)
    {
      BitmapArea(g, c);
      SetBitOf(d[BBlock(g, b)][b % BPB / 8], b % BPB % 8, c % BPB % 8);
      BitPosition(g, b, c);
    }
  }

  lemma ClearBitBits(g: Super, d: Disk, b: nat)
    requires DiskOk(g, d) && b < g.size && Bit(g, d, b)
    ensures DiskOk(g, ClearBit(g, d, b))
    ensures forall c :: 0 <= c < g.size ==> (Bit(g, ClearBit(g, d, b), c) <==> c != b && Bit(g, d, c))
    ensures forall x :: 0 <= x < g.size && x != BBlock(g, b) ==> ClearBit(g, d, b)[x] == d[x]
  {
    BitmapArea(g, b);
    forall c | 0 <= c < g.size
      ensures Bit(g, ClearBit(g, d, b), c) <==> c != b && Bit(g, d, c)
    {
      BitmapArea(g, c);
      ClearBitOf(d[BBlock(g, b)][b % BPB / 8], b % BPB % 8, c % BPB % 8);
      BitPosition(g, b, c);
    }
  }

  /** Two blocks never share a bitmap bit. */
  lemma BitPosition(g: Super, b: nat, c: nat)
    ensures BBlock(g, b) == BBlock(g, c) && b % BPB / 8 == c % BPB / 8 && b % BPB % 8 == c % BPB % 8 ==> b == c
  {
    var x, y := b % BPB, c % BPB;
    assert x == 8 * (x / 8) + x % 8 && y == 8 * (y / 8) + y % 8;
  }


  // ---------- inodes ----------

  const NADDR := NDIRECT + 1          // address slots kept in the inode itself
  const NSLOT := NADDR + NINDIRECT    // every slot of an inode that can name a block

  type Addrs = a: seq<nat> | |a| == NADDR witness seq(NADDR, _ => 0)

  datatype Dinode = Dinode(typ: nat, major: nat, minor: nat, nlink: nat, size: nat, addrs: Addrs) {
    /** Every field fits its on-disk width. */
    predicate Fits() {
      && typ < 0x1_0000 && major < 0x1_0000 && minor < 0x1_0000 && nlink < 0x1_0000 && size < UINT
      && forall k :: 0 <= k < NADDR ==> addrs[k] < UINT
    }

    function Words(): (ws: seq<nat>)
      requires Fits()
      ensures |ws| == 16 && forall k :: 0 <= k < 16 ==> ws[k] < UINT
    {
      [typ + 0x1_0000 * major, minor + 0x1_0000 * nlink, size] + addrs
    }
  }

  function SlotWord(b: Block, slot: nat, k: nat): (w: nat)
    requires slot < IPB && k < 16
    ensures w < UINT
  {
    Word(b, slot * 16 + k)
  }

  /** The 16 words of the inode in the given slot of an inode block. */
  function SlotWords(b: Block, slot: nat): (ws: seq<nat>)
    requires slot < IPB
    ensures |ws| == 16 && forall k :: 0 <= k < 16 ==> ws[k] < UINT
  {
    seq<nat>(16, k requires 0 <= k < 16 => SlotWord(b, slot, k))
  }

  function FromWords(ws: seq<nat>): (di: Dinode)
    requires |ws| == 16 && forall k :: 0 <= k < 16 ==> ws[k] < UINT
    ensures di.Fits()
  {
    Dinode(ws[0] % 0x1_0000, ws[0] / 0x1_0000, ws[1] % 0x1_0000, ws[1] / 0x1_0000, ws[2], ws[3..])
  }

  function DinodeAt(d: Disk, i: nat): (di: Dinode)
    requires IBlock(i) < |d|
    ensures di.Fits()
  {
    FromWords(SlotWords(d[IBlock(i)], i % IPB))
  }

  function PutDinode(d: Disk, i: nat, di: Dinode): Disk
    requires IBlock(i) < |d| && di.Fits()
  {
    d[IBlock(i) := PutWords(d[IBlock(i)], i % IPB * 16, di.Words())]
  }

  lemma SlotWordsAfterPut(b: Block, slot: nat, ws: seq<nat>, slot': nat)
    requires slot < IPB && slot' < IPB && |ws| == 16 && forall k :: 0 <= k < 16 ==> ws[k] < UINT
    ensures SlotWords(PutWords(b, slot * 16, ws), slot') == if slot' == slot then ws else SlotWords(b, slot')
  {
    var b' := PutWords(b, slot * 16, ws);
    forall k | 0 <= k < 16
      ensures SlotWords(b', slot')[k] == if slot' == slot then ws[k] else SlotWords(b, slot')[k]
    {
      WordPutWords(b, slot * 16, ws, slot' * 16 + k);
    }
  }

  lemma FromWordsOfWords(di: Dinode)
    requires di.Fits()
    ensures FromWords(di.Words()) == di
  {
    assert di.Words()[3..] == di.addrs;
  }

  /** iupdate then ilock gives the inode back; no other on-disk inode moves. */
  lemma DinodeRoundTrip(d: Disk, i: nat, di: Dinode, j: nat)
    requires IBlock(i) < |d| && IBlock(j) < |d| && di.Fits()
    ensures DinodeAt(PutDinode(d, i, di), j) == if i == j then di else DinodeAt(d, j)
  {
    hide Word, PutWords, SlotWords;
    SlotWordsAfterPut(d[IBlock(i)], i % IPB, di.Words(), j % IPB);
    FromWordsOfWords(di);
    hide FromWords, Dinode.Words;
    assert IBlock(i) == IBlock(j) && i % IPB == j % IPB ==> i == j;
  }

  /** The structure on disk, byte for byte: eight inodes of 64 bytes to a block, from block 2 on. */
  lemma DinodeOnDisk(d: Disk, i: nat, di: Dinode, k: nat)
    requires IBlock(i) < |d| && di.Fits() && k < 13
    ensures i / 8 + 2 < |d|
    ensures var b, o := PutDinode(d, i, di)[i / 8 + 2], i % 8 * 64;
            && HalfAt(b, o) == di.typ && HalfAt(b, o + 2) == di.major && HalfAt(b, o + 4) == di.minor && HalfAt(b, o + 6) == di.nlink
            && WordAt(b, o + 8) == di.size && WordAt(b, o + 12 + 4 * k) == di.addrs[k]
  {
    hide Word, PutWords, HalfAt, WordAt, Dinode.Words;
    var ws := di.Words();
    WordsAre(di, k);
    InodeBytes(d, i, ws, 0);
    InodeBytes(d, i, ws, 1);
    InodeBytes(d, i, ws, 2);
    InodeBytes(d, i, ws, 3 + k);
    var b, o := PutDinode(d, i, di)[i / 8 + 2], i % 8 * 64;
    WordHalves(b, o);
    WordHalves(b, o + 4);
    Halves(HalfAt(b, o), HalfAt(b, o + 2), di.typ, di.major);
    Halves(HalfAt(b, o + 4), HalfAt(b, o + 6), di.minor, di.nlink);
  }

  lemma WordsAre(di: Dinode, k: nat)
    requires di.Fits() && k < 13
    ensures var ws := di.Words();
            ws[0] == di.typ + 65536 * di.major && ws[1] == di.minor + 65536 * di.nlink && ws[2] == di.size && ws[3 + k] == di.addrs[k]
  {}

  lemma WordHalves(b: Block, o: nat)
    requires o + 4 <= BSIZE
    ensures WordAt(b, o) == HalfAt(b, o) + 65536 * HalfAt(b, o + 2) && HalfAt(b, o) < 65536 && HalfAt(b, o + 2) < 65536
  {}

  /** Word m of an inode that was stored. */
  lemma InodeBytes(d: Disk, i: nat, ws: seq<nat>, m: nat)
    requires IBlock(i) < |d| && |ws| == 16 && (forall k :: 0 <= k < 16 ==> ws[k] < UINT) && m < 16
    ensures WordAt(PutWords(d[IBlock(i)], i % IPB * 16, ws), i % 8 * 64 + 4 * m) == ws[m]
  {
    hide Word, PutWords, WordAt;
    WordPutWords(d[IBlock(i)], i % IPB * 16, ws, i % IPB * 16 + m);
    WordIsAt(PutWords(d[IBlock(i)], i % IPB * 16, ws), i % IPB * 16 + m);
  }

  lemma Halves(a: nat, b: nat, c: nat, d: nat)
    requires a < 65536 && b < 65536 && c < 65536 && d < 65536 && a + 65536 * b == c + 65536 * d
    ensures a == c && b == d
  {}

  type Table = seq<Dinode>

  /** The on-disk inode table. */
  function DiskTable(g: Super, d: Disk): (t: Table)
    requires DiskOk(g, d)
    ensures |t| == g.ninodes && forall i :: 0 <= i < |t| ==> t[i].Fits()
  {
    seq(g.ninodes, i requires 0 <= i < g.ninodes => assert IBlock(i) < Meta(g) by { AreasDisjoint(g, i, 0); }
                                                    DinodeAt(d, i))
  }

  // ---------- block ownership ----------

  /** The block named by slot s of inode di: the 13 address slots, then the words of the indirect block. */
  function Name(d: Disk, di: Dinode, s: nat): nat
    requires s < NSLOT
  {
    if s < NADDR then di.addrs[s]
    else if di.addrs[NDIRECT] == 0 || di.addrs[NDIRECT] >= |d| then 0
    else Word(d[di.addrs[NDIRECT]], s - NADDR)
  }

  /** Every named block is a data block marked in use. */
  ghost predicate NamesUsed(g: Super, d: Disk, t: Table)
    requires DiskOk(g, d)
  {
    forall i, s :: 0 <= i < |t| && 0 <= s < NSLOT && Name(d, t[i], s) != 0 ==>
      Meta(g) <= Name(d, t[i], s) < g.size && Bit(g, d, Name(d, t[i], s))
  }

  /** No block is named twice. */
  ghost predicate NamesDistinct(d: Disk, t: Table) {
    forall i, s, j, r | 0 <= i < |t| && 0 <= s < NSLOT && 0 <= j < |t| && 0 <= r < NSLOT ::
      Name(d, t[i], s) != 0 && Name(d, t[i], s) == Name(d, t[j], r) ==> i == j && s == r
  }

  /** Free blocks hold zeros; metadata blocks are never free. */
  ghost predicate FreeZero(g: Super, d: Disk)
    requires DiskOk(g, d)
  {
    && (forall b :: 0 <= b < g.size && !Bit(g, d, b) ==> d[b] == ZeroBlock())
    && (forall b :: 0 <= b < Meta(g) ==> Bit(g, d, b))
  }

  ghost predicate Owns(g: Super, d: Disk, t: Table)
    requires DiskOk(g, d)
  {
    NamesUsed(g, d, t) && NamesDistinct(d, t) && FreeZero(g, d)
  }

  /** The names of (d', t') are those of (d, t), except that slot s of inode i now names b. */
  ghost predicate NamesPlus(d: Disk, t: Table, d': Disk, t': Table, i: nat, s: nat, b: nat)
    requires i < |t| == |t'| && s < NSLOT
  {
    forall j, r :: 0 <= j < |t| && 0 <= r < NSLOT ==>
      Name(d', t'[j], r) == (if j == i && r == s then b else Name(d, t[j], r))
  }

  /** Handing a free block to a slot that named nothing keeps ownership. */
  lemma OwnsPlus(g: Super, d: Disk, t: Table, d': Disk, t': Table, i: nat, s: nat, b: nat)
    requires DiskOk(g, d) && DiskOk(g, d') && Owns(g, d, t)
    requires i < |t| == |t'| && s < NSLOT && b in Free(g, d) && Name(d, t[i], s) == 0
    requires NamesPlus(d, t, d', t', i, s, b)
    requires forall c :: 0 <= c < g.size ==> (Bit(g, d', c) <==> c == b || Bit(g, d, c))
    requires forall c :: c in Free(g, d') ==> d'[c] == d[c]
    ensures Owns(g, d', t')
    ensures Free(g, d') == Free(g, d) - {b}
  {
    hide Bit, Name;
    assert Free(g, d') == Free(g, d) - {b};
    assert forall j, r :: 0 <= j < |t| && 0 <= r < NSLOT ==> Name(d, t[j], r) != b;
    assert NamesUsed(g, d', t') by { hide NamesDistinct, FreeZero; }
    assert NamesDistinct(d', t') by { hide NamesUsed, FreeZero, Free; }
    assert FreeZero(g, d') by { hide NamesUsed, NamesDistinct, NamesPlus; }
    hide NamesUsed, NamesDistinct, FreeZero;
  }

  /** d and t after the free block b was given to address slot s of inode i. */
  lemma GrowAddr(g: Super, d: Disk, t: Table, i: nat, s: nat, b: nat)
    requires DiskOk(g, d) && Owns(g, d, t)
    requires i < |t| && s < NADDR && t[i].addrs[s] == 0 && b in Free(g, d)
    ensures DiskOk(g, SetBit(g, d, b))
    ensures var t' := t[i := t[i].(addrs := t[i].addrs[s := b])];
            Owns(g, SetBit(g, d, b), t') && NamesPlus(d, t, SetBit(g, d, b), t', i, s, b)
    ensures Free(g, SetBit(g, d, b)) == Free(g, d) - {b}
  {
    hide Word, Bit;
    SetBitBits(g, d, b);
    BitmapArea(g, b);
    var d', t' := SetBit(g, d, b), t[i := t[i].(addrs := t[i].addrs[s := b])];
    forall j, r | 0 <= j < |t| && 0 <= r < NSLOT
      ensures Name(d', t'[j], r) == if j == i && r == s then b else Name(d, t[j], r)
    {
      var x := t[j].addrs[NDIRECT];
      assert x == Name(d, t[j], NDIRECT);
      if NADDR <= r {
        ZeroWord(r - NADDR);
      }
    }
    OwnsPlus(g, d, t, d', t', i, s, b);
  }

  /** The free block b marked in use and stored in word k of block x. */
  function WithEntry(g: Super, d: Disk, x: nat, k: nat, b: nat): Disk
    requires DiskOk(g, d) && x < g.size && k < NINDIRECT && b < g.size && !Bit(g, d, b)
  {
    SetBit(g, d, b)[x := PutWord(d[x], k, b)]
  }

  lemma WithEntryBlocks(g: Super, d: Disk, x: nat, k: nat, b: nat)
    requires DiskOk(g, d) && Meta(g) <= x < g.size && k < NINDIRECT && b < g.size && !Bit(g, d, b)
    ensures DiskOk(g, WithEntry(g, d, x, k, b))
    ensures forall c :: 0 <= c < g.size ==> (Bit(g, WithEntry(g, d, x, k, b), c) <==> c == b || Bit(g, d, c))
    ensures forall y :: 0 <= y < g.size && y != x && y != BBlock(g, b) ==> WithEntry(g, d, x, k, b)[y] == d[y]
    ensures WithEntry(g, d, x, k, b)[x] == PutWord(d[x], k, b)
  {
    SetBitBits(g, d, b);
    BitmapArea(g, b);
    forall c | 0 <= c < g.size
      ensures Bit(g, WithEntry(g, d, x, k, b), c) == Bit(g, SetBit(g, d, b), c)
    {
      BitmapArea(g, c);
    }
  }

  lemma WithEntryNames(g: Super, d: Disk, t: Table, i: nat, k: nat, b: nat)
    requires DiskOk(g, d) && Owns(g, d, t)
    requires i < |t| && k < NINDIRECT && b in Free(g, d)
    requires Meta(g) <= t[i].addrs[NDIRECT] < g.size
    ensures NamesPlus(d, t, WithEntry(g, d, t[i].addrs[NDIRECT], k, b), t, i, NADDR + k, b)
  {
    hide Bit, Word, PutWord, BBlock, FreeZero;
    var x := t[i].addrs[NDIRECT];
    var d' := WithEntry(g, d, x, k, b);
    WithEntryBlocks(g, d, x, k, b);
    BitmapArea(g, b);
    assert x == Name(d, t[i], NDIRECT);
    forall j, r | 0 <= j < |t| && 0 <= r < NSLOT
      ensures Name(d', t[j], r) == if j == i && r == NADDR + k then b else Name(d, t[j], r)
    {
      var y := t[j].addrs[NDIRECT];
      assert y == Name(d, t[j], NDIRECT);
      if NADDR <= r {
        WordPutWord(d[x], k, b, r - NADDR);
      }
    }
  }

  lemma IndirectUsed(g: Super, d: Disk, t: Table, i: nat)
    requires DiskOk(g, d) && Owns(g, d, t) && i < |t| && t[i].addrs[NDIRECT] != 0
    ensures Meta(g) <= t[i].addrs[NDIRECT] < g.size && Bit(g, d, t[i].addrs[NDIRECT])
    ensures Name(d, t[i], NDIRECT) == t[i].addrs[NDIRECT]
  {
    hide Bit, Word, NamesDistinct, FreeZero;
    assert Name(d, t[i], NDIRECT) == t[i].addrs[NDIRECT];
  }

  /** d after the free block b was given to word k of the indirect block of inode i. */
  lemma GrowIndirect(g: Super, d: Disk, t: Table, i: nat, k: nat, b: nat)
    requires DiskOk(g, d) && Owns(g, d, t)
    requires i < |t| && k < NINDIRECT && t[i].addrs[NDIRECT] != 0
    requires Name(d, t[i], NADDR + k) == 0 && b in Free(g, d)
    ensures Meta(g) <= t[i].addrs[NDIRECT] < g.size && t[i].addrs[NDIRECT] != b
    ensures var d' := WithEntry(g, d, t[i].addrs[NDIRECT], k, b);
            DiskOk(g, d') && Owns(g, d', t) && NamesPlus(d, t, d', t, i, NADDR + k, b) && Free(g, d') == Free(g, d) - {b}
  {
    hide Bit, Word, PutWord, Name, WithEntry, BBlock, NamesUsed, NamesDistinct, FreeZero, Meta;
    var x := t[i].addrs[NDIRECT];
    IndirectUsed(g, d, t, i);
    WithEntryBlocks(g, d, x, k, b);
    WithEntryNames(g, d, t, i, k, b);
    BitmapArea(g, b);
    var d' := WithEntry(g, d, x, k, b);
    forall c | c in Free(g, d')
      ensures d'[c] == d[c]
    {
      assert c != x && c in Free(g, d);
      FreeIsData(g, d, t, c);
    }
    hide DiskOk, Free, NamesPlus;
    OwnsPlus(g, d, t, d', t, i, NADDR + k, b);
  }

  lemma NamedIsData(g: Super, d: Disk, t: Table, i: nat, s: nat)
    requires DiskOk(g, d) && Owns(g, d, t) && i < |t| && s < NSLOT && Name(d, t[i], s) != 0
    ensures Meta(g) <= Name(d, t[i], s) < g.size
  {}

  lemma FreeIsData(g: Super, d: Disk, t: Table, b: nat)
    requires DiskOk(g, d) && Owns(g, d, t) && b in Free(g, d)
    ensures Meta(g) <= b < g.size
  {
    hide Bit;
  }

  // ---------- steps and what they leave alone ----------

  /** Disks that agree on the inode blocks hold the same inode table. */
  lemma DiskTableFrame(g: Super, d: Disk, d': Disk)
    requires DiskOk(g, d) && DiskOk(g, d')
    requires forall x :: 2 <= x < BBlock(g, 0) ==> d'[x] == d[x]
    ensures DiskTable(g, d') == DiskTable(g, d)
  {
    forall i | 0 <= i < g.ninodes
      ensures DiskTable(g, d')[i] == DiskTable(g, d)[i]
    {
      AreasDisjoint(g, i, 0);
    }
  }

  /** Inode i may have gained blocks; every block named before keeps its place and, unless it is
      an indirect block, its contents; other inodes and the on-disk inode table do not move. */
  ghost predicate Keeps(g: Super, d: Disk, t: Table, d': Disk, t': Table, i: nat)
    requires DiskOk(g, d) && DiskOk(g, d') && i < |t| == |t'|
  {
    && t' == t[i := t[i].(addrs := t'[i].addrs)]
    && DiskTable(g, d') == DiskTable(g, d)
    && (forall j, r | 0 <= j < |t| && 0 <= r < NSLOT ::
          j != i || Name(d, t[j], r) != 0 ==> Name(d', t'[j], r) == Name(d, t[j], r))
    && (forall j, r | 0 <= j < |t| && 0 <= r < NSLOT ::
          r != NDIRECT && 0 < Name(d, t[j], r) < g.size ==> d'[Name(d, t[j], r)] == d[Name(d, t[j], r)])
  }

  lemma KeepsTrans(g: Super, d: Disk, t: Table, d1: Disk, t1: Table, d2: Disk, t2: Table, i: nat)
    requires DiskOk(g, d) && DiskOk(g, d1) && DiskOk(g, d2) && i < |t| == |t1| == |t2|
    requires Keeps(g, d, t, d1, t1, i) && Keeps(g, d1, t1, d2, t2, i)
    ensures Keeps(g, d, t, d2, t2, i)
  {
    forall j, r | 0 <= j < |t| && 0 <= r < NSLOT && (j != i || Name(d, t[j], r) != 0)
      ensures Name(d2, t2[j], r) == Name(d, t[j], r)
    {
      assert Name(d1, t1[j], r) == Name(d, t[j], r);
    }
    forall j, r | 0 <= j < |t| && 0 <= r < NSLOT && r != NDIRECT && 0 < Name(d, t[j], r) < g.size
      ensures d2[Name(d, t[j], r)] == d[Name(d, t[j], r)]
    {
      assert Name(d1, t1[j], r) == Name(d, t[j], r);
    }
  }

  /** What a successful growth step gives its caller. */
  ghost predicate Grew(g: Super, d: Disk, t: Table, d': Disk, t': Table, i: nat, s: nat, b: nat)
    requires DiskOk(g, d) && DiskOk(g, d') && i < |t| == |t'| && s < NSLOT
  {
    && Owns(g, d', t') && Keeps(g, d, t, d', t', i) && NamesPlus(d, t, d', t', i, s, b)
    && b in Free(g, d) && Free(g, d') == Free(g, d) - {b} && d'[b] == ZeroBlock()
  }

  lemma GrewAddr(g: Super, d: Disk, t: Table, i: nat, s: nat, b: nat)
    requires DiskOk(g, d) && Owns(g, d, t)
    requires i < |t| && s < NADDR && t[i].addrs[s] == 0 && b in Free(g, d)
    ensures DiskOk(g, SetBit(g, d, b))
    ensures Grew(g, d, t, SetBit(g, d, b), t[i := t[i].(addrs := t[i].addrs[s := b])], i, s, b)
  {
    GrowAddr(g, d, t, i, s, b);
    SetBitBits(g, d, b);
    BitmapArea(g, b);
    DiskTableFrame(g, d, SetBit(g, d, b));
  }

  lemma GrewIndirect(g: Super, d: Disk, t: Table, i: nat, k: nat, b: nat)
    requires DiskOk(g, d) && Owns(g, d, t)
    requires i < |t| && k < NINDIRECT && t[i].addrs[NDIRECT] != 0
    requires Name(d, t[i], NADDR + k) == 0 && b in Free(g, d)
    ensures Meta(g) <= t[i].addrs[NDIRECT] < g.size && t[i].addrs[NDIRECT] != b
    ensures var d' := WithEntry(g, d, t[i].addrs[NDIRECT], k, b);
            DiskOk(g, d') && Grew(g, d, t, d', t, i, NADDR + k, b)
  {
    hide Word, PutWord, Bit;
    GrowIndirect(g, d, t, i, k, b);
    var x := t[i].addrs[NDIRECT];
    assert x == Name(d, t[i], NDIRECT);
    WithEntryBlocks(g, d, x, k, b);
    BitmapArea(g, b);
    AreasDisjoint'(g);
    DiskTableFrame(g, d, WithEntry(g, d, x, k, b));
  }

  lemma AreasDisjoint'(g: Super)
    requires Meta(g) <= g.size
    ensures BBlock(g, 0) < Meta(g)
  {
    BitmapArea(g, 0);
  }

  ghost predicate NamesSame(d: Disk, d': Disk, t: Table) {
    forall j, r | 0 <= j < |t| && 0 <= r < NSLOT :: Name(d', t[j], r) == Name(d, t[j], r)
  }

  lemma OwnsSame(g: Super, d: Disk, d': Disk, t: Table)
    requires DiskOk(g, d) && DiskOk(g, d') && Owns(g, d, t) && NamesSame(d, d', t)
    requires forall c :: 0 <= c < g.size ==> Bit(g, d', c) == Bit(g, d, c)
    requires forall c :: c in Free(g, d) ==> d'[c] == d[c]
    ensures Owns(g, d', t) && Free(g, d') == Free(g, d)
  {
    hide Bit, Name;
    assert Free(g, d') == Free(g, d);
    assert NamesDistinct(d', t);
    assert FreeZero(g, d');
    assert NamesUsed(g, d', t);
  }

  /** Every data block except the one in slot s of inode i has the same contents in d and d'. */
  ghost predicate DataSameBut(g: Super, d: Disk, d': Disk, t: Table, i: nat, s: nat)
    requires DiskOk(g, d) && DiskOk(g, d')
  {
    forall j, r | 0 <= j < |t| && 0 <= r < NSLOT && (j != i || r != s) ::
      0 < Name(d, t[j], r) < g.size ==> d'[Name(d, t[j], r)] == d[Name(d, t[j], r)]
  }

  lemma BlockWriteNames(g: Super, d: Disk, t: Table, i: nat, s: nat, blk: Block)
    requires DiskOk(g, d) && Owns(g, d, t) && i < |t| && s < NSLOT && s != NDIRECT && 0 < Name(d, t[i], s) < g.size
    ensures NamesSame(d, d[Name(d, t[i], s) := blk], t)
  {
    hide Bit, Word;
    var a := Name(d, t[i], s);
    forall j, r | 0 <= j < |t| && 0 <= r < NSLOT
      ensures Name(d[a := blk], t[j], r) == Name(d, t[j], r)
    {
      assert t[j].addrs[NDIRECT] == Name(d, t[j], NDIRECT);
    }
  }

  /** Overwriting a data block of inode i disturbs no name, no bit, no inode and no other data block. */
  lemma DataWrite(g: Super, d: Disk, t: Table, i: nat, s: nat, d': Disk)
    requires DiskOk(g, d) && Owns(g, d, t) && i < |t| && s < NSLOT && s != NDIRECT && 0 < Name(d, t[i], s) < |d| == |d'|
    requires d' == d[Name(d, t[i], s) := d'[Name(d, t[i], s)]]
    ensures DiskOk(g, d') && Owns(g, d', t)
    ensures Free(g, d') == Free(g, d)
    ensures DiskTable(g, d') == DiskTable(g, d)
    ensures NamesSame(d, d', t) && DataSameBut(g, d, d', t, i, s)
  {
    hide Word, Name, BBlock, Meta;
    var a := Name(d, t[i], s);
    BlockWriteNames(g, d, t, i, s, d'[a]);
    DataWriteBits(g, d, a, d'[a]);
    hide Bit;
    OwnsSame(g, d, d', t);
  }

  lemma DataWriteBits(g: Super, d: Disk, a: nat, blk: Block)
    requires DiskOk(g, d) && Meta(g) <= a < g.size
    ensures DiskOk(g, d[a := blk]) && DiskTable(g, d[a := blk]) == DiskTable(g, d)
    ensures forall c :: 0 <= c < g.size ==> Bit(g, d[a := blk], c) == Bit(g, d, c)
  {
    hide Word;
    forall c | 0 <= c < g.size
      ensures Bit(g, d[a := blk], c) == Bit(g, d, c)
    {
      BitmapArea(g, c);
    }
    AreasDisjoint'(g);
    DiskTableFrame(g, d, d[a := blk]);
  }

  /** iupdate: only the one inode of the on-disk table changes. */
  lemma InodeWrite(g: Super, d: Disk, t: Table, i: nat, di: Dinode)
    requires DiskOk(g, d) && Owns(g, d, t) && i < g.ninodes && di.Fits()
    ensures IBlock(i) < Meta(g) && DiskOk(g, PutDinode(d, i, di)) && Owns(g, PutDinode(d, i, di), t)
    ensures Free(g, PutDinode(d, i, di)) == Free(g, d)
    ensures DiskTable(g, PutDinode(d, i, di)) == DiskTable(g, d)[i := di]
    ensures NamesSame(d, PutDinode(d, i, di), t)
  {
    hide Word, Name, PutWords, BBlock, Meta;
    InodeWriteBits(g, d, i, di);
    var d' := PutDinode(d, i, di);
    hide Bit;
    InodeWriteTable(g, d, i, di);
    assert NamesSame(d, d', t) by {
      forall j, r | 0 <= j < |t| && 0 <= r < NSLOT
        ensures Name(d', t[j], r) == Name(d, t[j], r)
      {
        NameFrame(d, d', t[j], r);
      }
    }
    OwnsSame(g, d, d', t);
  }

  lemma NameFrame(d: Disk, d': Disk, di: Dinode, r: nat)
    requires r < NSLOT && |d| == |d'|
    requires 0 < Name(d, di, NDIRECT) < |d| ==> d[Name(d, di, NDIRECT)] == d'[Name(d, di, NDIRECT)]
    ensures Name(d', di, r) == Name(d, di, r)
  {
    hide Word;
    assert di.addrs[NDIRECT] == Name(d, di, NDIRECT);
  }

  lemma InodeWriteBits(g: Super, d: Disk, i: nat, di: Dinode)
    requires DiskOk(g, d) && i < g.ninodes && di.Fits()
    ensures IBlock(i) < Meta(g) && DiskOk(g, PutDinode(d, i, di))
    ensures forall c :: 0 <= c < g.size ==> Bit(g, PutDinode(d, i, di), c) == Bit(g, d, c)
  {
    hide Word, PutWords;
    AreasDisjoint(g, i, 0);
    forall c | 0 <= c < g.size
      ensures Bit(g, PutDinode(d, i, di), c) == Bit(g, d, c)
    {
      AreasDisjoint(g, i, c);
    }
  }

  lemma InodeWriteTable(g: Super, d: Disk, i: nat, di: Dinode)
    requires DiskOk(g, d) && i < g.ninodes && di.Fits() && IBlock(i) < Meta(g) && DiskOk(g, PutDinode(d, i, di))
    ensures DiskTable(g, PutDinode(d, i, di)) == DiskTable(g, d)[i := di]
  {
    forall j | 0 <= j < g.ninodes
      ensures DiskTable(g, PutDinode(d, i, di))[j] == if j == i then di else DiskTable(g, d)[j]
    {
      AreasDisjoint(g, j, 0);
      DinodeRoundTrip(d, i, di, j);
    }
  }

  // ---------- giving blocks back ----------

  /** The blocks inode di names. */
  ghost function Names(d: Disk, di: Dinode): set<nat> {
    set s | 0 <= s < NSLOT && Name(d, di, s) != 0 :: Name(d, di, s)
  }

  /** d' is d with the blocks of F zeroed and their bits cleared. */
  ghost predicate Freed(g: Super, d: Disk, d': Disk, F: set<nat>)
    requires DiskOk(g, d) && DiskOk(g, d')
  {
    && (forall b :: 0 <= b < g.size ==> (Bit(g, d', b) <==> Bit(g, d, b) && b !in F))
    && (forall x | 0 <= x < g.size :: (x < BBlock(g, 0) || Meta(g) <= x) ==> d'[x] == if x in F then ZeroBlock() else d[x])
  }

  /** The inode itrunc leaves behind. */
  function Emptied(di: Dinode): Dinode {
    di.(size := 0, addrs := seq(NADDR, _ => 0))
  }

  lemma FreedNames(g: Super, d: Disk, t: Table, d': Disk, i: nat)
    requires DiskOk(g, d) && DiskOk(g, d') && Owns(g, d, t) && i < |t|
    requires Freed(g, d, d', Names(d, t[i]))
    ensures forall j, r | 0 <= j < |t| && 0 <= r < NSLOT ::
              Name(d', t[i := Emptied(t[i])][j], r) == if j == i then 0 else Name(d, t[j], r)
    ensures forall j, r | 0 <= j < |t| && 0 <= r < NSLOT && j != i && Name(d, t[j], r) != 0 ::
              Name(d, t[j], r) < g.size && d'[Name(d, t[j], r)] == d[Name(d, t[j], r)]
  {
    hide Bit, Word, FreeZero, BBlock;
    forall j, r | 0 <= j < |t| && 0 <= r < NSLOT && j != i && Name(d, t[j], r) != 0
      ensures Name(d, t[j], r) !in Names(d, t[i]) && Meta(g) <= Name(d, t[j], r) < g.size
    {
      hide Name, Meta;
    }
    forall j, r | 0 <= j < |t| && 0 <= r < NSLOT
      ensures Name(d', t[i := Emptied(t[i])][j], r) == if j == i then 0 else Name(d, t[j], r)
    {
      assert t[j].addrs[NDIRECT] == Name(d, t[j], NDIRECT);
    }
  }

  /** Freeing exactly the blocks of an inode and forgetting them keeps ownership. */
  lemma OwnsMinus(g: Super, d: Disk, t: Table, d': Disk, i: nat)
    requires DiskOk(g, d) && DiskOk(g, d') && Owns(g, d, t) && i < |t|
    requires Freed(g, d, d', Names(d, t[i]))
    ensures Owns(g, d', t[i := Emptied(t[i])]) && Free(g, d') == Free(g, d) + Names(d, t[i])
  {
    hide Bit, Name, BBlock;
    FreedNames(g, d, t, d', i);
    var t' := t[i := Emptied(t[i])];
    BitmapArea(g, 0);
    forall b | b in Names(d, t[i]) ensures Meta(g) <= b < g.size {}
    forall j, r | 0 <= j < |t| && 0 <= r < NSLOT && Name(d', t'[j], r) != 0
      ensures j != i && Name(d', t'[j], r) == Name(d, t[j], r) && Name(d, t[j], r) !in Names(d, t[i])
      ensures Meta(g) <= Name(d', t'[j], r) < g.size && Bit(g, d', Name(d', t'[j], r))
    {}
    assert NamesUsed(g, d', t');
    assert NamesDistinct(d', t');
    assert FreeZero(g, d');
    assert Free(g, d') == Free(g, d) + Names(d, t[i]);
  }

  /** An inode that names nothing may replace any other. */
  lemma OwnsForget(g: Super, d: Disk, t: Table, i: nat, v: Dinode)
    requires DiskOk(g, d) && Owns(g, d, t) && i < |t| && v.addrs == seq(NADDR, _ => 0)
    ensures Owns(g, d, t[i := v])
  {
    hide Bit, Word;
    var t' := t[i := v];
    forall j, r | 0 <= j < |t| && 0 <= r < NSLOT
      ensures Name(d, t'[j], r) == if j == i then 0 else Name(d, t[j], r)
    {}
    hide Name;
  }
}
