/** The bytes of a disk image: little-endian words, bitmap bits, on-disk inodes, and where
    each of them lives (include/fs.h). */
module DiskLayout {
  import opened CTypes

  const BSIZE := 512        // bytes in a block
  const NDIRECT := 12       // direct block addresses in an inode
  const NINDIRECT := 128    // words in an indirect block
  const MAXFILE := 140      // blocks in the largest file
  const IPB := 8            // inodes in a block
  const BPB := 4096         // bitmap bits in a block

  type Block = s: seq<Byte> | |s| == BSIZE witness seq(BSIZE, _ => 0)
  type Disk = seq<Block>

  /** A block of zeros. */
  function ZeroBlock(): (b: Block)
    ensures forall k :: 0 <= k < BSIZE ==> b[k] == 0
  {
    seq(BSIZE, _ => 0)
  }

  // ---------- words ----------

  /** The j-th 32-bit word of a block, least significant byte first. */
  function Word(b: Block, j: nat): (w: nat)
    requires j < NINDIRECT
    ensures w < UINT
  {
    var b0: int, b1: int, b2: int, b3: int := b[4*j], b[4*j+1], b[4*j+2], b[4*j+3];
    b0 + 0x100 * b1 + 0x1_0000 * b2 + 0x100_0000 * b3
  }

  /** Two and four bytes at an offset, as the structures on disk hold them. */
  function HalfAt(b: Block, o: nat): nat
    requires o + 2 <= BSIZE
  {
    b[o] as nat + 256 * b[o + 1] as nat
  }

  function WordAt(b: Block, o: nat): nat
    requires o + 4 <= BSIZE
  {
    HalfAt(b, o) + 65536 * HalfAt(b, o + 2)
  }

  lemma WordIsAt(b: Block, j: nat)
    requires j < NINDIRECT
    ensures Word(b, j) == WordAt(b, 4 * j) && HalfAt(b, 4 * j) < 65536 && HalfAt(b, 4 * j + 2) < 65536
  {}

  function PutWord(b: Block, j: nat, w: nat): Block
    requires j < NINDIRECT && w < UINT
  {
    b[4*j := w % 0x100][4*j+1 := w / 0x100 % 0x100][4*j+2 := w / 0x1_0000 % 0x100][4*j+3 := w / 0x100_0000 % 0x100]
  }

  /** Storing a word is read back exactly and disturbs no other word of the block. */
  lemma WordPutWord(b: Block, j: nat, w: nat, k: nat)
    requires j < NINDIRECT && k < NINDIRECT && w < UINT
    ensures Word(PutWord(b, j, w), k) == if k == j then w else Word(b, k)
  {
    if k == j {
      Base256(w);
    }
  }

  lemma Base256(w: nat)
    requires w < UINT
    ensures w % 0x100 + 0x100 * (w / 0x100 % 0x100) + 0x1_0000 * (w / 0x1_0000 % 0x100)
            + 0x100_0000 * (w / 0x100_0000 % 0x100) == w
  {
    var q1, q2, q3 := w / 0x100, w / 0x1_0000, w / 0x100_0000;
    assert q2 == q1 / 0x100 && q3 == q2 / 0x100;
  }

  lemma ZeroWord(j: nat)
    requires j < NINDIRECT
    ensures Word(ZeroBlock(), j) == 0
  {}

  /** Consecutive words o, o+1, ... of a block replaced by ws. */
  function PutWords(b: Block, o: nat, ws: seq<nat>): Block
    requires o + |ws| <= NINDIRECT && forall k :: 0 <= k < |ws| ==> ws[k] < UINT
    decreases |ws|
  {
    if ws == [] then b else PutWord(PutWords(b, o, ws[..|ws|-1]), o + |ws| - 1, ws[|ws|-1])
  }

  lemma {:induction false} WordPutWords(b: Block, o: nat, ws: seq<nat>, k: nat)
    requires o + |ws| <= NINDIRECT && forall k :: 0 <= k < |ws| ==> ws[k] < UINT
    requires k < NINDIRECT
    ensures Word(PutWords(b, o, ws), k) == if o <= k < o + |ws| then ws[k-o] else Word(b, k)
    decreases |ws|
  {
    if ws != [] {
      WordPutWords(b, o, ws[..|ws|-1], k);
      WordPutWord(PutWords(b, o, ws[..|ws|-1]), o + |ws| - 1, ws[|ws|-1], k);
    }
  }

  // ---------- bits ----------

  /** The mask 1 << k. */
  function Mask(k: nat): nat {
    if k == 0 then 1 else 2 * Mask(k - 1)
  }

  /** (x >> k) & 1, that is, x & Mask(k) != 0. */
  predicate BitOf(x: nat, k: nat) {
    if k == 0 then x % 2 == 1 else BitOf(x / 2, k - 1)
  }

  /** x | 1 << k for a clear bit k: no carry, no other bit moves. */
  lemma {:induction false} SetBitOf(x: nat, k: nat, j: nat)
    requires !BitOf(x, k)
    ensures BitOf(x + Mask(k), j) <==> j == k || BitOf(x, j)
  {
    if k != 0 {
      assert (x + Mask(k)) / 2 == x / 2 + Mask(k - 1);
      if j != 0 {
        SetBitOf(x / 2, k - 1, j - 1);
      }
    }
  }

  /** x & ~(1 << k) for a set bit k: no borrow, no other bit moves. */
  lemma {:induction false} ClearBitOf(x: nat, k: nat, j: nat)
    requires BitOf(x, k)
    ensures x >= Mask(k)
    ensures BitOf(x - Mask(k), j) <==> j != k && BitOf(x, j)
  {
    if k == 0 {
      assert (x - 1) / 2 == x / 2 && (x - 1) % 2 == 0;
    } else {
      ClearBitOf(x / 2, k - 1, if j == 0 then 0 else j - 1);
      assert (x - Mask(k)) / 2 == x / 2 - Mask(k - 1) && (x - Mask(k)) % 2 == x % 2;
    }
  }

  /** A byte with a clear bit among its eight has room for that bit's mask. */
  lemma {:induction false} SetBitOfFits(x: nat, k: nat, n: nat)
    requires k < n && x < Mask(n) && !BitOf(x, k)
    ensures x + Mask(k) < Mask(n)
  {
    assert Mask(n) == 2 * Mask(n - 1);
    if k == 0 {
      assert x % 2 == 0;
    } else {
      SetBitOfFits(x / 2, k - 1, n - 1);
      assert Mask(k) == 2 * Mask(k - 1);
    }
  }

  /** x |= 1 << k on a byte whose bit k is clear. */
  function OrMask(x: Byte, k: nat): Byte
    requires k < 8 && !BitOf(x, k)
  {
    SetBitOfFits(x, k, 8);
    x + Mask(k)
  }

  /** x &= ~(1 << k) on a byte whose bit k is set. */
  function AndNotMask(x: Byte, k: nat): Byte
    requires k < 8 && BitOf(x, k)
  {
    ClearBitOf(x, k, 0);
    x - Mask(k)
  }
}
