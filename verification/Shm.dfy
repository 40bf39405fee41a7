/** The shared-memory system calls, fork, wait, exec and sbrk as they touch shared regions, and the
    checks on system-call arguments. (p3b kernel/vm.c, proc.c, exec.c, syscall.c, sysproc.c) */
module Shm {
  import opened CTypes
  import opened ShmSpec

  /** panic stops the machine. */
  datatype Outcome = Ret(value: int) | Panic

  /** copyuvm's result. */
  datatype Copy = Copied(pgdir: map<nat, nat>) | NoMemory | NotPresent

  // ---------- the table as a whole ----------

  /** Every process in use but skip is sound. */
  ghost predicate Good(ps: seq<Proc>, pages: seq<nat>, paddr: seq<nat>, skip: int) {
    forall i :: 0 <= i < |ps| ==>
      |ps[i].vaddr| == REGIONS && (i != skip && ps[i].state != UNUSED ==> Sound(ps[i], pages, paddr))
  }

  const NOONE := -1

  /** The counts: one for each process that holds the region, and those lost by failed forks. */
  ghost predicate Counted(ps: seq<Proc>, count: seq<int>, leaked: seq<nat>) {
    |count| == |leaked| == REGIONS && forall k :: 0 <= k < REGIONS ==> count[k] == Attached(ps, k) + leaked[k]
  }

  /** A region in use has a page count and frames. */
  ghost predicate Backed(count: seq<int>, pages: seq<nat>, paddr: seq<nat>) {
    && |count| == |pages| == REGIONS && |paddr| == REGIONS * MAXPAGES
    && forall k :: 0 <= k < REGIONS && count[k] > 0 ==> 1 <= pages[k] <= MAXPAGES && RowBacked(pages[k], paddr, k)
  }

  ghost predicate RowBacked(n: nat, paddr: seq<nat>, k: nat)
    requires n <= MAXPAGES && k < REGIONS && |paddr| == REGIONS * MAXPAGES
  {
    forall i: nat :: i < n ==> Frame(paddr, k, i) != 0
  }

  /** Two tables of frames agree on region k. */
  ghost predicate SameRow(paddr: seq<nat>, paddr': seq<nat>, k: nat)
    requires k < REGIONS && |paddr| == |paddr'| == REGIONS * MAXPAGES
  {
    forall i: nat :: i < MAXPAGES ==> Frame(paddr', k, i) == Frame(paddr, k, i)
  }

  /** What is done to a region matters only to the processes that hold it. */
  lemma SoundElsewhere(p: Proc, pages: seq<nat>, paddr: seq<nat>, paddr': seq<nat>, key: nat, np: nat)
    requires Sound(p, pages, paddr) && key < REGIONS && |paddr'| == |paddr|
    requires forall k: nat :: k < REGIONS && k != key ==> SameRow(paddr, paddr', k)
    requires p.vaddr[key] == 0 || (np == pages[key] && SameRow(paddr, paddr', key))
    ensures Sound(p, pages[key := np], paddr')
  {
    TiledElsewhere(p.vaddr, pages, p.shmtop, key, np);
    var pages' := pages[key := np];
    forall k: nat, i: nat | k < REGIONS && p.vaddr[k] != 0 && i < pages'[k] <= MAXPAGES
      ensures PageVa(p.vaddr, pages', k, i) in p.pgdir && p.pgdir[PageVa(p.vaddr, pages', k, i)] == Frame(paddr', k, i)
    {
      assert PageVa(p.vaddr, pages', k, i) == PageVa(p.vaddr, pages, k, i);
      assert SameRow(paddr, paddr', k);
    }
  }

  lemma GoodElsewhere(ps: seq<Proc>, pages: seq<nat>, paddr: seq<nat>, paddr': seq<nat>, key: nat, np: nat, skip: int)
    requires Good(ps, pages, paddr, skip) && key < REGIONS && |pages| == REGIONS
    requires |paddr'| == |paddr| == REGIONS * MAXPAGES
    requires forall k: nat :: k < REGIONS && k != key ==> SameRow(paddr, paddr', k)
    requires (np == pages[key] && SameRow(paddr, paddr', key))
          || forall i :: 0 <= i < |ps| && i != skip && ps[i].state != UNUSED ==> ps[i].vaddr[key] == 0
    ensures Good(ps, pages[key := np], paddr', skip)
  {
    forall i | 0 <= i < |ps| && i != skip && ps[i].state != UNUSED ensures Sound(ps[i], pages[key := np], paddr') {
      SoundElsewhere(ps[i], pages, paddr, paddr', key, np);
    }
  }

  /** Nobody holds a region whose count is 0. */
  lemma ZeroIsFree(ps: seq<Proc>, key: nat)
    requires Attached(ps, key) == 0 && key < REGIONS && forall i :: 0 <= i < |ps| ==> |ps[i].vaddr| == REGIONS
    ensures forall i :: 0 <= i < |ps| && ps[i].state != UNUSED ==> ps[i].vaddr[key] == 0
  {
    forall i | 0 <= i < |ps| && ps[i].state != UNUSED ensures ps[i].vaddr[key] == 0 { AttachedSome(ps, i, key); }
  }

  lemma CountedUpdate(ps: seq<Proc>, count: seq<int>, leaked: seq<nat>, i: nat, p: Proc, count': seq<int>, leaked': seq<nat>)
    requires Counted(ps, count, leaked) && i < |ps| && |count'| == |leaked'| == REGIONS
    requires forall k :: 0 <= k < REGIONS ==> count'[k] - leaked'[k] == count[k] - leaked[k] - One(ps[i], k) + One(p, k)
    ensures Counted(ps[i := p], count', leaked')
  {
    forall k | 0 <= k < REGIONS ensures count'[k] == Attached(ps[i := p], k) + leaked'[k] { AttachedUpdate(ps, i, p, k); }
  }

  // ---------- memory ----------

  /** kalloc, whose i-th call in an operation yields kalloc(i) (0 for none), has a frame for each page of
      the given number of bytes. */
  ghost predicate Enough(kalloc: nat -> nat, bytes: int) {
    forall i: nat :: i * PGSIZE < bytes ==> kalloc(i) != 0
  }

  /** Copying the pages below sz meets one that is missing while there is still memory. */
  ghost predicate MeetsGap(pgdir: map<nat, nat>, sz: nat, kalloc: nat -> nat) {
    exists i: nat :: GapAt(pgdir, sz, kalloc, i)
  }

  ghost predicate GapAt(pgdir: map<nat, nat>, sz: nat, kalloc: nat -> nat, i: nat) {
    i * PGSIZE < sz && i * PGSIZE !in pgdir && forall j: nat :: j < i ==> kalloc(j) != 0
  }

  // ---------- page tables ----------

  /** Enter one page. */
  method Mappages(pgdir: map<nat, nat>, va: nat, pa: nat) returns (r: map<nat, nat>)
    requires va !in pgdir      // otherwise the kernel panics: remap
    ensures r == pgdir[va := pa]
  {
    r := pgdir[va := pa];
  }

  /** The page addresses of [lo, hi). */
  ghost predicate InPages(a: nat, lo: nat, hi: nat) { lo <= a < hi && a % PGSIZE == 0 }

  /** d is pgdir without the pages of [lo, hi). */
  ghost predicate Shrunk(pgdir: map<nat, nat>, d: map<nat, nat>, lo: nat, hi: nat) {
    && (forall a: nat :: a in d <==> a in pgdir && !InPages(a, lo, hi))
    && (forall a: nat :: a in d ==> d[a] == pgdir[a])
  }

  method Deallocuvm(pgdir: map<nat, nat>, oldsz: nat, newsz: nat) returns (d: map<nat, nat>, r: nat)
    ensures r == (if newsz >= oldsz then oldsz else newsz)
    ensures Shrunk(pgdir, d, RoundUp(newsz), oldsz) && (newsz >= oldsz ==> d == pgdir)
  {
    hide InPages, RoundUp, Shrunk;
    d, r := pgdir, oldsz;
    RoundedUp(newsz);
    ShrunkNone(pgdir, RoundUp(newsz), oldsz);
    if newsz < oldsz {
      var a := RoundUp(newsz);
      while a < oldsz
        invariant RoundUp(newsz) <= a && a % PGSIZE == 0
        invariant Shrunk(pgdir, d, RoundUp(newsz), Least(a, oldsz))
      {
        ShrunkMore(pgdir, d, RoundUp(newsz), a, oldsz);
        if a in d { d := d - {a}; }
        a := a + PGSIZE;
      }
      r := newsz;
    }
  }

  function Least(x: nat, y: nat): nat { if x < y then x else y }

  lemma RoundedUp(x: nat)
    ensures x <= RoundUp(x) < x + PGSIZE && RoundUp(x) % PGSIZE == 0
  {}

  /** Going one page further. */
  lemma NextPage(lo: nat, a: nat, hi: nat, b: nat)
    requires a % PGSIZE == 0 && lo <= a < hi
    ensures InPages(b, lo, Least(a + PGSIZE, hi)) <==> InPages(b, lo, a) || b == a
  {}

  lemma ShrunkNone(pgdir: map<nat, nat>, lo: nat, hi: nat)
    ensures Shrunk(pgdir, pgdir, lo, Least(lo, hi)) && (hi <= lo ==> Shrunk(pgdir, pgdir, lo, hi))
  {}

  lemma ShrunkMore(pgdir: map<nat, nat>, d: map<nat, nat>, lo: nat, a: nat, hi: nat)
    requires a % PGSIZE == 0 && lo <= a < hi && Shrunk(pgdir, d, lo, Least(a, hi))
    ensures Shrunk(pgdir, d - {a}, lo, Least(a + PGSIZE, hi)) && (a !in d ==> d - {a} == d)
  {
    hide InPages;
    forall b: nat ensures InPages(b, lo, Least(a + PGSIZE, hi)) <==> InPages(b, lo, a) || b == a { NextPage(lo, a, hi, b); }
  }

  /** Grow from oldsz to newsz, but never past shmtop: all pages are added if there is a frame for each,
      and none otherwise. */
  method Allocuvm(pgdir: map<nat, nat>, oldsz: nat, newsz: nat, shmtop: nat, kalloc: nat -> nat)
    returns (d: map<nat, nat>, r: nat)
    requires oldsz <= shmtop && shmtop % PGSIZE == 0
    requires forall a: nat :: a in pgdir ==> a % PGSIZE == 0 && (a < RoundUp(oldsz) || shmtop <= a)
    ensures newsz > shmtop ==> d == pgdir && r == 0
    ensures newsz < oldsz ==> d == pgdir && r == oldsz
    ensures oldsz <= newsz <= shmtop ==>
      if Enough(kalloc, newsz - RoundUp(oldsz)) then r == newsz && Extended(pgdir, d, RoundUp(oldsz), newsz, kalloc)
      else r == 0 && d == pgdir
  {
    hide InPages, RoundUp, Extended, Shrunk;
    d := pgdir;
    if newsz > shmtop { return d, 0; }
    if newsz < oldsz { return d, oldsz; }
    RoundedUp(oldsz);
    ExtendedNone(pgdir, RoundUp(oldsz), newsz, kalloc);
    var a := RoundUp(oldsz);
    var i: nat := 0;
    while a < newsz
      invariant a == RoundUp(oldsz) + i * PGSIZE && a % PGSIZE == 0 && forall j: nat :: j < i ==> kalloc(j) != 0
      invariant Extended(pgdir, d, RoundUp(oldsz), Least(a, newsz), kalloc)
    {
      var mem := kalloc(i);
      ExtendedMore(pgdir, d, RoundUp(oldsz), a, newsz, shmtop, kalloc, i);
      if mem == 0 {
        ghost var part := d;
        d, r := Deallocuvm(d, newsz, oldsz);
        Undone(pgdir, part, d, RoundUp(oldsz), a, newsz, shmtop, kalloc);
        return d, 0;
      }
      d := Mappages(d, a, mem);
      a := a + PGSIZE;
      i := i + 1;
    }
    r := newsz;
  }

  lemma ExtendedNone(pgdir: map<nat, nat>, lo: nat, hi: nat, kalloc: nat -> nat)
    ensures Extended(pgdir, pgdir, lo, Least(lo, hi), kalloc) && (hi <= lo ==> Extended(pgdir, pgdir, lo, hi, kalloc))
  {}

  lemma ExtendedMore(pgdir: map<nat, nat>, d: map<nat, nat>, lo: nat, a: nat, hi: nat, shmtop: nat, kalloc: nat -> nat, i: nat)
    requires a % PGSIZE == 0 && a == lo + i * PGSIZE && a < hi <= shmtop && Extended(pgdir, d, lo, Least(a, hi), kalloc)
    requires forall b: nat :: b in pgdir ==> b < lo || shmtop <= b
    ensures a !in d && (kalloc(i) != 0 ==> Extended(pgdir, d[a := kalloc(i)], lo, Least(a + PGSIZE, hi), kalloc))
  {
    assert !InPages(a, lo, a);
    hide InPages;
    forall b: nat ensures InPages(b, lo, Least(a + PGSIZE, hi)) <==> InPages(b, lo, a) || b == a { NextPage(lo, a, hi, b); }
    var e := d[a := kalloc(i)];
    forall j: nat | lo + j * PGSIZE < Least(a + PGSIZE, hi) ensures PageOn(e, lo + j * PGSIZE, kalloc(j)) {
      if j < i { assert PageOn(d, lo + j * PGSIZE, kalloc(j)); }
    }
  }

  /** Taking back what was added gives the old page table. */
  lemma Undone(pgdir: map<nat, nat>, part: map<nat, nat>, d: map<nat, nat>, lo: nat, a: nat, hi: nat, shmtop: nat, kalloc: nat -> nat)
    requires Extended(pgdir, part, lo, Least(a, hi), kalloc) && Shrunk(part, d, lo, hi) && lo <= a && hi <= shmtop
    requires forall b: nat :: b in pgdir ==> b < lo || shmtop <= b
    ensures d == pgdir
  {
    assert forall b: nat :: b in d <==> b in pgdir;
  }

  /** d is pgdir and the pages of [lo, hi), the j-th on the frame of the j-th kalloc. */
  ghost predicate Extended(pgdir: map<nat, nat>, d: map<nat, nat>, lo: nat, hi: nat, kalloc: nat -> nat) {
    && (forall a: nat :: a in d <==> a in pgdir || InPages(a, lo, hi))
    && (forall a: nat :: a in pgdir ==> d[a] == pgdir[a])
    && (forall j: nat :: lo + j * PGSIZE < hi ==> PageOn(d, lo + j * PGSIZE, kalloc(j)))
  }

  ghost predicate PageOn(d: map<nat, nat>, a: nat, f: nat) { a in d && d[a] == f }

  function MaxEnd(ends: seq<nat>): nat {
    if ends == [] then 0
    else if MaxEnd(ends[..|ends|-1]) < ends[|ends|-1] then ends[|ends|-1] else MaxEnd(ends[..|ends|-1])
  }

  /** The segments and a stack page fit below shmtop, and the first segment is not empty (its size of 0
      would read as a failure). */
  predicate Loadable(ends: seq<nat>, shmtop: nat) {
    && (forall i :: 0 <= i < |ends| ==> ends[i] <= shmtop) && (ends != [] ==> ends[0] > 0)
    && RoundUp(MaxEnd(ends)) + PGSIZE <= shmtop
  }

  /** The segments and the stack page get their frames; kalloc(i) is what the i-th allocuvm is given. */
  ghost predicate Memory(ends: seq<nat>, kalloc: nat -> nat -> nat) {
    && (forall i: nat :: i < |ends| ==> SegmentMemory(ends, kalloc, i))
    && Enough(kalloc(|ends|), PGSIZE)
  }

  ghost predicate SegmentMemory(ends: seq<nat>, kalloc: nat -> nat -> nat, i: nat)
    requires i < |ends|
  {
    Enough(kalloc(i), ends[i] - RoundUp(MaxEnd(ends[..i])))
  }

  /** exec's new image: one allocuvm per segment (ends are the segments' end addresses as 32-bit sums), then
      a stack page; allocuvm compares with the shmtop of the process that calls exec. */
  method LoadImage(ends: seq<nat>, shmtop: nat, kalloc: nat -> nat -> nat)
    returns (ok: bool, pgdir: map<nat, nat>, sz: nat)
    requires shmtop % PGSIZE == 0
    ensures ok <==> Loadable(ends, shmtop) && Memory(ends, kalloc)
    ensures ok ==> sz == RoundUp(MaxEnd(ends)) + PGSIZE && forall a: nat :: a in pgdir <==> InPages(a, 0, sz)
    ensures ok ==> ImageFrames(ends, pgdir, sz, kalloc)
  {
    hide InPages, Extended, RoundUp, Enough, MaxEnd, Loadable, Memory, SegmentMemory, OnFrames;
    ok, pgdir, sz := false, map[], 0;
    var i := 0;
    NoPages(0, 0);
    NothingLoaded(ends, shmtop, kalloc);
    while i < |ends|
      invariant i <= |ends| && sz == MaxEnd(ends[..i]) && Loaded(ends, i, shmtop, kalloc)
      invariant forall a: nat :: a in pgdir <==> InPages(a, 0, sz)
      invariant forall k: nat :: k < i ==> OnFrames(ends, k, pgdir, kalloc)
    {
      ghost var p0, s0 := pgdir, sz;
      PagesUpTo(sz);
      LoadedMore(ends, i, shmtop, kalloc);
      pgdir, sz := Allocuvm(pgdir, sz, ends[i], shmtop, kalloc(i));
      if sz == 0 { return; }
      if s0 <= ends[i] { ImageGrown(p0, s0, pgdir, ends[i], kalloc(i)); }
      SegmentOn(ends, i, p0, s0, pgdir, kalloc);
      i := i + 1;
    }
    LoadedAll(ends, shmtop, kalloc);
    ghost var p0, s0 := pgdir, sz;
    PagesUpTo(sz);
    RoundedUp(sz);
    PagesUpTo(RoundUp(sz));
    SamePages(sz);
    sz := RoundUp(sz);
    pgdir, sz := Allocuvm(pgdir, sz, sz + PGSIZE, shmtop, kalloc(i));
    ok := sz != 0;
    if ok {
      ImageGrown(p0, RoundUp(s0), pgdir, sz, kalloc(i));
      StackOn(ends, p0, RoundUp(s0), pgdir, kalloc);
    }
  }

  /** Page j of segment k that is not on an earlier segment's last page has the j-th frame of its allocuvm. */
  ghost predicate OnFrames(ends: seq<nat>, k: nat, pgdir: map<nat, nat>, kalloc: nat -> nat -> nat)
    requires k < |ends|
  {
    forall j: nat :: RoundUp(MaxEnd(ends[..k])) + j * PGSIZE < ends[k] ==>
      PageOn(pgdir, RoundUp(MaxEnd(ends[..k])) + j * PGSIZE, kalloc(k)(j))
  }

  /** Every page of the image, the stack page included, is on the frame allocated for it. */
  ghost predicate ImageFrames(ends: seq<nat>, pgdir: map<nat, nat>, sz: nat, kalloc: nat -> nat -> nat) {
    && (forall k: nat :: k < |ends| ==> OnFrames(ends, k, pgdir, kalloc))
    && sz >= PGSIZE && PageOn(pgdir, sz - PGSIZE, kalloc(|ends|)(0))
  }

  lemma SegmentOn(ends: seq<nat>, i: nat, p0: map<nat, nat>, s0: nat, p1: map<nat, nat>, kalloc: nat -> nat -> nat)
    requires i < |ends| && s0 == MaxEnd(ends[..i])
    requires if s0 <= ends[i] then Extended(p0, p1, RoundUp(s0), ends[i], kalloc(i)) else p1 == p0
    requires forall k: nat :: k < i ==> OnFrames(ends, k, p0, kalloc)
    ensures forall k: nat :: k < i + 1 ==> OnFrames(ends, k, p1, kalloc)
  {
    hide InPages, RoundUp, MaxEnd;
    RoundedUp(s0);
    forall k: nat | k < i ensures OnFrames(ends, k, p1, kalloc) { FramesStay(ends, k, p0, p1, kalloc); }
  }

  lemma FramesStay(ends: seq<nat>, k: nat, p0: map<nat, nat>, p1: map<nat, nat>, kalloc: nat -> nat -> nat)
    requires k < |ends| && OnFrames(ends, k, p0, kalloc) && forall a: nat :: a in p0 ==> a in p1 && p1[a] == p0[a]
    ensures OnFrames(ends, k, p1, kalloc)
  {
    hide RoundUp, MaxEnd;
    forall j: nat | RoundUp(MaxEnd(ends[..k])) + j * PGSIZE < ends[k]
      ensures PageOn(p1, RoundUp(MaxEnd(ends[..k])) + j * PGSIZE, kalloc(k)(j))
    {
      assert PageOn(p0, RoundUp(MaxEnd(ends[..k])) + j * PGSIZE, kalloc(k)(j));
    }
  }

  lemma StackOn(ends: seq<nat>, p0: map<nat, nat>, s0: nat, p1: map<nat, nat>, kalloc: nat -> nat -> nat)
    requires Extended(p0, p1, s0, s0 + PGSIZE, kalloc(|ends|)) && forall k: nat :: k < |ends| ==> OnFrames(ends, k, p0, kalloc)
    ensures ImageFrames(ends, p1, s0 + PGSIZE, kalloc)
  {
    hide InPages, OnFrames;
    assert PageOn(p1, s0 + 0 * PGSIZE, kalloc(|ends|)(0));
    forall k: nat | k < |ends| ensures OnFrames(ends, k, p1, kalloc) { FramesStay(ends, k, p0, p1, kalloc); }
  }

  /** The first i segments are in: they fit, their frames are there and the first one is not empty. */
  ghost predicate Loaded(ends: seq<nat>, i: nat, shmtop: nat, kalloc: nat -> nat -> nat)
    requires i <= |ends|
  {
    && MaxEnd(ends[..i]) <= shmtop && (i > 0 ==> MaxEnd(ends[..i]) > 0 && ends[0] > 0)
    && forall k: nat :: k < i ==> ends[k] <= shmtop && SegmentMemory(ends, kalloc, k)
  }

  lemma NothingLoaded(ends: seq<nat>, shmtop: nat, kalloc: nat -> nat -> nat)
    ensures Loaded(ends, 0, shmtop, kalloc) && MaxEnd(ends[..0]) == 0
  {}

  /** What allocuvm finds for segment i decides whether exec goes on, and with which size. */
  lemma LoadedMore(ends: seq<nat>, i: nat, shmtop: nat, kalloc: nat -> nat -> nat)
    requires i < |ends| && Loaded(ends, i, shmtop, kalloc)
    ensures var sz, bytes := MaxEnd(ends[..i]), ends[i] - RoundUp(MaxEnd(ends[..i]));
      && sz <= shmtop && (sz > ends[i] ==> Enough(kalloc(i), bytes))
      && MaxEnd(ends[..i + 1]) == (if sz < ends[i] then ends[i] else sz)
      && (ends[i] <= shmtop && Enough(kalloc(i), bytes) && MaxEnd(ends[..i + 1]) > 0 ==> Loaded(ends, i + 1, shmtop, kalloc))
      && (ends[i] > shmtop || !Enough(kalloc(i), bytes) || MaxEnd(ends[..i + 1]) == 0 ==>
            !(Loadable(ends, shmtop) && Memory(ends, kalloc)))
  {
    hide RoundUp, Enough;
    assert ends[..i + 1][..i] == ends[..i];
    var bytes := ends[i] - RoundUp(MaxEnd(ends[..i]));
    RoundedUp(MaxEnd(ends[..i]));
    if bytes <= 0 { NoneNeeded(kalloc(i), bytes); }
    if !Enough(kalloc(i), bytes) { assert !SegmentMemory(ends, kalloc, i); }
  }

  /** With every segment in, only the stack page is left to decide. */
  lemma LoadedAll(ends: seq<nat>, shmtop: nat, kalloc: nat -> nat -> nat)
    requires Loaded(ends, |ends|, shmtop, kalloc)
    ensures ends[..|ends|] == ends && MaxEnd(ends) <= shmtop
    ensures Loadable(ends, shmtop) <==> RoundUp(MaxEnd(ends)) + PGSIZE <= shmtop
    ensures Memory(ends, kalloc) <==> Enough(kalloc(|ends|), PGSIZE)
  {
    hide RoundUp, Enough, MaxEnd, SegmentMemory;
    assert ends[..|ends|] == ends;
  }

  lemma NoneNeeded(kalloc: nat -> nat, bytes: int)
    requires bytes <= 0
    ensures Enough(kalloc, bytes)
  {}

  lemma PagesUpTo(sz: nat)
    ensures forall a: nat :: InPages(a, 0, sz) ==> a % PGSIZE == 0 && a < RoundUp(sz)
  {}

  lemma SamePages(sz: nat)
    ensures forall a: nat :: InPages(a, 0, sz) <==> InPages(a, 0, RoundUp(sz))
    ensures RoundUp(RoundUp(sz)) == RoundUp(sz)
  {}

  lemma ImageGrown(p0: map<nat, nat>, s0: nat, p1: map<nat, nat>, s1: nat, kalloc: nat -> nat)
    requires (forall a: nat :: a in p0 <==> InPages(a, 0, s0)) && s0 <= s1 && Extended(p0, p1, RoundUp(s0), s1, kalloc)
    ensures forall a: nat :: a in p1 <==> InPages(a, 0, s1)
  {}

  /** fork's copy of an address space: new frames below sz, the same frames from shmtop up. */
  method Copyuvm(pgdir: map<nat, nat>, sz: nat, shmtop: nat, kvm: bool, kalloc: nat -> nat) returns (c: Copy)
    requires sz <= shmtop <= USERTOP && shmtop % PGSIZE == 0
    requires forall a: nat :: InPages(a, shmtop, USERTOP) ==> a in pgdir     // otherwise the kernel panics
    ensures c.NotPresent? <==> kvm && MeetsGap(pgdir, sz, kalloc)
    ensures c.NoMemory? <==> !kvm || (!MeetsGap(pgdir, sz, kalloc) && !Enough(kalloc, sz))
    ensures c.Copied? ==>
      && (forall a: nat :: a in c.pgdir <==> InPages(a, 0, sz) || InPages(a, shmtop, USERTOP))
      && (forall a: nat :: InPages(a, 0, sz) ==> a in pgdir)
      && (forall j: nat :: j * PGSIZE < sz ==> PageOn(c.pgdir, j * PGSIZE, kalloc(j)) && kalloc(j) != 0)
      && (forall a: nat :: InPages(a, shmtop, USERTOP) ==> c.pgdir[a] == pgdir[a])
  {
    hide InPages, PageOn, GapAt, MeetsGap, Enough, CopiedTo, SharedTo;
    if !kvm { return NoMemory; }
    var d: map<nat, nat> := map[];
    var i: nat, n: nat := 0, 0;
    CopiedToNone(pgdir, sz, kalloc);
    while i < sz
      invariant i == n * PGSIZE && CopiedTo(pgdir, d, sz, n, kalloc)
    {
      CopiedToMore(pgdir, d, sz, n, kalloc);
      if i !in pgdir { return NotPresent; }
      var mem := kalloc(n);
      if mem == 0 { return NoMemory; }
      d := Mappages(d, i, mem);
      i, n := i + PGSIZE, n + 1;
    }
    i := shmtop;
    CopiedToAll(pgdir, d, sz, shmtop, n, kalloc);
    while i < USERTOP
      invariant i % PGSIZE == 0 && shmtop <= i <= USERTOP && SharedTo(pgdir, d, sz, shmtop, i, kalloc)
    {
      SharedToMore(pgdir, d, sz, shmtop, i, kalloc);
      d := Mappages(d, i, pgdir[i]);
      i := i + PGSIZE;
    }
    SharedToAll(pgdir, d, sz, shmtop, i, kalloc);
    return Copied(d);
  }

  /** The first n pages are copied, each on its frame, and none was missing. */
  ghost predicate CopiedTo(pgdir: map<nat, nat>, d: map<nat, nat>, sz: nat, n: nat, kalloc: nat -> nat) {
    && (forall j: nat :: j < n ==> kalloc(j) != 0 && !GapAt(pgdir, sz, kalloc, j) && PageOn(d, j * PGSIZE, kalloc(j)))
    && (forall a: nat :: a in d <==> InPages(a, 0, Least(n * PGSIZE, sz)))
    && (forall a: nat :: a in d ==> a in pgdir)
  }

  /** All pages below the size are copied, and those of the shared range up to i are shared. */
  ghost predicate SharedTo(pgdir: map<nat, nat>, d: map<nat, nat>, sz: nat, shmtop: nat, i: nat, kalloc: nat -> nat) {
    && (forall a: nat :: a in d <==> InPages(a, 0, sz) || InPages(a, shmtop, i))
    && (forall a: nat :: InPages(a, 0, sz) ==> a in pgdir)
    && (forall j: nat :: j * PGSIZE < sz ==> PageOn(d, j * PGSIZE, kalloc(j)) && kalloc(j) != 0)
    && (forall a: nat :: InPages(a, shmtop, i) ==> a in pgdir && a in d && d[a] == pgdir[a])
    && Enough(kalloc, sz) && !MeetsGap(pgdir, sz, kalloc)
  }

  lemma CopiedToNone(pgdir: map<nat, nat>, sz: nat, kalloc: nat -> nat)
    ensures CopiedTo(pgdir, map[], sz, 0, kalloc)
  {
    NoPages(0, sz);
  }

  lemma CopiedToMore(pgdir: map<nat, nat>, d: map<nat, nat>, sz: nat, n: nat, kalloc: nat -> nat)
    requires CopiedTo(pgdir, d, sz, n, kalloc) && n * PGSIZE < sz
    ensures n * PGSIZE !in d
    ensures n * PGSIZE !in pgdir ==> MeetsGap(pgdir, sz, kalloc)
    ensures n * PGSIZE in pgdir && kalloc(n) == 0 ==> !MeetsGap(pgdir, sz, kalloc) && !Enough(kalloc, sz)
    ensures n * PGSIZE in pgdir && kalloc(n) != 0 ==> CopiedTo(pgdir, d[n * PGSIZE := kalloc(n)], sz, n + 1, kalloc)
  {
    hide InPages;
    OnePage(0, n * PGSIZE, sz);
    if n * PGSIZE !in pgdir {
      assert GapAt(pgdir, sz, kalloc, n);
    } else if kalloc(n) == 0 {
      forall j: nat ensures !GapAt(pgdir, sz, kalloc, j) {}
    } else {
      var e := d[n * PGSIZE := kalloc(n)];
      forall j: nat | j < n ensures PageOn(e, j * PGSIZE, kalloc(j)) { assert PageOn(d, j * PGSIZE, kalloc(j)); }
    }
  }

  lemma CopiedToAll(pgdir: map<nat, nat>, d: map<nat, nat>, sz: nat, shmtop: nat, n: nat, kalloc: nat -> nat)
    requires CopiedTo(pgdir, d, sz, n, kalloc) && n * PGSIZE >= sz && sz <= shmtop
    ensures SharedTo(pgdir, d, sz, shmtop, shmtop, kalloc)
  {
    hide InPages, PageOn;
    NoPages(shmtop, USERTOP);
    forall j: nat ensures !GapAt(pgdir, sz, kalloc, j) {}
    hide GapAt;
  }

  lemma SharedToMore(pgdir: map<nat, nat>, d: map<nat, nat>, sz: nat, shmtop: nat, i: nat, kalloc: nat -> nat)
    requires SharedTo(pgdir, d, sz, shmtop, i, kalloc) && sz <= shmtop <= i < USERTOP && i % PGSIZE == 0
    requires forall a: nat :: InPages(a, shmtop, USERTOP) ==> a in pgdir
    ensures i in pgdir && i !in d && SharedTo(pgdir, d[i := pgdir[i]], sz, shmtop, i + PGSIZE, kalloc)
  {
    hide InPages, Enough, MeetsGap;
    OnePage(shmtop, i, USERTOP);
    PagesBelow(sz, shmtop);
    OnePage(shmtop, i, i + PGSIZE);
    var e := d[i := pgdir[i]];
    forall j: nat | j * PGSIZE < sz ensures PageOn(e, j * PGSIZE, kalloc(j)) { assert PageOn(d, j * PGSIZE, kalloc(j)); }
  }

  lemma SharedToAll(pgdir: map<nat, nat>, d: map<nat, nat>, sz: nat, shmtop: nat, i: nat, kalloc: nat -> nat)
    requires SharedTo(pgdir, d, sz, shmtop, i, kalloc) && i == USERTOP
    ensures (forall a: nat :: a in d <==> InPages(a, 0, sz) || InPages(a, shmtop, USERTOP))
    ensures forall a: nat :: InPages(a, 0, sz) ==> a in pgdir
    ensures forall j: nat :: j * PGSIZE < sz ==> PageOn(d, j * PGSIZE, kalloc(j)) && kalloc(j) != 0
    ensures forall a: nat :: InPages(a, shmtop, USERTOP) ==> a in d && d[a] == pgdir[a]
    ensures Enough(kalloc, sz) && !MeetsGap(pgdir, sz, kalloc)
  {
    hide InPages, PageOn, Enough, MeetsGap;
  }

  lemma NoPages(lo: nat, hi: nat)
    ensures forall b: nat :: !InPages(b, lo, lo) && !InPages(b, lo, Least(lo, 0))
    ensures forall b: nat :: !InPages(b, 0, Least(0, hi))
  {}

  /** Shared pages are not below the size. */
  lemma PagesBelow(sz: nat, shmtop: nat)
    requires sz <= shmtop
    ensures forall a: nat, i: nat :: InPages(a, shmtop, i) ==> !InPages(a, 0, sz)
    ensures forall a: nat :: InPages(a, 0, sz) ==> a < shmtop
  {}

  lemma OnePage(lo: nat, a: nat, hi: nat)
    requires a % PGSIZE == 0 && lo <= a < hi
    ensures InPages(a, lo, hi) && !InPages(a, lo, a) && Least(a, hi) == a
    ensures forall b: nat :: InPages(b, lo, Least(a + PGSIZE, hi)) <==> InPages(b, lo, a) || b == a
  {
    forall b: nat ensures InPages(b, lo, Least(a + PGSIZE, hi)) <==> InPages(b, lo, a) || b == a { NextPage(lo, a, hi, b); }
  }

  // ---------- attaching ----------

  /** pgdir gained the pages of [base, top), page i from the top on frame i of the region. */
  ghost predicate Entered(m: map<nat, nat>, d: map<nat, nat>, top: nat, n: nat, paddr: seq<nat>, key: nat)
    requires key < REGIONS && n <= MAXPAGES && n * PGSIZE <= top && |paddr| == REGIONS * MAXPAGES
  {
    && (forall a: nat :: a in d <==> a in m || InPages(a, top - n * PGSIZE, top))
    && (forall a: nat :: a in m ==> d[a] == m[a])
    && forall i: nat :: i < n ==> top - (i + 1) * PGSIZE in d && d[top - (i + 1) * PGSIZE] == Frame(paddr, key, i)
  }

  /** A process that attaches a region below shmtop stays sound. */
  lemma AttachSound(p: Proc, pages: seq<nat>, paddr: seq<nat>, paddr': seq<nat>, key: nat, np: nat, d: map<nat, nat>)
    requires Sound(p, pages, paddr) && key < REGIONS && p.vaddr[key] == 0 && 1 <= np <= MAXPAGES
    requires |paddr'| == |paddr| && forall k: nat :: k < REGIONS && k != key ==> SameRow(paddr, paddr', k)
    requires p.sz + np * PGSIZE <= p.shmtop && np * PGSIZE < p.shmtop
    requires Entered(p.pgdir, d, p.shmtop, np, paddr', key)
    ensures Sound(p.(vaddr := p.vaddr[key := p.shmtop - np * PGSIZE], shmtop := p.shmtop - np * PGSIZE, pgdir := d),
                  pages[key := np], paddr')
  {
    hide Tiled, Shares, Entered, OnlyOwn;
    AttachTiles(p.vaddr, pages, p.shmtop, key, np);
    ShmtopIsHigh(p.vaddr, pages, p.shmtop);
    AttachShares(p, pages, paddr, paddr', key, np, d);
    AttachOwn(p, d, paddr', key, np);
  }

  lemma AttachShares(p: Proc, pages: seq<nat>, paddr: seq<nat>, paddr': seq<nat>, key: nat, np: nat, d: map<nat, nat>)
    requires Shares(p, pages, paddr) && key < REGIONS && p.vaddr[key] == 0 && 1 <= np <= MAXPAGES && np * PGSIZE < p.shmtop
    requires |paddr'| == |paddr| && forall k: nat :: k < REGIONS && k != key ==> SameRow(paddr, paddr', k)
    requires Entered(p.pgdir, d, p.shmtop, np, paddr', key)
    ensures Shares(Joined(p, key, np, d), pages[key := np], paddr')
    ensures |p.vaddr| == REGIONS && |paddr| == REGIONS * MAXPAGES
  {
    hide Frame, InPages, SameRow;
    var q, pages' := Joined(p, key, np, d), pages[key := np];
    forall k: nat, i: nat | k < REGIONS && q.vaddr[k] != 0 && i < pages'[k] <= MAXPAGES
      ensures PageVa(q.vaddr, pages', k, i) in d && d[PageVa(q.vaddr, pages', k, i)] == Frame(paddr', k, i)
    {
      if k == key {
        assert PageVa(q.vaddr, pages', k, i) == p.shmtop - (i + 1) * PGSIZE;
        var f := Frame(paddr', key, i);
        assert p.shmtop - (i + 1) * PGSIZE in d && d[p.shmtop - (i + 1) * PGSIZE] == f;
      } else {
        var a := PageVa(p.vaddr, pages, k, i);
        assert PageVa(q.vaddr, pages', k, i) == a && a in p.pgdir && p.pgdir[a] == Frame(paddr, k, i) && d[a] == p.pgdir[a];
        SameFrame(paddr, paddr', k, i);
      }
    }
  }

  lemma SameFrame(paddr: seq<nat>, paddr': seq<nat>, k: nat, i: nat)
    requires k < REGIONS && i < MAXPAGES && |paddr| == |paddr'| == REGIONS * MAXPAGES && SameRow(paddr, paddr', k)
    ensures Frame(paddr', k, i) == Frame(paddr, k, i)
  {}

  lemma AttachOwn(p: Proc, d: map<nat, nat>, paddr: seq<nat>, key: nat, np: nat)
    requires OnlyOwn(p) && key < REGIONS && key < |p.vaddr| && 1 <= np <= MAXPAGES && |paddr| == REGIONS * MAXPAGES
    requires p.sz + np * PGSIZE <= p.shmtop <= USERTOP && p.shmtop % PGSIZE == 0 && Entered(p.pgdir, d, p.shmtop, np, paddr, key)
    ensures OnlyOwn(Joined(p, key, np, d))
  {
    hide Frame;
  }

  /** The process after it attached the region. */
  function Joined(p: Proc, key: nat, np: nat, d: map<nat, nat>): Proc
    requires key < |p.vaddr| && np * PGSIZE <= p.shmtop
  {
    p.(vaddr := p.vaddr[key := p.shmtop - np * PGSIZE], shmtop := p.shmtop - np * PGSIZE, pgdir := d)
  }

  lemma JoinedGood(ps: seq<Proc>, count: seq<int>, pages: seq<nat>, paddr: seq<nat>, paddr': seq<nat>, leaked: seq<nat>,
                   cur: nat, key: nat, np: nat, d: map<nat, nat>)
    requires Good(ps, pages, paddr, NOONE) && Counted(ps, count, leaked) && Backed(count, pages, paddr)
    requires cur < |ps| && ps[cur].state == LIVE && key < REGIONS && ps[cur].vaddr[key] == 0 && |paddr'| == |paddr|
    requires 1 <= np <= MAXPAGES && ps[cur].sz + np * PGSIZE <= ps[cur].shmtop && np * PGSIZE < ps[cur].shmtop
    requires forall k: nat :: k < REGIONS && k != key ==> SameRow(paddr, paddr', k)
    requires count[key] != 0 ==> np == pages[key] && SameRow(paddr, paddr', key)
    requires Entered(ps[cur].pgdir, d, ps[cur].shmtop, np, paddr', key)
    ensures Good(ps[cur := Joined(ps[cur], key, np, d)], pages[key := np], paddr', NOONE)
  {
    hide Sound, Entered, SameRow, Backed, Good;
    BackedSizes(count, pages, paddr);
    GoodAt(ps, pages, paddr, NOONE, cur);
    GoodSizes(ps, pages, paddr, NOONE);
    if count[key] == 0 { ZeroIsFree(ps, key); }
    GoodBut(ps, pages, paddr, cur);
    GoodElsewhere(ps, pages, paddr, paddr', key, np, cur);
    AttachSound(ps[cur], pages, paddr, paddr', key, np, d);
    GoodWith(ps, pages[key := np], paddr', cur, Joined(ps[cur], key, np, d));
  }

  lemma BackedSizes(count: seq<int>, pages: seq<nat>, paddr: seq<nat>)
    requires Backed(count, pages, paddr)
    ensures |count| == |pages| == REGIONS && |paddr| == REGIONS * MAXPAGES
  {}

  lemma GoodSizes(ps: seq<Proc>, pages: seq<nat>, paddr: seq<nat>, skip: int)
    requires Good(ps, pages, paddr, skip)
    ensures forall i :: 0 <= i < |ps| ==> |ps[i].vaddr| == REGIONS
  {}

  lemma GoodBut(ps: seq<Proc>, pages: seq<nat>, paddr: seq<nat>, cur: nat)
    requires Good(ps, pages, paddr, NOONE)
    ensures Good(ps, pages, paddr, cur)
  {
    hide Sound;
  }

  lemma GoodWith(ps: seq<Proc>, pages: seq<nat>, paddr: seq<nat>, cur: nat, p: Proc)
    requires Good(ps, pages, paddr, cur) && cur < |ps| && |p.vaddr| == REGIONS && Sound(p, pages, paddr)
    ensures Good(ps[cur := p], pages, paddr, NOONE)
  {
    hide Sound;
  }

  lemma JoinedCounts(ps: seq<Proc>, count: seq<int>, pages: seq<nat>, paddr: seq<nat>, paddr': seq<nat>, leaked: seq<nat>,
                     cur: nat, key: nat, np: nat, d: map<nat, nat>)
    requires Counted(ps, count, leaked) && Backed(count, pages, paddr) && 1 <= np <= MAXPAGES
    requires cur < |ps| && ps[cur].state == LIVE && |ps[cur].vaddr| == REGIONS && key < REGIONS && ps[cur].vaddr[key] == 0
    requires np * PGSIZE < ps[cur].shmtop && |paddr'| == |paddr|
    requires forall k: nat :: k < REGIONS && k != key ==> SameRow(paddr, paddr', k)
    requires RowBacked(np, paddr', key)
    ensures Counted(ps[cur := Joined(ps[cur], key, np, d)], count[key := count[key] + 1], leaked)
    ensures Backed(count[key := count[key] + 1], pages[key := np], paddr')
  {
    CountedUpdate(ps, count, leaked, cur, Joined(ps[cur], key, np, d), count[key := count[key] + 1], leaked);
    BackedElsewhere(count, pages, paddr, paddr', key, count[key] + 1, np);
  }

  lemma BackedElsewhere(count: seq<int>, pages: seq<nat>, paddr: seq<nat>, paddr': seq<nat>, key: nat, c: int, np: nat)
    requires Backed(count, pages, paddr) && key < REGIONS && |paddr'| == |paddr|
    requires forall k: nat :: k < REGIONS && k != key ==> SameRow(paddr, paddr', k)
    requires c > 0 ==> 1 <= np <= MAXPAGES && RowBacked(np, paddr', key)
    ensures Backed(count[key := c], pages[key := np], paddr')
  {
    forall k: nat | k < REGIONS && k != key && count[k] > 0 ensures RowBacked(pages[k], paddr', k) {
      assert SameRow(paddr, paddr', k);
    }
  }

  /** What shmgetat does with a request for a region the process does not hold. */
  ghost predicate Refused(p: Proc, isNew: bool, np: int) {
    (isNew && !(0 < np <= MAXPAGES)) || p.shmtop - np * PGSIZE < p.sz
  }

  lemma EnteredMore(m: map<nat, nat>, d: map<nat, nat>, top: nat, n: nat, paddr: seq<nat>, paddr': seq<nat>, key: nat)
    requires key < REGIONS && n < MAXPAGES && (n + 1) * PGSIZE <= top && top % PGSIZE == 0
    requires |paddr| == |paddr'| == REGIONS * MAXPAGES && Entered(m, d, top, n, paddr, key)
    requires forall i: nat :: i < n ==> Frame(paddr', key, i) == Frame(paddr, key, i)
    requires top - (n + 1) * PGSIZE !in m
    ensures top - (n + 1) * PGSIZE !in d
    ensures Entered(m, d[top - (n + 1) * PGSIZE := Frame(paddr', key, n)], top, n + 1, paddr', key)
  {}

  lemma EnteredNone(pgdir: map<nat, nat>, top: nat, paddr: seq<nat>, key: nat)
    requires key < REGIONS && |paddr| == REGIONS * MAXPAGES
    ensures Entered(pgdir, pgdir, top, 0, paddr, key)
  {}

  lemma SameRows(paddr: seq<nat>)
    requires |paddr| == REGIONS * MAXPAGES
    ensures forall k: nat :: k < REGIONS ==> SameRow(paddr, paddr, k)
  {}

  lemma RowTrans(a: seq<nat>, b: seq<nat>, c: seq<nat>, k: nat)
    requires k < REGIONS && |a| == |b| == |c| == REGIONS * MAXPAGES && SameRow(a, b, k) && SameRow(b, c, k)
    ensures SameRow(a, c, k)
  {}

  lemma CountIsNat(ps: seq<Proc>, count: seq<int>, leaked: seq<nat>, k: nat)
    requires Counted(ps, count, leaked) && k < REGIONS
    ensures count[k] >= 0
  {}

  lemma Booted(ps: seq<Proc>, pages: seq<nat>, paddr: seq<nat>, count: seq<int>, leaked: seq<nat>)
    requires |ps| == NPROC && |pages| == |count| == |leaked| == REGIONS && |paddr| == REGIONS * MAXPAGES
    requires forall k :: 0 <= k < REGIONS ==> count[k] == leaked[k] == 0
    requires forall i :: 0 <= i < NPROC ==> ps[i].vaddr == seq(REGIONS, _ => 0)
    requires forall i :: 0 < i < NPROC ==> ps[i].state == UNUSED
    requires ps[0].state == LIVE && ps[0].sz == PGSIZE && ps[0].shmtop == USERTOP && ps[0].pgdir.Keys == {0}
    ensures Good(ps, pages, paddr, NOONE) && Counted(ps, count, leaked) && Backed(count, pages, paddr) && Whole(ps[0])
  {
    NoRegions(ps[0].vaddr, pages);
    forall k | 0 <= k < REGIONS ensures Attached(ps, k) == 0 { AttachedNone(ps, k); }
  }

  lemma GoodAt(ps: seq<Proc>, pages: seq<nat>, paddr: seq<nat>, skip: int, i: nat)
    requires Good(ps, pages, paddr, skip) && i < |ps| && i != skip && ps[i].state != UNUSED
    ensures Sound(ps[i], pages, paddr)
  {}

  /** Below a sound process's shmtop there are only its own pages. */
  lemma Roomy(p: Proc, pages: seq<nat>, paddr: seq<nat>, np: nat)
    requires Sound(p, pages, paddr) && p.sz + np * PGSIZE <= p.shmtop && np <= MAXPAGES
    ensures p.shmtop % PGSIZE == 0 && np * PGSIZE < p.shmtop && |p.vaddr| == REGIONS
    ensures forall a: nat :: InPages(a, p.shmtop - np * PGSIZE, p.shmtop) ==> a !in p.pgdir
  {
    ShmtopIsHigh(p.vaddr, pages, p.shmtop);
  }

  class Kernel {
    const count: array<int>       // shmem_count
    const pages: array<nat>       // shmem_pages
    const paddr: array<nat>       // shmem_paddr
    const procs: array<Proc>
    ghost var leaked: seq<nat>    // counts that failed forks never gave back

    ghost predicate Shape() {
      && count.Length == pages.Length == REGIONS && paddr.Length == REGIONS * MAXPAGES && procs.Length == NPROC
      && pages != paddr
    }

    ghost predicate Valid()
      reads this, count, pages, paddr, procs
    {
      && Shape() && Good(procs[..], pages[..], paddr[..], NOONE)
      && Counted(procs[..], count[..], leaked) && Backed(count[..], pages[..], paddr[..])
    }

    /** Boot: no regions, and the first process of one page in slot 0. */
    constructor (frame: nat)
      requires frame != 0
      ensures Valid() && fresh(count) && fresh(pages) && fresh(paddr) && fresh(procs)
      ensures leaked == seq(REGIONS, _ => 0) && procs[0] == Proc(LIVE, PGSIZE, USERTOP, seq(REGIONS, _ => 0), map[0 := frame])
      ensures count[..] == leaked && Whole(procs[0])
      ensures forall i :: 0 < i < NPROC ==> procs[i].state == UNUSED
    {
      hide Good, Counted, Backed, Whole;
      var none := [0, 0, 0, 0, 0, 0, 0, 0];
      var empty := Proc(UNUSED, 0, USERTOP, none, map[]);
      count := new int[REGIONS](_ => 0);
      pages := new nat[REGIONS](_ => 0);
      paddr := new nat[REGIONS * MAXPAGES](_ => 0);
      procs := new Proc[NPROC](_ => empty);
      leaked := seq(REGIONS, _ => 0);
      new;
      procs[0] := Proc(LIVE, PGSIZE, USERTOP, none, map[0 := frame]);
      Booted(procs[..], pages[..], paddr[..], count[..], leaked);
    }

    /** shmgetat's loop: enter the region's pages below top, taking frames first if it is new. */
    method MapRegion(pgdir: map<nat, nat>, key: nat, np: nat, isNew: bool, top: nat, kalloc: nat -> nat)
      returns (d: map<nat, nat>, vaddr: nat, panic: bool)
      requires Shape() && key < REGIONS && np <= MAXPAGES && np * PGSIZE <= top && top % PGSIZE == 0
      requires forall a: nat :: InPages(a, top - np * PGSIZE, top) ==> a !in pgdir
      modifies paddr
      ensures panic <==> isNew && !Enough(kalloc, np * PGSIZE)
      ensures forall k: nat :: k < REGIONS && k != key ==> SameRow(old(paddr[..]), paddr[..], k)
      ensures !isNew ==> SameRow(old(paddr[..]), paddr[..], key)
      ensures !panic ==> vaddr == top - np * PGSIZE && Entered(pgdir, d, top, np, paddr[..], key)
      ensures !panic && isNew ==> forall i: nat :: i < np ==> Frame(paddr[..], key, i) == kalloc(i) != 0
    {
      hide Entered, SameRow, Frame;
      d, vaddr, panic := pgdir, top, false;
      var i: nat := 0;
      SameRows(paddr[..]);
      EnteredNone(pgdir, top, paddr[..], key);
      while i < np
        invariant i <= np && vaddr == top - i * PGSIZE && !panic
        invariant forall k: nat :: k < REGIONS && k != key ==> SameRow(old(paddr[..]), paddr[..], k)
        invariant !isNew ==> paddr[..] == old(paddr[..])
        invariant isNew ==> forall j: nat :: j < i ==> Frame(paddr[..], key, j) == kalloc(j) != 0
        invariant Entered(pgdir, d, top, i, paddr[..], key)
      {
        ghost var before := paddr[..];
        if isNew {
          var f := kalloc(i);
          SetFrame(key, i, f);
          forall k: nat | k < REGIONS && k != key ensures SameRow(old(paddr[..]), paddr[..], k) {
            RowTrans(old(paddr[..]), before, paddr[..], k);
          }
          if f == 0 { panic := true; return; }
        }
        vaddr := vaddr - PGSIZE;
        assert InPages(vaddr, top - np * PGSIZE, top);
        EnteredMore(pgdir, d, top, i, before, paddr[..], key);
        d := Mappages(d, vaddr, GetFrame(key, i));
        i := i + 1;
      }
    }

    function GetFrame(key: nat, i: nat): (f: nat)
      requires Shape() && key < REGIONS && i < MAXPAGES
      reads paddr
      ensures f == Frame(paddr[..], key, i)
    {
      paddr[key * MAXPAGES + i]
    }

    /** shmem_paddr[key*SHMEM_MAX_PAGES+i] = f */
    method SetFrame(key: nat, i: nat, f: nat)
      requires Shape() && key < REGIONS && i < MAXPAGES
      modifies paddr
      ensures forall k: nat :: k < REGIONS && k != key ==> SameRow(old(paddr[..]), paddr[..], k)
      ensures Frame(paddr[..], key, i) == f
      ensures forall j: nat :: j < MAXPAGES && j != i ==> Frame(paddr[..], key, j) == Frame(old(paddr[..]), key, j)
    {
      paddr[key * MAXPAGES + i] := f;
    }

    /** Nothing changed. */
    twostate predicate Same()
      reads this, count, pages, paddr, procs
    {
      && procs[..] == old(procs[..]) && count[..] == old(count[..]) && pages[..] == old(pages[..])
      && paddr[..] == old(paddr[..]) && leaked == old(leaked)
    }

    method ShmRefcount(key: nat) returns (r: int)
      requires Valid()
      ensures r == if key >= REGIONS then -1 else count[key]
      ensures key < REGIONS ==> r == Attached(procs[..], key) + leaked[key]
    {
      if key >= REGIONS { return -1; }
      return count[key];
    }

    /** The second half of shmgetat: the request is in order. */
    method Attach(cur: nat, key: nat, np: nat, isNew: bool, kalloc: nat -> nat) returns (o: Outcome)
      requires Valid() && cur < NPROC && procs[cur].state == LIVE && key < REGIONS && procs[cur].vaddr[key] == 0
      requires isNew == (count[key] == 0) && 1 <= np <= MAXPAGES && (!isNew ==> np == pages[key])
      requires procs[cur].sz + np * PGSIZE <= procs[cur].shmtop
      modifies count, pages, paddr, procs
      ensures o.Panic? <==> isNew && !Enough(kalloc, np * PGSIZE)
      ensures o.Ret? ==> Valid() && o == Ret(old(procs[cur].shmtop) - np * PGSIZE)
      ensures o.Ret? ==> HasJoined(old(procs[..]), old(count[..]), old(pages[..]), old(paddr[..]),
                                   procs[..], count[..], pages[..], paddr[..], cur, key, np, kalloc)
    {
      hide Good, Sound, Counted, Backed, RowBacked, Entered, SameRow, Frame;
      var p := procs[cur];
      ghost var ps, cs, gs, fs := procs[..], count[..], pages[..], paddr[..];
      GoodAt(ps, gs, fs, NOONE, cur);
      CountIsNat(ps, cs, leaked, key);
      Roomy(p, gs, fs, np);
      var d, vaddr, panic := MapRegion(p.pgdir, key, np, isNew, p.shmtop, kalloc);
      if panic { return Panic; }
      NewRow(np, cs, gs, fs, paddr[..], key);
      JoinedGood(ps, cs, gs, fs, paddr[..], leaked, cur, key, np, d);
      JoinedCounts(ps, cs, gs, fs, paddr[..], leaked, cur, key, np, d);
      count[key] := count[key] + 1;
      pages[key] := np;
      var p' := p.(vaddr := p.vaddr[key := vaddr], shmtop := p.shmtop - np * PGSIZE, pgdir := d);
      procs[cur] := p';
      assert p' == Joined(p, key, np, d);
      assert procs[..] == ps[cur := p'] && count[..] == cs[key := cs[key] + 1] && pages[..] == gs[key := np];
      return Ret(vaddr);
    }

    /** The system call has already refused a negative key. */
    method Shmgetat(cur: nat, key: nat, numPages: int, kalloc: nat -> nat) returns (o: Outcome)
      requires Valid() && cur < NPROC && procs[cur].state == LIVE
      modifies count, pages, paddr, procs
      ensures o.Panic? <==>
        && key < REGIONS && old(procs[cur].vaddr[key]) == 0 && old(count[key]) == 0
        && !Refused(old(procs[cur]), true, numPages) && !Enough(kalloc, numPages * PGSIZE)
      ensures o.Ret? ==> Valid() && leaked == old(leaked)
      ensures key >= REGIONS ==> o == Ret(-1) && Same()
      ensures key < REGIONS && old(procs[cur].vaddr[key]) != 0 ==> o == Ret(old(procs[cur].vaddr[key])) && Same()
      ensures key < REGIONS && old(procs[cur].vaddr[key]) == 0 ==>
        var isNew := old(count[key]) == 0; var np: int := if isNew then numPages else old(pages[key]);
        && (Refused(old(procs[cur]), isNew, np) ==> o == Ret(-1) && Same())
        && (!Refused(old(procs[cur]), isNew, np) && o.Ret? ==>
              && o == Ret(old(procs[cur].shmtop) - np * PGSIZE) && 1 <= np <= MAXPAGES
              && HasJoined(old(procs[..]), old(count[..]), old(pages[..]), old(paddr[..]),
                           procs[..], count[..], pages[..], paddr[..], cur, key, np, kalloc))
      ensures key < REGIONS && old(procs[cur].vaddr[key]) == 0 ==>
        var p, isNew := old(procs[cur]), old(count[key]) == 0; var np: int := if isNew then numPages else old(pages[key]);
        o == Ret(-1) <==> (isNew && !(0 < np <= 4)) || p.shmtop - np * PGSIZE < p.sz
    {
      if key >= REGIONS { return Ret(-1); }
      var p := procs[cur];
      if p.vaddr[key] != 0 { return Ret(p.vaddr[key]); }
      var isNew := count[key] == 0;
      var np: int := numPages;
      assert Attached(procs[..], key) + leaked[key] == count[key] && procs[..][cur] == p;
      if isNew {
        if !(0 < np <= MAXPAGES) { return Ret(-1); }
      } else {
        np := pages[key];
      }
      ShmtopIsHigh(p.vaddr, pages[..], p.shmtop);
      hide Good, Counted, Backed, HasJoined, Enough;
      if p.shmtop - np * PGSIZE < p.sz { return Ret(-1); }
      o := Attach(cur, key, np, isNew, kalloc);
    }

    /** shm_increase_count */
    method ShmIncreaseCount(key: nat) returns (r: int)
      requires Shape()
      modifies count
      ensures key < REGIONS ==> r == 1 && count[..] == old(count[..])[key := old(count[key]) + 1]
      ensures key >= REGIONS ==> r == -1 && count[..] == old(count[..])
    {
      if key >= REGIONS { return -1; }
      count[key] := count[key] + 1;
      return 1;
    }

    /** shm_decrease_count: the last one out frees the region's frames. */
    method ShmDecreaseCount(key: nat) returns (r: int)
      requires Shape() && (key < REGIONS ==> pages[key] <= MAXPAGES)
      modifies count, paddr
      ensures key >= REGIONS ==> r == -1 && count[..] == old(count[..]) && paddr[..] == old(paddr[..])
      ensures key < REGIONS ==> r == 1 && count[..] == old(count[..])[key := old(count[key]) - 1]
      ensures forall k: nat :: k < REGIONS && k != key ==> SameRow(old(paddr[..]), paddr[..], k)
      ensures key < REGIONS && old(count[key]) != 1 ==> paddr[..] == old(paddr[..])
      ensures key < REGIONS && old(count[key]) == 1 ==> forall i: nat :: i < pages[key] ==> Frame(paddr[..], key, i) == 0
    {
      hide SameRow, Frame;
      SameRows(paddr[..]);
      if key >= REGIONS { return -1; }
      count[key] := count[key] - 1;
      if count[key] == 0 {
        var i := 0;
        while i < pages[key]
          invariant i <= pages[key] && count[..] == old(count[..])[key := old(count[key]) - 1]
          invariant forall k: nat :: k < REGIONS && k != key ==> SameRow(old(paddr[..]), paddr[..], k)
          invariant forall j: nat :: j < i ==> Frame(paddr[..], key, j) == 0
        {
          ghost var before := paddr[..];
          SetFrame(key, i, 0);
          forall k: nat | k < REGIONS && k != key ensures SameRow(old(paddr[..]), paddr[..], k) {
            RowTrans(old(paddr[..]), before, paddr[..], k);
          }
          i := i + 1;
        }
      }
      return 1;
    }

    /** growproc on the current process */
    method Growproc(cur: nat, n: int, kalloc: nat -> nat) returns (r: int)
      requires Valid() && cur < NPROC && procs[cur].state == LIVE && -INT <= n < INT
      modifies procs
      ensures Valid() && procs[..] == old(procs[..])[cur := procs[cur]]
      ensures Resized(old(procs[cur]), procs[cur], n, r, kalloc)
    {
      ghost var ps := procs[..];
      var p := procs[cur];
      assert ps[cur] == p;
      hide Sound, Resized, Counted, Backed;
      var q;
      q, r := Resize(p, n, pages[..], paddr[..], kalloc);
      ResizedValid(ps, pages[..], paddr[..], count[..], leaked, cur, q);
      procs[cur] := q;
      assert procs[..] == ps[cur := q];
    }

    /** The first unused slot, NPROC if there is none. */
    method FreeSlot() returns (j: nat)
      requires Shape()
      ensures j <= NPROC && (j < NPROC ==> procs[j].state == UNUSED)
      ensures forall i :: 0 <= i < j ==> procs[i].state != UNUSED
    {
      j := 0;
      while j < NPROC && procs[j].state != UNUSED
        invariant j <= NPROC && forall i :: 0 <= i < j ==> procs[i].state != UNUSED
      {
        j := j + 1;
      }
    }

    /** fork's loop: the child takes over the parent's regions and counts itself in. */
    method Inherit(cur: nat, j: nat)
      requires Shape() && cur < NPROC && j < NPROC && cur != j && |procs[cur].vaddr| == REGIONS
      requires procs[j].state == EMBRYO && procs[j].vaddr == seq(REGIONS, _ => 0)
      requires Counted(procs[..], count[..], leaked) && Backed(count[..], pages[..], paddr[..])
      requires forall k :: 0 <= k < REGIONS && procs[cur].vaddr[k] != 0 ==> count[k] > 0
      modifies count, procs
      ensures procs[..] == old(procs[..])[j := old(procs[j]).(vaddr := procs[cur].vaddr)]
      ensures Counted(procs[..], count[..], leaked) && Backed(count[..], pages[..], paddr[..])
      ensures forall k :: 0 <= k < REGIONS ==> count[k] == old(count[k]) + if procs[cur].vaddr[k] != 0 then 1 else 0
    {
      assert |leaked| == REGIONS;
      hide Counted, Attached;
      var v := procs[cur].vaddr;
      ghost var ps := procs[..];
      var i := 0;
      while i < REGIONS
        invariant i <= REGIONS && |procs[j].vaddr| == REGIONS
        invariant procs[..] == ps[j := ps[j].(vaddr := procs[j].vaddr)]
        invariant forall k :: 0 <= k < REGIONS ==> procs[j].vaddr[k] == if k < i then v[k] else 0
        invariant Counted(procs[..], count[..], leaked)
        invariant forall k :: 0 <= k < REGIONS ==> count[k] == old(count[k]) + if k < i && v[k] != 0 then 1 else 0
      {
        ghost var before, cs := procs[..], count[..];
        procs[j] := procs[j].(vaddr := procs[j].vaddr[i := v[i]]);
        if v[i] != 0 {
          var r := ShmIncreaseCount(i);
        }
        CountedUpdate(before, cs, leaked, j, procs[j], count[..], leaked);
        assert procs[..] == before[j := procs[j]];
        i := i + 1;
      }
      assert procs[j].vaddr == v;
    }

    /** allocproc: an unused slot becomes an embryo without regions. */
    method Allocproc(stack: bool) returns (j: int)
      requires Valid()
      modifies procs
      ensures j == NOONE <==> !stack || forall i :: 0 <= i < NPROC ==> old(procs[i].state) != UNUSED
      ensures j == NOONE ==> procs[..] == old(procs[..])
      ensures j != NOONE ==> 0 <= j < NPROC && old(procs[j].state) == UNUSED && procs[..] == old(procs[..])[j := procs[j]]
      ensures j != NOONE ==> procs[j].state == EMBRYO && procs[j].vaddr == seq(REGIONS, _ => 0) && procs[j].shmtop == USERTOP
      ensures j != NOONE ==> Good(procs[..], pages[..], paddr[..], j) && Counted(procs[..], count[..], leaked)
    {
      ghost var ps := procs[..];
      j := FreeSlot();
      if j == NPROC { return NOONE; }
      procs[j] := procs[j].(state := EMBRYO);
      if !stack {
        procs[j] := procs[j].(state := UNUSED);
        assert procs[..] == ps;
        return NOONE;
      }
      hide Good, Counted;
      var none := seq(REGIONS, _ => 0);
      procs[j] := procs[j].(vaddr := none, shmtop := USERTOP);
      Blank(ps, pages[..], paddr[..], count[..], leaked, j, procs[j]);
      assert procs[..] == ps[j := procs[j]];
    }

    /** fork after allocproc: regions, then memory. */
    method Populate(cur: nat, j: nat, kvm: bool, kalloc: nat -> nat) returns (c: Copy)
      requires Shape() && cur < NPROC && j < NPROC && cur != j && procs[cur].state == LIVE
      requires Sound(procs[cur], pages[..], paddr[..]) && Good(procs[..], pages[..], paddr[..], j)
      requires Counted(procs[..], count[..], leaked) && Backed(count[..], pages[..], paddr[..])
      requires procs[j].state == EMBRYO && procs[j].vaddr == seq(REGIONS, _ => 0)
      modifies this`leaked, count, procs
      ensures procs[..] == old(procs[..])[j := procs[j]]
      ensures c.NotPresent? <==> kvm && MeetsGap(procs[cur].pgdir, procs[cur].sz, kalloc)
      ensures c.NoMemory? <==> !kvm || (!MeetsGap(procs[cur].pgdir, procs[cur].sz, kalloc) && !Enough(kalloc, procs[cur].sz))
      ensures c.NoMemory? ==> Valid() && procs[j].state == UNUSED
      ensures c.NoMemory? ==> Lapsed(old(leaked), leaked, procs[cur])
      ensures c.Copied? ==> Valid() && leaked == old(leaked) && IsCopy(procs[cur], procs[j], kalloc)
      ensures c.Copied? ==> forall k :: 0 <= k < REGIONS ==> count[k] == old(count[k]) + One(procs[cur], k)
    {
      hide Good, Sound, Counted, Backed, Whole, IsCopy, Losing, Enough, MeetsGap;
      ghost var ps, cs, p := procs[..], count[..], procs[cur];
      CopyReady(p, pages[..], paddr[..]);
      HeldCounts(ps, cs, leaked, cur);
      Inherit(cur, j);
      ghost var mid := procs[..];
      c := Copyuvm(procs[cur].pgdir, procs[cur].sz, procs[cur].shmtop, kvm, kalloc);
      match c {
        case NotPresent =>
        case NoMemory =>
          procs[j] := procs[j].(shmtop := procs[cur].shmtop, state := UNUSED);
          Lost(ps, mid, pages[..], paddr[..], count[..], leaked, j, procs[j]);
          SameOnes(mid[j], p);
          leaked := Losing(leaked, mid[j]);
        case Copied(d) =>
          procs[j] := procs[j].(shmtop := procs[cur].shmtop, pgdir := d, sz := procs[cur].sz, state := LIVE);
          Born(ps, pages[..], paddr[..], count[..], leaked, cur, j, procs[j], kalloc);
      }
      assert procs[..] == ps[j := procs[j]];
    }

    /** fork. stack, kvm and kalloc say which allocations succeed; the value is the child's slot or -1. It
        panics exactly on a page missing below the size, and the parent's counts are lost exactly when
        memory runs out after its child was counted in. */
    method Fork(cur: nat, stack: bool, kvm: bool, kalloc: nat -> nat) returns (o: Outcome)
      requires Valid() && cur < NPROC && procs[cur].state == LIVE
      modifies this`leaked, count, procs
      ensures var p := old(procs[cur]); var starts := stack && exists i :: 0 <= i < NPROC && old(procs[i].state) == UNUSED;
              && (o.Panic? <==> starts && kvm && MeetsGap(p.pgdir, p.sz, kalloc))
              && (o == Ret(-1) <==> !starts || !kvm || (!MeetsGap(p.pgdir, p.sz, kalloc) && !Enough(kalloc, p.sz)))
              && (o.Ret? ==> if starts && (!kvm || !Enough(kalloc, p.sz)) then Lapsed(old(leaked), leaked, p) else leaked == old(leaked))
      ensures o.Ret? ==> Valid()
      ensures o.Ret? && o.value != -1 ==>
        && 0 <= o.value < NPROC && old(procs[o.value].state) == UNUSED
        && procs[..] == old(procs[..])[o.value := procs[o.value]] && IsCopy(old(procs[cur]), procs[o.value], kalloc)
        && forall k :: 0 <= k < REGIONS ==> count[k] == old(count[k]) + One(old(procs[cur]), k)
      ensures o == Ret(-1) ==> forall i :: 0 <= i < NPROC ==>
        procs[i] == old(procs[i]) || (old(procs[i].state) == UNUSED && procs[i].state == UNUSED)
    {
      hide Good, Sound, Counted, Backed, Whole, IsCopy, MeetsGap, Enough;
      GoodAt(procs[..], pages[..], paddr[..], NOONE, cur);
      var j := Allocproc(stack);
      if j == NOONE { return Ret(-1); }
      var c := Populate(cur, j, kvm, kalloc);
      return match c case NotPresent => Panic case NoMemory => Ret(-1) case Copied(_) => Ret(j);
    }

    /** exit keeps the regions; the slot waits for its parent. */
    method Exit(cur: nat)
      requires Valid() && cur < NPROC && procs[cur].state == LIVE
      modifies procs
      ensures Valid() && procs[..] == old(procs[..])[cur := old(procs[cur]).(state := ZOMBIE)]
    {
      ghost var ps := procs[..];
      procs[cur] := procs[cur].(state := ZOMBIE);
      assert procs[..] == ps[cur := procs[cur]];
      Restate(ps, pages[..], paddr[..], count[..], leaked, cur, ZOMBIE);
    }

    /** wait frees the slot of a zombie child and counts it out of its regions. */
    method Reap(j: nat)
      requires Valid() && j < NPROC && procs[j].state == ZOMBIE
      modifies count, paddr, procs
      ensures Valid() && leaked == old(leaked)
      ensures procs[..] == old(procs[..])[j := old(procs[j]).(state := UNUSED)]
      ensures RowsKept(count[..], old(paddr[..]), paddr[..])
      ensures forall k :: 0 <= k < REGIONS ==> count[k] == old(count[k]) - One(old(procs[j]), k)
    {
      hide Good, Counted, Backed, Attached, SameRow, CountedOut, Owing, One, RowsKept;
      ghost var ps, cs0, fs0 := procs[..], count[..], paddr[..];
      var v := procs[j].vaddr;
      procs[j] := procs[j].(state := UNUSED);
      assert procs[..] == ps[j := procs[j]];
      CountsSize(ps, count[..], leaked);
      ghost var owed := Losing(leaked, ps[j]);
      ReapStart(ps, pages[..], paddr[..], count[..], leaked, j, procs[j], owed);
      NoneOut(count[..], v);
      RowsStart(count[..], fs0);
      var i := 0;
      while i < REGIONS
        invariant i <= REGIONS && procs[..] == ps[j := procs[j]] && procs[j] == ps[j].(state := UNUSED)
        invariant Owing(leaked, owed, v, i) && CountedOut(cs0, count[..], v, i) && RowsKept(count[..], fs0, paddr[..])
        invariant Good(procs[..], pages[..], paddr[..], NOONE)
        invariant Counted(procs[..], count[..], owed) && Backed(count[..], pages[..], paddr[..])
      {
        ghost var cs, fs := count[..], paddr[..];
        OneOut(cs0, cs, v, i);
        if v[i] != 0 {
          OwesOne(procs[..], cs, pages[..], fs, leaked, owed, v, i);
          var r := ShmDecreaseCount(i);
          ReapStep(procs[..], cs, pages[..], fs, paddr[..], leaked, owed, v, i, count[..]);
          RowsStep(cs, count[..], fs0, fs, paddr[..], i);
        } else {
          OwesNothing(leaked, owed, v, i);
        }
        owed := Repaid(leaked, owed, v, i);
        i := i + 1;
      }
      AllOut(cs0, count[..], v, ps[j]);
      NothingOwed(leaked, owed, v);
    }

    /** exec's commit loop: every region is counted out and forgotten. */
    method DropRegions(cur: nat)
      requires Valid() && cur < NPROC && procs[cur].state == LIVE
      modifies count, paddr, procs
      ensures procs[..] == old(procs[..])[cur := procs[cur]] && procs[cur].state == LIVE
      ensures procs[cur].vaddr == seq(REGIONS, _ => 0) && procs[cur].shmtop == USERTOP
      ensures Good(procs[..], pages[..], paddr[..], cur)
      ensures Counted(procs[..], count[..], leaked) && Backed(count[..], pages[..], paddr[..])
      ensures RowsKept(count[..], old(paddr[..]), paddr[..])
      ensures forall k :: 0 <= k < REGIONS ==> count[k] == old(count[k]) - One(old(procs[cur]), k)
    {
      hide Good, Counted, Backed, Attached, SameRow, CountedOut, Forgotten, One, RowsKept;
      ghost var ps, cs0, fs0 := procs[..], count[..], paddr[..];
      var v := procs[cur].vaddr;
      procs[cur] := procs[cur].(shmtop := USERTOP);
      assert procs[..] == ps[cur := procs[cur]];
      DropStart(ps, pages[..], paddr[..], count[..], leaked, cur, procs[cur]);
      NoneOut(count[..], v);
      RowsStart(count[..], fs0);
      var i := 0;
      while i < REGIONS
        invariant i <= REGIONS && procs[..] == ps[cur := procs[cur]]
        invariant procs[cur].state == LIVE && procs[cur].shmtop == USERTOP && |procs[cur].vaddr| == REGIONS
        invariant Forgotten(procs[cur].vaddr, v, i) && CountedOut(cs0, count[..], v, i) && RowsKept(count[..], fs0, paddr[..])
        invariant Good(procs[..], pages[..], paddr[..], cur)
        invariant Counted(procs[..], count[..], leaked) && Backed(count[..], pages[..], paddr[..])
      {
        ghost var before, cs, fs := procs[..], count[..], paddr[..];
        OneOut(cs0, cs, v, i);
        OneForgotten(procs[cur].vaddr, v, i);
        if v[i] != 0 {
          HeldIsUsed(before, cs, pages[..], fs, leaked, cur, i);
          var r := ShmDecreaseCount(i);
          RowsStep(cs, count[..], fs0, fs, paddr[..], i);
        }
        procs[cur] := procs[cur].(vaddr := procs[cur].vaddr[i := 0]);
        assert procs[..] == before[cur := procs[cur]];
        DropStep(before, pages[..], cs, fs, count[..], paddr[..], leaked, cur, i, procs[cur]);
        i := i + 1;
      }
      AllOut(cs0, count[..], v, ps[cur]);
      AllForgotten(procs[cur].vaddr, v);
    }

    /** exec; header and loads stand for the checks and reads of the file, kvm and kalloc for allocations. */
    method Exec(cur: nat, header: bool, ends: seq<nat>, loads: bool, kvm: bool, kalloc: nat -> nat -> nat) returns (r: int)
      requires Valid() && cur < NPROC && procs[cur].state == LIVE
      modifies count, paddr, procs
      ensures Valid() && leaked == old(leaked) && (r == 0 || r == -1)
      ensures r == -1 ==> procs[..] == old(procs[..]) && count[..] == old(count[..]) && paddr[..] == old(paddr[..])
      ensures r == 0 <==> header && loads && kvm && Loadable(ends, old(procs[cur].shmtop)) && Memory(ends, kalloc)
      ensures r == 0 ==> procs[..] == old(procs[..])[cur := procs[cur]] && Whole(procs[cur])
      ensures r == 0 ==> procs[cur].sz == RoundUp(MaxEnd(ends)) + PGSIZE && procs[cur].shmtop == USERTOP
      ensures r == 0 ==> ImageFrames(ends, procs[cur].pgdir, procs[cur].sz, kalloc)
      ensures r == 0 ==> forall a: nat :: a in procs[cur].pgdir <==> InPages(a, 0, procs[cur].sz)
      ensures r == 0 ==> forall k :: 0 <= k < REGIONS ==> One(procs[cur], k) == 0
      ensures r == 0 ==> RowsKept(count[..], old(paddr[..]), paddr[..])
      ensures r == 0 ==> forall k :: 0 <= k < REGIONS ==> count[k] == old(count[k]) - One(old(procs[cur]), k)
    {
      if !header || !kvm { return -1; }
      ghost var ps := procs[..];
      assert ps[cur] == procs[cur];
      ShmtopIsHigh(procs[cur].vaddr, pages[..], procs[cur].shmtop);
      hide Good, Sound, Counted, Backed, Whole, ImageFrames, InPages, RowsKept;
      var ok, pgdir, sz := LoadImage(ends, procs[cur].shmtop, kalloc);
      if !ok || !loads { return -1; }
      DropRegions(cur);
      ghost var mid := procs[..];
      procs[cur] := procs[cur].(pgdir := pgdir, sz := sz);
      Replaced(mid, pages[..], paddr[..], count[..], leaked, cur, procs[cur]);
      assert procs[..] == mid[cur := procs[cur]];
      return 0;
    }
  }

  lemma CountsSize(ps: seq<Proc>, count: seq<int>, leaked: seq<nat>)
    requires Counted(ps, count, leaked)
    ensures |count| == |leaked| == REGIONS
  {}

  /** The frames of every region still in use are as before. */
  ghost predicate RowsKept(count: seq<int>, paddr: seq<nat>, paddr': seq<nat>) {
    && |count| == REGIONS && |paddr| == |paddr'| == REGIONS * MAXPAGES
    && forall k: nat :: k < REGIONS && count[k] > 0 ==> SameRow(paddr, paddr', k)
  }

  lemma RowsStart(count: seq<int>, paddr: seq<nat>)
    requires |count| == REGIONS && |paddr| == REGIONS * MAXPAGES
    ensures RowsKept(count, paddr, paddr)
  {}

  lemma RowsStep(count: seq<int>, count': seq<int>, p0: seq<nat>, p1: seq<nat>, p2: seq<nat>, i: nat)
    requires RowsKept(count, p0, p1) && i < REGIONS && count[i] > 0 && count' == count[i := count[i] - 1]
    requires |p2| == REGIONS * MAXPAGES && (forall k: nat :: k < REGIONS && k != i ==> SameRow(p1, p2, k))
    requires count[i] != 1 ==> p2 == p1
    ensures RowsKept(count', p0, p2)
  {
    hide SameRow;
    forall k: nat | k < REGIONS && count'[k] > 0 ensures SameRow(p0, p2, k) {
      if k == i { SameRows(p1); }
      RowTrans(p0, p1, p2, k);
    }
  }

  /** The counts after the first i regions of v were counted out. */
  ghost predicate CountedOut(c0: seq<int>, c: seq<int>, v: seq<nat>, i: nat) {
    && |c0| == |c| == |v| == REGIONS
    && forall k :: 0 <= k < REGIONS ==> c[k] == c0[k] - if k < i && v[k] != 0 then 1 else 0
  }

  lemma NoneOut(c: seq<int>, v: seq<nat>)
    requires |c| == |v| == REGIONS
    ensures CountedOut(c, c, v, 0)
  {}

  lemma OneOut(c0: seq<int>, c: seq<int>, v: seq<nat>, i: nat)
    requires CountedOut(c0, c, v, i) && i < REGIONS
    ensures |c| == |v| == REGIONS && CountedOut(c0, if v[i] != 0 then c[i := c[i] - 1] else c, v, i + 1)
  {}

  lemma AllOut(c0: seq<int>, c: seq<int>, v: seq<nat>, p: Proc)
    requires CountedOut(c0, c, v, REGIONS) && p.vaddr == v && p.state != UNUSED
    ensures |c| == REGIONS && forall k :: 0 <= k < REGIONS ==> c[k] == c0[k] - One(p, k)
  {}

  /** v with its first i entries cleared. */
  ghost predicate Forgotten(w: seq<nat>, v: seq<nat>, i: nat) {
    |w| == |v| == REGIONS && forall k :: 0 <= k < REGIONS ==> w[k] == if k < i then 0 else v[k]
  }

  lemma OneForgotten(w: seq<nat>, v: seq<nat>, i: nat)
    requires Forgotten(w, v, i) && i < REGIONS
    ensures |w| == |v| == REGIONS && w[i] == v[i] && Forgotten(w[i := 0], v, i + 1)
  {}

  lemma AllForgotten(w: seq<nat>, v: seq<nat>)
    requires Forgotten(w, v, REGIONS)
    ensures w == seq(REGIONS, _ => 0)
  {}

  lemma DropStart(ps: seq<Proc>, pages: seq<nat>, paddr: seq<nat>, count: seq<int>, leaked: seq<nat>, cur: nat, p: Proc)
    requires Good(ps, pages, paddr, NOONE) && Counted(ps, count, leaked) && cur < |ps| && p == ps[cur].(shmtop := p.shmtop)
    ensures |p.vaddr| == |count| == REGIONS && Forgotten(p.vaddr, p.vaddr, 0)
    ensures Good(ps[cur := p], pages, paddr, cur) && Counted(ps[cur := p], count, leaked)
  {
    assert |ps[cur].vaddr| == REGIONS;
    CountedUpdate(ps, count, leaked, cur, p, count, leaked);
    hide Sound;
  }

  /** A region that a process holds is in use. */
  lemma HeldIsUsed(ps: seq<Proc>, count: seq<int>, pages: seq<nat>, paddr: seq<nat>, leaked: seq<nat>, cur: nat, i: nat)
    requires Counted(ps, count, leaked) && Backed(count, pages, paddr) && cur < |ps| && ps[cur].state != UNUSED
    requires |ps[cur].vaddr| == REGIONS && i < REGIONS && ps[cur].vaddr[i] != 0
    ensures count[i] > 0 && 1 <= pages[i] <= MAXPAGES
  {
    HeldCounts(ps, count, leaked, cur);
    InUse(count, pages, paddr, i);
  }

  /** One region counted out and forgotten. */
  lemma DropStep(ps: seq<Proc>, pages: seq<nat>, count: seq<int>, paddr: seq<nat>, count': seq<int>, paddr': seq<nat>,
                 leaked: seq<nat>, cur: nat, i: nat, p: Proc)
    requires Good(ps, pages, paddr, cur) && Counted(ps, count, leaked) && Backed(count, pages, paddr)
    requires cur < |ps| && ps[cur].state != UNUSED && |ps[cur].vaddr| == REGIONS && i < REGIONS
    requires p == ps[cur].(vaddr := ps[cur].vaddr[i := 0]) && |paddr'| == |paddr| == REGIONS * MAXPAGES
    requires ps[cur].vaddr[i] == 0 ==> count' == count && paddr' == paddr
    requires ps[cur].vaddr[i] != 0 ==> count' == count[i := count[i] - 1] && (count[i] != 1 ==> paddr' == paddr)
    requires ps[cur].vaddr[i] != 0 ==> forall k: nat :: k < REGIONS && k != i ==> SameRow(paddr, paddr', k)
    ensures Good(ps[cur := p], pages, paddr', cur) && Counted(ps[cur := p], count', leaked) && Backed(count', pages, paddr')
  {
    CountedUpdate(ps, count, leaked, cur, p, count', leaked);
    hide Good, Backed, SameRow, Counted;
    GoodSkips(ps, pages, paddr, cur, p);
    if ps[cur].vaddr[i] != 0 {
      HeldIsUsed(ps, count, pages, paddr, leaked, cur, i);
      Dropped(ps[cur := p], count, pages, paddr, paddr', leaked, i, cur);
    }
  }

  /** What a dead child's regions from i on still hold of the counts. */
  ghost predicate Owing(leaked: seq<nat>, owed: seq<nat>, v: seq<nat>, i: nat) {
    && |leaked| == |owed| == |v| == REGIONS
    && forall k :: 0 <= k < REGIONS ==> owed[k] == leaked[k] + if k >= i && v[k] != 0 then 1 else 0
  }

  ghost function Repaid(leaked: seq<nat>, owed: seq<nat>, v: seq<nat>, i: nat): (r: seq<nat>)
    requires Owing(leaked, owed, v, i) && i < REGIONS
    ensures Owing(leaked, r, v, i + 1)
  {
    owed[i := leaked[i]]
  }

  lemma NothingOwed(leaked: seq<nat>, owed: seq<nat>, v: seq<nat>)
    requires Owing(leaked, owed, v, REGIONS)
    ensures owed == leaked
  {}

  lemma ReapStart(ps: seq<Proc>, pages: seq<nat>, paddr: seq<nat>, count: seq<int>, leaked: seq<nat>, j: nat, p: Proc, owed: seq<nat>)
    requires Good(ps, pages, paddr, NOONE) && Counted(ps, count, leaked) && j < |ps| && ps[j].state != UNUSED
    requires p == ps[j].(state := UNUSED) && owed == Losing(leaked, ps[j])
    ensures |p.vaddr| == |count| == REGIONS && Owing(leaked, owed, p.vaddr, 0)
    ensures Good(ps[j := p], pages, paddr, NOONE) && Counted(ps[j := p], count, owed)
  {
    hide Sound;
    assert |ps[j].vaddr| == REGIONS;
    CountedUpdate(ps, count, leaked, j, p, count, owed);
  }

  lemma OwesNothing(leaked: seq<nat>, owed: seq<nat>, v: seq<nat>, i: nat)
    requires Owing(leaked, owed, v, i) && i < REGIONS && v[i] == 0
    ensures Repaid(leaked, owed, v, i) == owed
  {}

  lemma OwesOne(ps: seq<Proc>, count: seq<int>, pages: seq<nat>, paddr: seq<nat>, leaked: seq<nat>, owed: seq<nat>, v: seq<nat>, i: nat)
    requires Counted(ps, count, owed) && Backed(count, pages, paddr) && Owing(leaked, owed, v, i) && i < REGIONS && v[i] != 0
    ensures count[i] > 0 && 1 <= pages[i] <= MAXPAGES
  {
    hide Attached;
    InUse(count, pages, paddr, i);
  }

  /** One region of the dead child counted out. */
  lemma ReapStep(ps: seq<Proc>, count: seq<int>, pages: seq<nat>, paddr: seq<nat>, paddr': seq<nat>, leaked: seq<nat>, owed: seq<nat>,
                 v: seq<nat>, i: nat, count': seq<int>)
    requires Good(ps, pages, paddr, NOONE) && Counted(ps, count, owed) && Backed(count, pages, paddr)
    requires Owing(leaked, owed, v, i) && i < REGIONS && v[i] != 0 && |paddr'| == |paddr|
    requires count' == count[i := count[i] - 1] && (count[i] != 1 ==> paddr' == paddr)
    requires forall k: nat :: k < REGIONS && k != i ==> SameRow(paddr, paddr', k)
    ensures Good(ps, pages, paddr', NOONE) && Backed(count', pages, paddr')
    ensures Counted(ps, count', Repaid(leaked, owed, v, i))
  {
    hide Good, Backed, SameRow, Attached;
    OwesOne(ps, count, pages, paddr, leaked, owed, v, i);
    Dropped(ps, count, pages, paddr, paddr', Repaid(leaked, owed, v, i), i, NOONE);
  }

  lemma GoodSkips(ps: seq<Proc>, pages: seq<nat>, paddr: seq<nat>, i: nat, p: Proc)
    requires Good(ps, pages, paddr, i) && i < |ps| && |p.vaddr| == REGIONS
    ensures Good(ps[i := p], pages, paddr, i)
  {}

  lemma Replaced(ps: seq<Proc>, pages: seq<nat>, paddr: seq<nat>, count: seq<int>, leaked: seq<nat>, i: nat, p: Proc)
    requires Good(ps, pages, paddr, i) && i < |ps| && Counted(ps, count, leaked) && |pages| == REGIONS
    requires |paddr| == REGIONS * MAXPAGES && p.sz <= USERTOP
    requires p.vaddr == seq(REGIONS, _ => 0) == ps[i].vaddr && p.shmtop == USERTOP && p.state == ps[i].state
    requires forall a: nat :: a in p.pgdir <==> InPages(a, 0, p.sz)
    ensures Good(ps[i := p], pages, paddr, NOONE) && Counted(ps[i := p], count, leaked) && Whole(p)
  {
    NoRegions(p.vaddr, pages);
    CountedUpdate(ps, count, leaked, i, p, count, leaked);
    forall a: nat | a < p.sz && a % PGSIZE == 0 ensures a in p.pgdir { assert InPages(a, 0, p.sz); }
  }

  lemma Restate(ps: seq<Proc>, pages: seq<nat>, paddr: seq<nat>, count: seq<int>, leaked: seq<nat>, i: nat, st: State)
    requires Good(ps, pages, paddr, NOONE) && Counted(ps, count, leaked) && i < |ps|
    requires ps[i].state != UNUSED && st != UNUSED
    ensures Good(ps[i := ps[i].(state := st)], pages, paddr, NOONE) && Counted(ps[i := ps[i].(state := st)], count, leaked)
  {
    CountedUpdate(ps, count, leaked, i, ps[i].(state := st), count, leaked);
  }

  lemma InUse(count: seq<int>, pages: seq<nat>, paddr: seq<nat>, k: nat)
    requires Backed(count, pages, paddr) && k < REGIONS && count[k] > 0
    ensures 1 <= pages[k] <= MAXPAGES
  {}

  lemma CountedLess(ps: seq<Proc>, count: seq<int>, leaked: seq<nat>, count': seq<int>, leaked': seq<nat>, k: nat)
    requires Counted(ps, count, leaked) && k < REGIONS && leaked[k] > 0
    requires count' == count[k := count[k] - 1] && leaked' == leaked[k := (leaked[k] - 1) as nat]
    ensures Counted(ps, count', leaked')
  {}

  /** One count down: if it was the last, the frames are gone and nobody holds the region. */
  lemma Dropped(ps: seq<Proc>, count: seq<int>, pages: seq<nat>, paddr: seq<nat>, paddr': seq<nat>, leaked: seq<nat>,
                key: nat, skip: int)
    requires key < REGIONS && Good(ps, pages, paddr, skip) && Backed(count, pages, paddr) && |paddr'| == |paddr|
    requires count[key] > 0 && Counted(ps, count[key := count[key] - 1], leaked)
    requires forall k: nat :: k < REGIONS && k != key ==> SameRow(paddr, paddr', k)
    requires count[key] != 1 ==> paddr' == paddr
    ensures Good(ps, pages, paddr', skip) && Backed(count[key := count[key] - 1], pages, paddr')
  {
    hide Sound, SameRow;
    if count[key] == 1 {
      ZeroIsFree(ps, key);
      GoodElsewhere(ps, pages, paddr, paddr', key, pages[key], skip);
    }
    BackedElsewhere(count, pages, paddr, paddr', key, count[key] - 1, pages[key]);
    assert pages[key := pages[key]] == pages;
  }

  lemma SameOnes(p: Proc, q: Proc)
    requires p.vaddr == q.vaddr && p.state != UNUSED && q.state != UNUSED
    ensures forall k: nat :: One(p, k) == One(q, k)
  {}

  /** A complete address space has no gap to meet. */
  lemma WholeHasNoGap(p: Proc, kalloc: nat -> nat)
    requires Whole(p)
    ensures !MeetsGap(p.pgdir, p.sz, kalloc)
  {}

  /** A failed copy lost one count of each region of the process. */
  ghost predicate Lapsed(leaked: seq<nat>, leaked': seq<nat>, p: Proc) {
    |leaked| == |leaked'| == REGIONS && forall k :: 0 <= k < REGIONS ==> leaked'[k] == leaked[k] + One(p, k)
  }

  /** One more count lost for each region of the process. */
  ghost function Losing(leaked: seq<nat>, q: Proc): (r: seq<nat>)
    requires |leaked| == REGIONS
    ensures |r| == REGIONS && forall k :: 0 <= k < REGIONS ==> r[k] == leaked[k] + One(q, k)
  {
    seq(REGIONS, k requires 0 <= k < REGIONS => leaked[k] + One(q, k))
  }

  /** A fork that fails after counting its child in leaves those counts behind. */
  lemma Lost(ps: seq<Proc>, ps': seq<Proc>, pages: seq<nat>, paddr: seq<nat>, count: seq<int>, leaked: seq<nat>, j: nat, q: Proc)
    requires Counted(ps', count, leaked) && Good(ps, pages, paddr, j) && j < |ps| && q.state == UNUSED && |q.vaddr| == REGIONS
    requires |ps'| == |ps| && ps' == ps[j := ps'[j]] && ps'[j].state != UNUSED && ps'[j].vaddr == q.vaddr
    ensures |leaked| == REGIONS && Good(ps[j := q], pages, paddr, NOONE)
    ensures Counted(ps[j := q], count, Losing(leaked, ps'[j]))
  {
    CountedUpdate(ps', count, leaked, j, q, count, Losing(leaked, ps'[j]));
    assert ps'[j := q] == ps[j := q];
  }

  lemma Born(ps: seq<Proc>, pages: seq<nat>, paddr: seq<nat>, count: seq<int>, leaked: seq<nat>, cur: nat, j: nat, q: Proc,
             kalloc: nat -> nat)
    requires cur < |ps| && j < |ps| && cur != j && ps[cur].state == LIVE && Good(ps, pages, paddr, j)
    requires |ps[cur].vaddr| == REGIONS && Counted(ps[j := ps[j].(vaddr := ps[cur].vaddr)], count, leaked) && ps[j].state == EMBRYO
    requires q.state == LIVE && q.vaddr == ps[cur].vaddr && q.shmtop == ps[cur].shmtop && q.sz == ps[cur].sz
    requires forall a: nat :: a in q.pgdir <==> InPages(a, 0, q.sz) || InPages(a, q.shmtop, USERTOP)
    requires forall a: nat :: InPages(a, q.shmtop, USERTOP) ==> a in ps[cur].pgdir && q.pgdir[a] == ps[cur].pgdir[a]
    requires forall i: nat :: i * PGSIZE < q.sz ==> PageOn(q.pgdir, i * PGSIZE, kalloc(i))
    ensures IsCopy(ps[cur], q, kalloc) && Good(ps[j := q], pages, paddr, NOONE) && Counted(ps[j := q], count, leaked)
  {
    CopySound(ps[cur], q, pages, paddr, kalloc);
    var ps' := ps[j := ps[j].(vaddr := ps[cur].vaddr)];
    CountedUpdate(ps', count, leaked, j, q, count, leaked);
    assert ps'[j := q] == ps[j := q];
  }

  lemma CopySound(p: Proc, q: Proc, pages: seq<nat>, paddr: seq<nat>, kalloc: nat -> nat)
    requires Sound(p, pages, paddr) && IsCopy(p, q, kalloc)
    ensures Sound(q, pages, paddr) && Whole(q)
  {
    ShmtopIsHigh(p.vaddr, pages, p.shmtop);
    forall k: nat, i: nat | k < REGIONS && p.vaddr[k] != 0 && i < pages[k] <= MAXPAGES
      ensures InPages(PageVa(p.vaddr, pages, k, i), p.shmtop, USERTOP) {}
    forall a: nat | a < q.sz && a % PGSIZE == 0 ensures a in q.pgdir { assert InPages(a, 0, p.sz); }
  }

  /** The child fork makes: the parent's regions and size, page i below the size on the frame of the i-th
      kalloc and the same frames in the shared range. */
  ghost predicate IsCopy(p: Proc, q: Proc, kalloc: nat -> nat) {
    && q.state == LIVE && q.vaddr == p.vaddr && q.shmtop == p.shmtop && q.sz == p.sz
    && (forall a: nat :: a in q.pgdir <==> InPages(a, 0, p.sz) || InPages(a, p.shmtop, USERTOP))
    && (forall a: nat :: InPages(a, p.shmtop, USERTOP) ==> a in p.pgdir && q.pgdir[a] == p.pgdir[a])
    && (forall i: nat :: i * PGSIZE < p.sz ==> PageOn(q.pgdir, i * PGSIZE, kalloc(i)))
  }

  /** A region that somebody holds has a positive count. */
  lemma HeldCounts(ps: seq<Proc>, count: seq<int>, leaked: seq<nat>, cur: nat)
    requires Counted(ps, count, leaked) && cur < |ps| && ps[cur].state != UNUSED && |ps[cur].vaddr| == REGIONS
    ensures forall k :: 0 <= k < REGIONS && ps[cur].vaddr[k] != 0 ==> count[k] > 0
  {
    forall k | 0 <= k < REGIONS && ps[cur].vaddr[k] != 0 ensures count[k] > 0 { AttachedSome(ps, cur, k); }
  }

  lemma CopyReady(p: Proc, pages: seq<nat>, paddr: seq<nat>)
    requires Sound(p, pages, paddr)
    ensures p.sz <= p.shmtop <= USERTOP && p.shmtop % PGSIZE == 0 && |p.vaddr| == REGIONS
    ensures forall a: nat :: InPages(a, p.shmtop, USERTOP) ==> a in p.pgdir
  {
    ShmtopIsHigh(p.vaddr, pages, p.shmtop);
    forall a: nat | InPages(a, p.shmtop, USERTOP) ensures a in p.pgdir { SharedIsMapped(p, pages, paddr, a); }
  }

  /** A slot without regions is counted nowhere. */
  lemma Blank(ps: seq<Proc>, pages: seq<nat>, paddr: seq<nat>, count: seq<int>, leaked: seq<nat>, j: nat, q: Proc)
    requires Good(ps, pages, paddr, NOONE) && Counted(ps, count, leaked) && j < |ps| && ps[j].state == UNUSED
    requires q.vaddr == seq(REGIONS, _ => 0)
    ensures Good(ps[j := q], pages, paddr, j) && Counted(ps[j := q], count, leaked)
  {
    CountedUpdate(ps, count, leaked, j, q, count, leaked);
  }

  /** growproc's arithmetic: the new size is computed modulo 2^32, and a size of 0 reads as failure. */
  method Resize(p: Proc, n: int, pages: seq<nat>, paddr: seq<nat>, kalloc: nat -> nat) returns (q: Proc, r: int)
    requires Sound(p, pages, paddr) && -INT <= n < INT
    ensures Sound(q, pages, paddr) && q.vaddr == p.vaddr && q.state == p.state
    ensures Resized(p, q, n, r, kalloc)
  {
    hide Sound, RoundUp, Extended, Shrunk, Enough;
    SoundTop(p, pages, paddr);
    Below(p, pages, paddr);
    var d, sz: int := p.pgdir, p.sz;
    if n > 0 {
      d, sz := Allocuvm(d, p.sz, p.sz + n, p.shmtop, kalloc);
      if sz != 0 { GrowSound(p, pages, paddr, d, sz, kalloc); }
    } else if n < 0 {
      var newsz := (p.sz + n) % UINT;
      d, sz := Deallocuvm(d, p.sz, newsz);
      ShrinkSound(p, pages, paddr, d, newsz);
    } else {
      ShrunkNothing(d, p.sz);
    }
    if n != 0 && sz == 0 {
      q, r := p.(pgdir := d), -1;
    } else {
      q, r := p.(pgdir := d, sz := sz), 0;
    }
  }

  lemma ShrunkNothing(d: map<nat, nat>, sz: nat)
    ensures Shrunk(d, d, RoundUp(sz), sz)
  {}

  lemma GrowSound(p: Proc, pages: seq<nat>, paddr: seq<nat>, d: map<nat, nat>, sz: nat, kalloc: nat -> nat)
    requires Sound(p, pages, paddr) && p.sz <= sz <= p.shmtop && Extended(p.pgdir, d, RoundUp(p.sz), sz, kalloc)
    ensures Sound(p.(pgdir := d, sz := sz), pages, paddr)
  {
    ShmtopIsHigh(p.vaddr, pages, p.shmtop);
    Below(p, pages, paddr);
    ResizedSound(p, pages, paddr, d, sz);
  }

  lemma ShrinkSound(p: Proc, pages: seq<nat>, paddr: seq<nat>, d: map<nat, nat>, newsz: nat)
    requires Sound(p, pages, paddr) && Shrunk(p.pgdir, d, RoundUp(newsz), p.sz)
    ensures Sound(p.(pgdir := d, sz := if newsz < p.sz then newsz else p.sz), pages, paddr)
    ensures Sound(p.(pgdir := d), pages, paddr)
  {
    hide Sound, RoundUp, Shrunk, InPages;
    SoundTop(p, pages, paddr);
    Below(p, pages, paddr);
    ShrunkBelow(p, d, newsz);
    ResizedSound(p, pages, paddr, d, if newsz < p.sz then newsz else p.sz);
    ResizedSound(p, pages, paddr, d, p.sz);
  }

  lemma SoundTop(p: Proc, pages: seq<nat>, paddr: seq<nat>)
    requires Sound(p, pages, paddr)
    ensures p.sz <= p.shmtop && USERTOP - REGIONS * MAXPAGES * PGSIZE <= p.shmtop <= USERTOP && p.shmtop % PGSIZE == 0
  {
    ShmtopIsHigh(p.vaddr, pages, p.shmtop);
  }

  lemma ShrunkBelow(p: Proc, d: map<nat, nat>, newsz: nat)
    requires Shrunk(p.pgdir, d, RoundUp(newsz), p.sz) && p.sz <= p.shmtop && p.shmtop % PGSIZE == 0
    requires forall a: nat :: a in p.pgdir ==> a % PGSIZE == 0 && (a < RoundUp(p.sz) || p.shmtop <= a < USERTOP)
    ensures forall a: nat :: a in d ==>
              a % PGSIZE == 0 && (a < RoundUp(p.sz) || p.shmtop <= a < USERTOP) && (newsz < p.sz ==> a < RoundUp(newsz) || p.shmtop <= a < USERTOP)
    ensures forall a: nat :: p.shmtop <= a ==> (a in d <==> a in p.pgdir) && (a in d ==> d[a] == p.pgdir[a])
  {}

  lemma Below(p: Proc, pages: seq<nat>, paddr: seq<nat>)
    requires Sound(p, pages, paddr)
    ensures p.sz <= p.shmtop && forall a: nat :: a in p.pgdir ==> a % PGSIZE == 0 && (a < RoundUp(p.sz) || p.shmtop <= a < USERTOP)
  {}

  /** How growproc(n) changes a process: growth is all or nothing; shrinking gives back whole pages, and
      a shrink to exactly 0 gives them back but fails and keeps the size. */
  ghost predicate Resized(p: Proc, q: Proc, n: int, r: int, kalloc: nat -> nat) {
    && q == p.(sz := q.sz, pgdir := q.pgdir) && (r == 0 || r == -1)
    && (n > 0 ==> (r == 0 <==> p.sz + n <= p.shmtop && Enough(kalloc, p.sz + n - RoundUp(p.sz))))
    && (n > 0 && r == 0 ==> q.sz == p.sz + n && Extended(p.pgdir, q.pgdir, RoundUp(p.sz), q.sz, kalloc))
    && (n > 0 && r == -1 ==> q == p)
    && (n <= 0 ==> (r == -1 <==> n < 0 && (p.sz + n == 0 || p.sz == 0)))
    && (n <= 0 && p.sz + n < 0 ==> q == p)
    && (n <= 0 <= p.sz + n ==> q.sz == (if r == 0 then p.sz + n else p.sz))
    && (n <= 0 <= p.sz + n ==> Shrunk(p.pgdir, q.pgdir, RoundUp(p.sz + n), p.sz))
  }

  /** growproc leaves no hole below the size, except that asking for exactly size 0 frees every page,
      reports failure and keeps the size. */
  lemma WholeUnlessEmptied(p: Proc, q: Proc, n: int, r: int, kalloc: nat -> nat)
    requires Resized(p, q, n, r, kalloc) && Whole(p)
    ensures Whole(q) <==> !(0 < p.sz == -n)
  {
    if 0 < p.sz == -n { assert InPages(0, 0, p.sz); }
  }

  lemma ResizedSound(p: Proc, pages: seq<nat>, paddr: seq<nat>, d: map<nat, nat>, sz: nat)
    requires Sound(p, pages, paddr) && sz <= p.shmtop
    requires forall a: nat :: a in d ==> a % PGSIZE == 0 && (a < RoundUp(sz) || p.shmtop <= a < USERTOP)
    requires forall a: nat :: p.shmtop <= a ==> (a in d <==> a in p.pgdir) && (a in d ==> d[a] == p.pgdir[a])
    ensures Sound(p.(sz := sz, pgdir := d), pages, paddr)
  {
    forall k: nat, i: nat | k < REGIONS && p.vaddr[k] != 0 && i < pages[k] <= MAXPAGES
      ensures PageVa(p.vaddr, pages, k, i) >= p.shmtop {}
  }

  lemma ResizedValid(ps: seq<Proc>, pages: seq<nat>, paddr: seq<nat>, count: seq<int>, leaked: seq<nat>, cur: nat, q: Proc)
    requires Good(ps, pages, paddr, NOONE) && Counted(ps, count, leaked) && cur < |ps|
    requires q.vaddr == ps[cur].vaddr && q.state == ps[cur].state && Sound(q, pages, paddr)
    ensures Good(ps[cur := q], pages, paddr, NOONE) && Counted(ps[cur := q], count, leaked)
  {
    CountedUpdate(ps, count, leaked, cur, q, count, leaked);
  }

  /** The state after process cur has attached np pages of region key: its entry, the count and the page
count, its new page-table entries, the frames of a new region, and those of every region in use. */
  ghost predicate HasJoined(ps: seq<Proc>, count: seq<int>, pages: seq<nat>, paddr: seq<nat>,
                            ps': seq<Proc>, count': seq<int>, pages': seq<nat>, paddr': seq<nat>,
                            cur: nat, key: nat, np: nat, kalloc: nat -> nat)
  {
    && cur < |ps| == |ps'| && key < REGIONS == |count| == |pages| && |paddr| == |paddr'| == REGIONS * MAXPAGES
    && |ps[cur].vaddr| == REGIONS && np * PGSIZE <= ps[cur].shmtop && np <= MAXPAGES
    && ps' == ps[cur := Joined(ps[cur], key, np, ps'[cur].pgdir)]
    && count' == count[key := count[key] + 1] && pages' == pages[key := np]
    && Entered(ps[cur].pgdir, ps'[cur].pgdir, ps[cur].shmtop, np, paddr', key)
    && (forall k: nat :: k < REGIONS && (k != key || count[key] != 0) ==> SameRow(paddr, paddr', k))
    && (count[key] == 0 ==> forall i: nat :: i < np ==> Frame(paddr', key, i) == kalloc(i))
  }

  /** What attaching means, field by field: the region is at the new shmtop, its page i at i + 1 pages below
      the old one, and every other mapping is as before. */
  lemma JoinedFields(ps: seq<Proc>, count: seq<int>, pages: seq<nat>, paddr: seq<nat>,
                     ps': seq<Proc>, count': seq<int>, pages': seq<nat>, paddr': seq<nat>, cur: nat, key: nat, np: nat, kalloc: nat -> nat)
    requires HasJoined(ps, count, pages, paddr, ps', count', pages', paddr', cur, key, np, kalloc)
    ensures key < |ps'[cur].vaddr| && np * PGSIZE <= ps[cur].shmtop
    ensures ps'[cur].vaddr[key] == ps'[cur].shmtop == ps[cur].shmtop - np * PGSIZE && ps'[cur].sz == ps[cur].sz
    ensures key < |count'| && count'[key] == count[key] + 1 && key < |pages'| && pages'[key] == np
    ensures forall a: nat :: a in ps[cur].pgdir ==> PageOn(ps'[cur].pgdir, a, ps[cur].pgdir[a])
    ensures forall i: nat :: i < np ==> PageOn(ps'[cur].pgdir, ps[cur].shmtop - (i + 1) * PGSIZE, Frame(paddr', key, i))
  {
    hide Frame, SameRow, InPages;
    assert ps'[cur] == Joined(ps[cur], key, np, ps'[cur].pgdir);
    var d, top := ps'[cur].pgdir, ps[cur].shmtop;
    forall i: nat | i < np ensures PageOn(d, top - (i + 1) * PGSIZE, Frame(paddr', key, i)) {
      var f := Frame(paddr', key, i);
      assert top - (i + 1) * PGSIZE in d && d[top - (i + 1) * PGSIZE] == f;
    }
  }

  lemma NewRow(np: nat, count: seq<int>, pages: seq<nat>, paddr: seq<nat>, paddr': seq<nat>, key: nat)
    requires Backed(count, pages, paddr) && key < REGIONS && np <= MAXPAGES && |paddr'| == |paddr|
    requires if count[key] > 0 then np == pages[key] && SameRow(paddr, paddr', key)
             else forall i: nat :: i < np ==> Frame(paddr', key, i) != 0
    ensures RowBacked(np, paddr', key)
  {}

  /** One page, shrunk by its size: the page is gone, the call failed and the size is still a page; a fork
      with all the memory it asks for panics. */
  method EmptiedExample() returns (r: int, o: Outcome, ghost p: Proc)
    ensures r == -1 && p.sz == PGSIZE && !Whole(p) && o == Panic
  {
    var k := new Kernel(1);
    r := k.Growproc(0, -PGSIZE, _ => 2);
    p := k.procs[0];
    assert InPages(0, RoundUp(0), PGSIZE) && GapAt(p.pgdir, p.sz, _ => 2, 0);
    assert k.procs[1].state == UNUSED;
    o := k.Fork(0, true, true, _ => 2);
  }

  /** A fork without memory for the page directory: one process holds region 0 and its count is 2. */
  method LeakExample() returns (k: Kernel)
    ensures k.Valid() && k.count[0] == 2 && Attached(k.procs[..], 0) == 1
  {
    hide Good, Sound, Backed, Attached;
    k := new Kernel(1);
    AttachedNone(k.procs[..], 0);
    var o := k.Shmgetat(0, 0, 1, _ => 2);
    ghost var p := k.procs[0];
    assert Whole(p) && One(p, 0) == 1 && k.leaked[0] == 0 && k.count[0] == 1;
    assert k.procs[1].state == UNUSED;
    o := k.Fork(0, true, false, _ => 2);
    assert o == Ret(-1) && k.leaked[0] == 1 && k.procs[0] == p;
    OnlyFirst(k.procs[..]);
  }

  lemma OnlyFirst(ps: seq<Proc>)
    requires |ps| > 0 && One(ps[0], 0) == 1 && forall i :: 0 < i < |ps| ==> ps[i].state == UNUSED
    ensures Attached(ps, 0) == 1
  {
    var q := ps[0].(state := UNUSED);
    AttachedNone(ps[0 := q], 0);
    AttachedUpdate(ps[0 := q], 0, ps[0], 0);
    assert ps[0 := q][0 := ps[0]] == ps;
  }

  // ---------- system-call arguments ----------

  /** get_shm_bound: the least region start above addr, USERTOP if there is none. */
  method GetShmBound(p: Proc, ghost pages: seq<nat>, addr: nat) returns (bound: nat)
    requires Tiled(p.vaddr, pages, p.shmtop)
    ensures forall k: nat :: Holds(p.vaddr, pages, k, addr) ==> bound == End(p.vaddr, pages, k)
    ensures addr >= USERTOP ==> bound == USERTOP
  {
    bound := USERTOP;
    var key := 0;
    while key < REGIONS
      invariant key <= REGIONS && bound <= USERTOP
      invariant forall j :: 0 <= j < key && p.vaddr[j] > addr ==> bound <= p.vaddr[j]
      invariant bound == USERTOP || exists j :: 0 <= j < REGIONS && p.vaddr[j] == bound > addr
      invariant addr >= USERTOP ==> bound == USERTOP
    {
      if addr < p.vaddr[key] && bound > p.vaddr[key] { bound := p.vaddr[key]; }
      key := key + 1;
    }
    if k: nat :| Holds(p.vaddr, pages, k, addr) {
      BoundIsEnd(p.vaddr, pages, p.shmtop, addr, k, bound);
      forall j: nat | Holds(p.vaddr, pages, j, addr) ensures j == k {
        HolderUnique(p.vaddr, pages, p.shmtop, j, k, addr);
      }
    }
  }

  /** The bound that fetchint, fetchstr and argptr compare with. */
  method BoundOf(p: Proc, ghost pages: seq<nat>, ghost paddr: seq<nat>, addr: nat) returns (bound: nat)
    requires Sound(p, pages, paddr)
    ensures forall n: int :: addr < bound && addr + n <= bound <==> Fits(p, pages, addr, n)
  {
    ShmtopIsHigh(p.vaddr, pages, p.shmtop);
    if addr < p.shmtop {
      bound := p.sz;
    } else {
      bound := GetShmBound(p, pages, addr);
    }
    FitsBound(p, pages, paddr, addr, bound);
  }

  lemma FitsBound(p: Proc, pages: seq<nat>, paddr: seq<nat>, addr: nat, bound: nat)
    requires Sound(p, pages, paddr)
    requires addr < p.shmtop ==> bound == p.sz
    requires p.shmtop <= addr ==> forall k: nat :: Holds(p.vaddr, pages, k, addr) ==> bound == End(p.vaddr, pages, k)
    requires addr >= USERTOP ==> bound == USERTOP
    ensures forall n: int :: addr < bound && addr + n <= bound <==> Fits(p, pages, addr, n)
  {
    forall n: int ensures addr < bound && addr + n <= bound <==> Fits(p, pages, addr, n) {
      if p.shmtop <= addr < USERTOP {
        assert Covered(p.vaddr, pages, addr);
        var k: nat :| Holds(p.vaddr, pages, k, addr);
      }
    }
  }

  /** word(a) is the int stored at user address a. */
  method Fetchint(p: Proc, ghost pages: seq<nat>, ghost paddr: seq<nat>, addr: nat, word: nat -> int)
    returns (r: int, value: int)
    requires Sound(p, pages, paddr) && addr < UINT
    ensures (r == 0 && value == word(addr)) || r == -1
    ensures r == 0 <==> Fits(p, pages, addr, 4)
  {
    var bound := BoundOf(p, pages, paddr, addr);
    BoundLow(p, pages, paddr, addr, bound);
    if addr >= bound || (addr + 4) % UINT > bound { return -1, 0; }
    return 0, word(addr);
  }

  /** No bound exceeds USERTOP, so the 32-bit sums below do not wrap upwards. */
  lemma BoundLow(p: Proc, pages: seq<nat>, paddr: seq<nat>, addr: nat, bound: nat)
    requires Sound(p, pages, paddr)
    requires forall n: int :: addr < bound && addr + n <= bound <==> Fits(p, pages, addr, n)
    ensures addr < bound ==> bound <= USERTOP
  {
    ShmtopIsHigh(p.vaddr, pages, p.shmtop);
    if addr < bound { assert Fits(p, pages, addr, bound - addr); }
  }

  /** argptr on pointer i: the buffer lies in [0, sz) or in a single region. A negative size is compared
      as a 32-bit sum and so passes exactly when it does not reach below 0. */
  method Argptr(p: Proc, ghost pages: seq<nat>, ghost paddr: seq<nat>, i: nat, size: int) returns (r: int)
    requires Sound(p, pages, paddr) && i < UINT && -INT <= size < INT
    ensures r == 0 || r == -1
    ensures r == 0 <==> Fits(p, pages, i, size) && i + size >= 0
  {
    var bound := BoundOf(p, pages, paddr, i);
    BoundLow(p, pages, paddr, i, bound);
    if i >= bound || (i + size) % UINT > bound { return -1; }
    return 0;
  }

  /** mem(a) is the byte at user address a. */
  method Fetchstr(p: Proc, ghost pages: seq<nat>, ghost paddr: seq<nat>, addr: nat, mem: nat -> nat) returns (r: int)
    requires Sound(p, pages, paddr) && addr < UINT
    ensures r >= -1
    ensures r >= 0 ==> Fits(p, pages, addr, r + 1) && mem(addr + r) == 0 && forall b: nat :: addr <= b < addr + r ==> mem(b) != 0
    ensures r == -1 ==> forall b: nat :: addr <= b && Fits(p, pages, addr, b + 1 - addr) ==> mem(b) != 0
  {
    var bound := BoundOf(p, pages, paddr, addr);
    if addr >= bound { return -1; }
    var s := addr;
    while s < bound
      invariant addr <= s <= bound && forall b: nat :: addr <= b < s ==> mem(b) != 0
    {
      if mem(s) == 0 { return s - addr; }
      s := s + 1;
    }
    return -1;
  }
}
