/** Private memory stays private: no process maps a frame that another has below its shared range, across
    fork, sbrk, shmgetat, exec, exit and wait. (p3b kernel/vm.c, proc.c) */
module ShmIsolation {
  import opened ShmSpec
  import opened Shm

  /** A present process maps address a to frame f. */
  ghost predicate Maps(p: Proc, a: nat, f: nat) { p.state != UNUSED && PageOn(p.pgdir, a, f) }

  /** The same, below its shared range. */
  ghost predicate Private(p: Proc, a: nat, f: nat) { Maps(p, a, f) && a < p.shmtop }

  /** f is the frame of a page of a region in use. */
  ghost predicate RegionFrame(count: seq<int>, pages: seq<nat>, paddr: seq<nat>, f: nat) {
    && |count| == |pages| == REGIONS && |paddr| == REGIONS * MAXPAGES
    && exists k: nat, m: nat :: InRegion(count, pages, paddr, k, m, f)
  }

  ghost predicate InRegion(count: seq<int>, pages: seq<nat>, paddr: seq<nat>, k: nat, m: nat, f: nat)
    requires |count| == |pages| == REGIONS && |paddr| == REGIONS * MAXPAGES
  {
    k < REGIONS && m < MAXPAGES && m < pages[k] && count[k] > 0 && Frame(paddr, k, m) == f
  }

  /** A private frame is mapped once, and is no region's. */
  ghost predicate Isolated(ps: seq<Proc>, count: seq<int>, pages: seq<nat>, paddr: seq<nat>) {
    && (forall i, j, a: nat, b: nat, f: nat :: 0 <= i < |ps| && 0 <= j < |ps| && Private(ps[i], a, f) && Maps(ps[j], b, f) ==>
          i == j && a == b)
    && (forall i, a: nat, f: nat :: 0 <= i < |ps| && Private(ps[i], a, f) ==> !RegionFrame(count, pages, paddr, f))
  }

  /** f is nobody's. */
  ghost predicate Unowned(ps: seq<Proc>, count: seq<int>, pages: seq<nat>, paddr: seq<nat>, f: nat) {
    && !RegionFrame(count, pages, paddr, f)
    && forall i, a: nat :: 0 <= i < |ps| ==> !Maps(ps[i], a, f)
  }

  /** kalloc hands out frames that are nobody's, each once. */
  ghost predicate HandsOutNew(ps: seq<Proc>, count: seq<int>, pages: seq<nat>, paddr: seq<nat>, kalloc: nat -> nat) {
    && (forall n: nat :: kalloc(n) != 0 ==> Unowned(ps, count, pages, paddr, kalloc(n)))
    && forall n: nat, m: nat :: n != m && kalloc(n) != 0 ==> kalloc(n) != kalloc(m)
  }

  /** The regions in use after a step are regions in use before it, with the same frames. */
  ghost predicate NoNewRegions(count: seq<int>, pages: seq<nat>, paddr: seq<nat>, count': seq<int>, paddr': seq<nat>) {
    && |count| == |count'| == |pages| == REGIONS && |paddr| == |paddr'| == REGIONS * MAXPAGES
    && forall k: nat :: k < REGIONS && count'[k] > 0 ==> count[k] > 0 && SameRow(paddr, paddr', k)
  }

  lemma RegionStays(count: seq<int>, pages: seq<nat>, paddr: seq<nat>, count': seq<int>, paddr': seq<nat>, f: nat)
    requires NoNewRegions(count, pages, paddr, count', paddr') && RegionFrame(count', pages, paddr', f)
    ensures RegionFrame(count, pages, paddr, f)
  {
    hide Frame;
    var k: nat, m: nat :| InRegion(count', pages, paddr', k, m, f);
    assert SameRow(paddr, paddr', k) && Frame(paddr', k, m) == Frame(paddr, k, m);
    assert InRegion(count, pages, paddr, k, m, f);
  }

  /** One process changes: its new private frames were private to it or nobody's, each at one address, and
      what it maps otherwise was no other's private frame. */
  ghost predicate Takes(ps: seq<Proc>, count: seq<int>, pages: seq<nat>, paddr: seq<nat>, c: nat, q: Proc)
    requires c < |ps|
  {
    && (forall a: nat, f: nat :: Private(q, a, f) ==> Private(ps[c], a, f) || Unowned(ps, count, pages, paddr, f))
    && (forall a: nat, b: nat, f: nat :: Private(q, a, f) && Maps(q, b, f) ==> a == b)
    && (forall b: nat, f: nat :: Maps(q, b, f) ==>
          Maps(ps[c], b, f) || Unowned(ps, count, pages, paddr, f) || NobodysPrivate(ps, f))
  }

  ghost predicate NobodysPrivate(ps: seq<Proc>, f: nat) { forall i, a: nat :: 0 <= i < |ps| ==> !Private(ps[i], a, f) }

  /** Such a change keeps isolation if it brings no region into use. */
  lemma TakesIsolates(ps: seq<Proc>, count: seq<int>, pages: seq<nat>, paddr: seq<nat>, c: nat, q: Proc, count': seq<int>, paddr': seq<nat>)
    requires Isolated(ps, count, pages, paddr) && c < |ps| && Takes(ps, count, pages, paddr, c, q)
    requires NoNewRegions(count, pages, paddr, count', paddr')
    ensures Isolated(ps[c := q], count', pages, paddr')
  {
    hide Maps, Private, RegionFrame, NoNewRegions;
    var ps' := ps[c := q];
    forall i, j, a: nat, b: nat, f: nat | 0 <= i < |ps'| && 0 <= j < |ps'| && Private(ps'[i], a, f) && Maps(ps'[j], b, f)
      ensures i == j && a == b
    {
      PrivateMaps(ps'[i], a, f);
    }
    forall i, a: nat, f: nat | 0 <= i < |ps'| && Private(ps'[i], a, f) ensures !RegionFrame(count', pages, paddr', f) {
      if RegionFrame(count', pages, paddr', f) {
        RegionStays(count, pages, paddr, count', paddr', f);
      }
    }
  }

  lemma PrivateMaps(p: Proc, a: nat, f: nat)
    requires Private(p, a, f)
    ensures Maps(p, a, f)
  {}

  /** fork: the child's pages below its size are its own, and share no frame with any process. */
  lemma ForkIsolates(ps: seq<Proc>, count: seq<int>, pages: seq<nat>, paddr: seq<nat>, cur: nat, j: nat, q: Proc, count': seq<int>,
                     kalloc: nat -> nat)
    requires Isolated(ps, count, pages, paddr) && HandsOutNew(ps, count, pages, paddr, kalloc)
    requires cur < |ps| && j < |ps| && ps[cur].state == LIVE && ps[j].state == UNUSED && IsCopy(ps[cur], q, kalloc)
    requires Sound(ps[cur], pages, paddr) && Enough(kalloc, q.sz) && NoNewRegions(count, pages, paddr, count', paddr)
    ensures Isolated(ps[j := q], count', pages, paddr)
    ensures forall a: nat, f: nat :: a < q.sz && Maps(q, a, f) ==>
              (forall i, b: nat :: 0 <= i < |ps| ==> !Maps(ps[i], b, f)) && forall b: nat :: Maps(q, b, f) ==> b == a
  {
    hide RegionFrame, NoNewRegions, Isolated, Sound, Unowned;
    SoundSizes(ps[cur], pages, paddr);
    forall a: nat, f: nat | Private(q, a, f) ensures Unowned(ps, count, pages, paddr, f) && kalloc(a / PGSIZE) == f {
      ChildPage(ps[cur], q, a, f, kalloc);
    }
    forall b: nat, f: nat | Maps(q, b, f) && b >= q.shmtop ensures Maps(ps[cur], b, f) && NobodysPrivate(ps, f) {
      assert InPages(b, q.shmtop, USERTOP);
      SharedIsNoPrivate(ps, count, pages, paddr, cur, b, f);
    }
    forall a: nat, b: nat, f: nat | Private(q, a, f) && Maps(q, b, f) ensures a == b {
      UnownedIsUnmapped(ps, count, pages, paddr, cur, f);
      if b < q.shmtop {
        assert Private(q, b, f) && kalloc(b / PGSIZE) == f;
        ChildPage(ps[cur], q, a, f, kalloc);
        ChildPage(ps[cur], q, b, f, kalloc);
      }
    }
    forall b: nat, f: nat | Maps(q, b, f) ensures Unowned(ps, count, pages, paddr, f) || NobodysPrivate(ps, f) {
      if b < q.shmtop { assert Private(q, b, f); }
    }
    assert Takes(ps, count, pages, paddr, j, q);
    TakesIsolates(ps, count, pages, paddr, j, q, count', paddr);
    forall a: nat, f: nat | a < q.sz && Maps(q, a, f)
      ensures (forall i, b: nat :: 0 <= i < |ps| ==> !Maps(ps[i], b, f)) && forall b: nat :: Maps(q, b, f) ==> b == a
    {
      assert Private(q, a, f);
      Nowhere(ps, count, pages, paddr, f);
    }
  }

  lemma Nowhere(ps: seq<Proc>, count: seq<int>, pages: seq<nat>, paddr: seq<nat>, f: nat)
    requires Unowned(ps, count, pages, paddr, f)
    ensures forall i, b: nat :: 0 <= i < |ps| ==> !Maps(ps[i], b, f)
  {}

  lemma UnownedIsUnmapped(ps: seq<Proc>, count: seq<int>, pages: seq<nat>, paddr: seq<nat>, i: nat, f: nat)
    requires Unowned(ps, count, pages, paddr, f) && i < |ps|
    ensures forall b: nat :: !Maps(ps[i], b, f)
  {}

  lemma SoundSizes(p: Proc, pages: seq<nat>, paddr: seq<nat>)
    requires Sound(p, pages, paddr)
    ensures p.sz <= p.shmtop
  {}

  /** A frame in a process's shared range is private to nobody. */
  lemma SharedIsNoPrivate(ps: seq<Proc>, count: seq<int>, pages: seq<nat>, paddr: seq<nat>, c: nat, b: nat, f: nat)
    requires Isolated(ps, count, pages, paddr) && c < |ps| && Maps(ps[c], b, f) && b >= ps[c].shmtop
    ensures NobodysPrivate(ps, f)
  {}

  /** A private page of the child is below its size, on the frame allocated for it. */
  lemma ChildPage(p: Proc, q: Proc, a: nat, f: nat, kalloc: nat -> nat)
    requires IsCopy(p, q, kalloc) && p.sz <= p.shmtop && Private(q, a, f) && Enough(kalloc, q.sz)
    ensures a < q.sz && a % PGSIZE == 0 && kalloc(a / PGSIZE) == f != 0
  {
    assert a in q.pgdir && InPages(a, 0, p.sz);
    var n := a / PGSIZE;
    assert n * PGSIZE == a;
    assert PageOn(q.pgdir, n * PGSIZE, kalloc(n));
  }

  /** sbrk: a process that grows takes new frames only; one that shrinks takes none. */
  lemma GrowprocIsolates(ps: seq<Proc>, count: seq<int>, pages: seq<nat>, paddr: seq<nat>, cur: nat, q: Proc, n: int, r: int,
                         kalloc: nat -> nat)
    requires Isolated(ps, count, pages, paddr) && HandsOutNew(ps, count, pages, paddr, kalloc)
    requires cur < |ps| && ps[cur].state == LIVE && Resized(ps[cur], q, n, r, kalloc) && Sound(q, pages, paddr)
    requires |count| == |pages| == REGIONS && |paddr| == REGIONS * MAXPAGES
    ensures Isolated(ps[cur := q], count, pages, paddr)
  {
    hide RegionFrame, Isolated, Sound, Unowned, RoundUp;
    var p := ps[cur];
    SoundSizes(q, pages, paddr);
    forall a: nat, f: nat | Maps(q, a, f) ensures Maps(p, a, f) || (Unowned(ps, count, pages, paddr, f) && f != 0 && a < q.shmtop) {
      if !Maps(p, a, f) {
        var i := GrownPage(p, q, n, r, a, f, kalloc);
        assert kalloc(i) != 0;
      }
    }
    forall a: nat, b: nat, f: nat | Private(q, a, f) && Maps(q, b, f) ensures a == b {
      if Maps(p, a, f) && Maps(p, b, f) {
        OneAddress(ps, count, pages, paddr, cur, a, b, f);
      } else if Maps(p, a, f) || Maps(p, b, f) {
        UnownedIsUnmapped(ps, count, pages, paddr, cur, f);
      } else {
        var i := GrownPage(p, q, n, r, a, f, kalloc);
        var j := GrownPage(p, q, n, r, b, f, kalloc);
      }
    }
    assert Takes(ps, count, pages, paddr, cur, q);
    SameRows(paddr);
    TakesIsolates(ps, count, pages, paddr, cur, q, count, paddr);
  }

  lemma OneAddress(ps: seq<Proc>, count: seq<int>, pages: seq<nat>, paddr: seq<nat>, c: nat, a: nat, b: nat, f: nat)
    requires Isolated(ps, count, pages, paddr) && c < |ps| && Private(ps[c], a, f) && Maps(ps[c], b, f)
    ensures a == b
  {}

  /** A page sbrk added is on the frame allocated for it. */
  lemma GrownPage(p: Proc, q: Proc, n: int, r: int, a: nat, f: nat, kalloc: nat -> nat) returns (i: nat)
    requires Resized(p, q, n, r, kalloc) && p.state != UNUSED && Maps(q, a, f) && !Maps(p, a, f)
    ensures a == RoundUp(p.sz) + i * PGSIZE < q.sz && kalloc(i) == f != 0
  {
    assert a !in p.pgdir;
    hide RoundUp;
    var lo := RoundUp(p.sz);
    assert n > 0 && r == 0 && InPages(a, lo, q.sz);
    RoundedUp(p.sz);
    i := (a - lo) / PGSIZE;
    Exactly(a, lo, i);
    assert PageOn(q.pgdir, lo + i * PGSIZE, kalloc(i));
  }

  lemma Exactly(a: nat, lo: nat, i: nat)
    requires a % PGSIZE == 0 && lo % PGSIZE == 0 && lo <= a && i == (a - lo) / PGSIZE
    ensures a == lo + i * PGSIZE
  {}

  /** shmgetat: the process maps only the region's frames, new ones if the region is; its private range can
      only get smaller. */
  lemma ShmgetatIsolates(ps: seq<Proc>, count: seq<int>, pages: seq<nat>, paddr: seq<nat>,
                         ps': seq<Proc>, count': seq<int>, pages': seq<nat>, paddr': seq<nat>, cur: nat, key: nat, np: nat, kalloc: nat -> nat)
    requires Isolated(ps, count, pages, paddr) && HandsOutNew(ps, count, pages, paddr, kalloc)
    requires HasJoined(ps, count, pages, paddr, ps', count', pages', paddr', cur, key, np, kalloc)
    requires ps[cur].state == LIVE && count[key] >= 0 && (count[key] > 0 ==> np == pages[key]) && (count[key] == 0 ==> Enough(kalloc, np * PGSIZE))
    requires ps[cur].shmtop % PGSIZE == 0 && forall k :: 0 <= k < REGIONS ==> count[k] >= 0
    ensures Isolated(ps', count', pages', paddr')
  {
    hide Isolated, Unowned, RegionFrame, Frame, SameRow;
    forall f: nat | RegionFrame(count', pages', paddr', f)
      ensures RegionFrame(count, pages, paddr, f) || Unowned(ps, count, pages, paddr, f)
    {
      RegionAfter(ps, count, pages, paddr, ps', count', pages', paddr', cur, key, np, kalloc, f);
    }
    forall b: nat, f: nat | Maps(ps'[cur], b, f) && !Maps(ps[cur], b, f)
      ensures b >= ps'[cur].shmtop && RegionFrame(count', pages', paddr', f)
    {
      AttachedPage(ps, count, pages, paddr, ps', count', pages', paddr', cur, key, np, kalloc, b, f);
    }
    JoinedIsolates(ps, count, pages, paddr, ps', count', pages', paddr', cur);
  }

  /** Isolation after one process attached region frames, and regions came into use on new frames. */
  lemma JoinedIsolates(ps: seq<Proc>, count: seq<int>, pages: seq<nat>, paddr: seq<nat>,
                       ps': seq<Proc>, count': seq<int>, pages': seq<nat>, paddr': seq<nat>, c: nat)
    requires Isolated(ps, count, pages, paddr) && c < |ps| == |ps'| && ps' == ps[c := ps'[c]]
    requires ps'[c].state == ps[c].state && ps'[c].shmtop <= ps[c].shmtop
    requires forall f: nat :: RegionFrame(count', pages', paddr', f) ==> RegionFrame(count, pages, paddr, f) || Unowned(ps, count, pages, paddr, f)
    requires forall b: nat, f: nat :: Maps(ps'[c], b, f) && !Maps(ps[c], b, f) ==>
               b >= ps'[c].shmtop && RegionFrame(count', pages', paddr', f)
    ensures Isolated(ps', count', pages', paddr')
  {
    hide RegionFrame, Maps;
    forall i, a: nat, f: nat | 0 <= i < |ps'| && Private(ps'[i], a, f)
      ensures Private(ps[i], a, f) && !RegionFrame(count', pages', paddr', f)
    {}
    forall i, j, a: nat, b: nat, f: nat | 0 <= i < |ps'| && 0 <= j < |ps'| && Private(ps'[i], a, f) && Maps(ps'[j], b, f)
      ensures i == j && a == b
    {
      assert Private(ps[i], a, f);
    }
  }

  /** A region frame after the call was one before it, or came from kalloc. */
  lemma RegionAfter(ps: seq<Proc>, count: seq<int>, pages: seq<nat>, paddr: seq<nat>,
                    ps': seq<Proc>, count': seq<int>, pages': seq<nat>, paddr': seq<nat>, cur: nat, key: nat, np: nat, kalloc: nat -> nat, f: nat)
    requires HandsOutNew(ps, count, pages, paddr, kalloc) && HasJoined(ps, count, pages, paddr, ps', count', pages', paddr', cur, key, np, kalloc)
    requires RegionFrame(count', pages', paddr', f) && (count[key] > 0 ==> np == pages[key]) && (count[key] == 0 ==> Enough(kalloc, np * PGSIZE))
    requires forall k :: 0 <= k < REGIONS ==> count[k] >= 0
    ensures RegionFrame(count, pages, paddr, f) || Unowned(ps, count, pages, paddr, f)
  {
    hide Unowned, Frame, Entered, SameRow;
    var k: nat, m: nat :| InRegion(count', pages', paddr', k, m, f);
    if k == key && count[key] == 0 {
      assert Frame(paddr', key, m) == kalloc(m) && m * PGSIZE < np * PGSIZE;
      assert kalloc(m) != 0;
    } else {
      SameFrame(paddr, paddr', k, m);
      assert InRegion(count, pages, paddr, k, m, f);
    }
  }

  /** A page the call added is in the new shared range, on a frame of the region. */
  lemma AttachedPage(ps: seq<Proc>, count: seq<int>, pages: seq<nat>, paddr: seq<nat>,
                     ps': seq<Proc>, count': seq<int>, pages': seq<nat>, paddr': seq<nat>, cur: nat, key: nat, np: nat, kalloc: nat -> nat, b: nat, f: nat)
    requires HasJoined(ps, count, pages, paddr, ps', count', pages', paddr', cur, key, np, kalloc) && ps[cur].state == LIVE
    requires count[key] >= 0 && ps[cur].shmtop % PGSIZE == 0 && Maps(ps'[cur], b, f) && !Maps(ps[cur], b, f)
    ensures b >= ps'[cur].shmtop && RegionFrame(count', pages', paddr', f)
  {
    hide Frame, SameRow;
    var top := ps[cur].shmtop;
    assert b !in ps[cur].pgdir && InPages(b, top - np * PGSIZE, top);
    var i := (top - 1 - b) / PGSIZE;
    PageFromTop(top, np, b, i, ps[cur].pgdir, ps'[cur].pgdir, paddr', key);
    assert InRegion(count', pages', paddr', key, i, f);
  }

  lemma PageFromTop(top: nat, np: nat, b: nat, i: nat, m: map<nat, nat>, d: map<nat, nat>, paddr: seq<nat>, key: nat)
    requires key < REGIONS && np <= MAXPAGES && np * PGSIZE <= top && |paddr| == REGIONS * MAXPAGES && Entered(m, d, top, np, paddr, key)
    requires top % PGSIZE == 0 && InPages(b, top - np * PGSIZE, top) && i == (top - 1 - b) / PGSIZE
    ensures i < np && b in d && d[b] == Frame(paddr, key, i)
  {
    hide Frame;
    assert i < np && b == top - (i + 1) * PGSIZE;
    var f := Frame(paddr, key, i);
  }

  /** exit and wait: the process only changes its state. */
  lemma RestateIsolates(ps: seq<Proc>, count: seq<int>, pages: seq<nat>, paddr: seq<nat>, c: nat, st: State, count': seq<int>, paddr': seq<nat>)
    requires Isolated(ps, count, pages, paddr) && c < |ps| && ps[c].state != UNUSED && NoNewRegions(count, pages, paddr, count', paddr')
    ensures Isolated(ps[c := ps[c].(state := st)], count', pages, paddr')
  {
    hide RegionFrame, NoNewRegions, Unowned, Isolated;
    var q := ps[c].(state := st);
    forall a: nat, b: nat, f: nat | Private(q, a, f) && Maps(q, b, f) ensures a == b {
      OneAddress(ps, count, pages, paddr, c, a, b, f);
    }
    TakesIsolates(ps, count, pages, paddr, c, q, count', paddr');
  }

  /** Every allocuvm of an exec hands out new frames, each once. */
  ghost predicate AllNew(ps: seq<Proc>, count: seq<int>, pages: seq<nat>, paddr: seq<nat>, kalloc: nat -> nat -> nat) {
    && (forall k: nat, n: nat :: kalloc(k)(n) != 0 ==> Unowned(ps, count, pages, paddr, kalloc(k)(n)))
    && forall k: nat, n: nat, l: nat, m: nat :: (k != l || n != m) && kalloc(k)(n) != 0 ==> kalloc(k)(n) != kalloc(l)(m)
  }

  /** exec: every page of the new image is on a new frame of its own. */
  lemma ExecIsolates(ps: seq<Proc>, count: seq<int>, pages: seq<nat>, paddr: seq<nat>, cur: nat, q: Proc, count': seq<int>, paddr': seq<nat>,
                     ends: seq<nat>, kalloc: nat -> nat -> nat)
    requires Isolated(ps, count, pages, paddr) && AllNew(ps, count, pages, paddr, kalloc) && cur < |ps|
    requires Memory(ends, kalloc) && q.sz == RoundUp(MaxEnd(ends)) + PGSIZE && ImageFrames(ends, q.pgdir, q.sz, kalloc)
    requires (forall a: nat :: a in q.pgdir <==> InPages(a, 0, q.sz)) && NoNewRegions(count, pages, paddr, count', paddr')
    ensures Isolated(ps[cur := q], count', pages, paddr')
  {
    hide RegionFrame, NoNewRegions, Unowned, Isolated, RoundUp, MaxEnd, Memory, ImageFrames, InPages;
    forall a: nat, f: nat | Maps(q, a, f) ensures Unowned(ps, count, pages, paddr, f) {
      var k, j := ImagePage(ends, q, a, f, kalloc);
      assert kalloc(k)(j) != 0;
    }
    forall a: nat, b: nat, f: nat | Maps(q, a, f) && Maps(q, b, f) ensures a == b {
      var k, j := ImagePage(ends, q, a, f, kalloc);
      var l, m := ImagePage(ends, q, b, f, kalloc);
      assert kalloc(k)(j) == kalloc(l)(m) != 0;
    }
    TakesIsolates(ps, count, pages, paddr, cur, q, count', paddr');
  }

  /** Where page j of segment k is, or the stack page for k past the last segment. */
  function ImageVa(ends: seq<nat>, k: nat, j: nat): nat
    requires k <= |ends|
  {
    RoundUp(MaxEnd(ends[..k])) + j * PGSIZE
  }

  lemma ImagePage(ends: seq<nat>, q: Proc, a: nat, f: nat, kalloc: nat -> nat -> nat) returns (k: nat, j: nat)
    requires Memory(ends, kalloc) && q.sz == RoundUp(MaxEnd(ends)) + PGSIZE && ImageFrames(ends, q.pgdir, q.sz, kalloc)
    requires (forall a: nat :: a in q.pgdir <==> InPages(a, 0, q.sz)) && Maps(q, a, f)
    ensures k <= |ends| && a == ImageVa(ends, k, j) && kalloc(k)(j) == f != 0
  {
    hide RoundUp, MaxEnd;
    assert InPages(a, 0, q.sz);
    var top := MaxEnd(ends);
    RoundedUp(top);
    assert ends[..|ends|] == ends;
    if a < RoundUp(top) {
      WholePages(a, top);
      k, j := InSegment(ends, |ends|, a);
      assert OnFrames(ends, k, q.pgdir, kalloc) && PageOn(q.pgdir, ImageVa(ends, k, j), kalloc(k)(j));
      assert SegmentMemory(ends, kalloc, k);
    } else {
      LastPage(a, RoundUp(top));
      k, j := |ends|, 0;
      assert Enough(kalloc(k), PGSIZE) && kalloc(k)(0) != 0;
    }
  }

  lemma WholePages(a: nat, top: nat)
    requires a % PGSIZE == 0 && a < RoundUp(top)
    ensures a < top
  {}

  lemma LastPage(a: nat, lo: nat)
    requires a % PGSIZE == 0 && lo % PGSIZE == 0 && lo <= a < lo + PGSIZE
    ensures a == lo
  {}

  /** A page below the end of the first n segments is in one of them. */
  lemma {:induction false} InSegment(ends: seq<nat>, n: nat, a: nat) returns (k: nat, j: nat)
    requires n <= |ends| && a % PGSIZE == 0 && a < MaxEnd(ends[..n])
    ensures k < n && a == ImageVa(ends, k, j) < ends[k]
    decreases n
  {
    hide RoundUp;
    assert n > 0 && ends[..n][..n - 1] == ends[..n - 1];
    var m := MaxEnd(ends[..n - 1]);
    RoundedUp(m);
    if a < RoundUp(m) {
      WholePages(a, m);
      k, j := InSegment(ends, n - 1, a);
    } else {
      k, j := n - 1, (a - RoundUp(m)) / PGSIZE;
      Exactly(a, RoundUp(m), j);
    }
  }

  // ---------- the calls ----------

  /** No frame is private to two pages in the kernel's state. */
  ghost predicate Safe(k: Kernel)
    reads k, k.count, k.pages, k.paddr, k.procs
  {
    k.Valid() && Isolated(k.procs[..], k.count[..], k.pages[..], k.paddr[..])
  }

  method SafeBoot(frame: nat) returns (k: Kernel)
    requires frame != 0
    ensures fresh(k) && Safe(k)
  {
    k := new Kernel(frame);
    BootIsolated(k.procs[..], k.count[..], k.pages[..], k.paddr[..]);
    hide Isolated, Good, Counted, Backed;
  }

  lemma BootIsolated(ps: seq<Proc>, count: seq<int>, pages: seq<nat>, paddr: seq<nat>)
    requires |ps| > 0 && |count| == |pages| == REGIONS && forall k :: 0 <= k < REGIONS ==> count[k] == 0
    requires forall i :: 0 < i < |ps| ==> ps[i].state == UNUSED
    requires forall a: nat :: a in ps[0].pgdir ==> a == 0
    ensures Isolated(ps, count, pages, paddr)
  {}

  method SafeFork(k: Kernel, cur: nat, stack: bool, kvm: bool, kalloc: nat -> nat) returns (o: Outcome)
    requires Safe(k) && cur < NPROC && k.procs[cur].state == LIVE
    requires HandsOutNew(k.procs[..], k.count[..], k.pages[..], k.paddr[..], kalloc)
    modifies k`leaked, k.count, k.procs
    ensures o.Ret? && o.value != -1 ==> Safe(k) && 0 <= o.value < NPROC && OwnPages(k.procs[..], o.value)
  {
    hide Isolated, HandsOutNew, IsCopy, Good, Counted, Backed, Enough, MeetsGap, NoNewRegions;
    ghost var ps, cs, gs, fs := k.procs[..], k.count[..], k.pages[..], k.paddr[..];
    GoodAt(ps, gs, fs, NOONE, cur);
    HeldAre(ps, cs, k.leaked, cur, gs, fs);
    o := k.Fork(cur, stack, kvm, kalloc);
    if o.Ret? && o.value != -1 {
      ghost var q := k.procs[o.value];
      CopySizes(ps[cur], q, kalloc);
      SameRegions(cs, gs, fs, k.count[..], fs, ps[cur]);
      ForkIsolates(ps, cs, gs, fs, cur, o.value, q, k.count[..], kalloc);
    }
  }

  /** No other process maps a frame that process j has below its size. */
  ghost predicate OwnPages(ps: seq<Proc>, j: nat)
    requires j < |ps|
  {
    forall i, a: nat, b: nat, f: nat :: 0 <= i < |ps| && i != j && a < ps[j].sz && Maps(ps[j], a, f) ==> !Maps(ps[i], b, f)
  }

  lemma CopySizes(p: Proc, q: Proc, kalloc: nat -> nat)
    requires IsCopy(p, q, kalloc)
    ensures q.sz == p.sz
  {}

  lemma HeldAre(ps: seq<Proc>, count: seq<int>, leaked: seq<nat>, cur: nat, pages: seq<nat>, paddr: seq<nat>)
    requires Good(ps, pages, paddr, NOONE) && Counted(ps, count, leaked) && Backed(count, pages, paddr) && cur < |ps| && ps[cur].state != UNUSED
    ensures |count| == |pages| == REGIONS && |paddr| == REGIONS * MAXPAGES
    ensures forall k :: 0 <= k < REGIONS && One(ps[cur], k) > 0 ==> count[k] > 0
  {
    GoodSizes(ps, pages, paddr, NOONE);
    HeldCounts(ps, count, leaked, cur);
  }

  lemma SameRegions(count: seq<int>, pages: seq<nat>, paddr: seq<nat>, count': seq<int>, paddr': seq<nat>, p: Proc)
    requires |count| == |count'| == |pages| == REGIONS && |paddr| == REGIONS * MAXPAGES && paddr' == paddr
    requires forall k :: 0 <= k < REGIONS && One(p, k) > 0 ==> count[k] > 0
    requires forall k :: 0 <= k < REGIONS ==> count'[k] == count[k] + One(p, k)
    ensures NoNewRegions(count, pages, paddr, count', paddr')
  {
    SameRows(paddr);
  }

  method SafeGrowproc(k: Kernel, cur: nat, n: int, kalloc: nat -> nat) returns (r: int)
    requires Safe(k) && cur < NPROC && k.procs[cur].state == LIVE && -0x8000_0000 <= n < 0x8000_0000
    requires HandsOutNew(k.procs[..], k.count[..], k.pages[..], k.paddr[..], kalloc)
    modifies k.procs
    ensures Safe(k)
  {
    hide Isolated, HandsOutNew, Good, Counted, Backed, Resized;
    ghost var ps := k.procs[..];
    HeldAre(ps, k.count[..], k.leaked, cur, k.pages[..], k.paddr[..]);
    r := k.Growproc(cur, n, kalloc);
    ResizedState(ps[cur], k.procs[cur], n, r, kalloc);
    GoodAt(k.procs[..], k.pages[..], k.paddr[..], NOONE, cur);
    GrowprocIsolates(ps, k.count[..], k.pages[..], k.paddr[..], cur, k.procs[cur], n, r, kalloc);
  }

  lemma ResizedState(p: Proc, q: Proc, n: int, r: int, kalloc: nat -> nat)
    requires Resized(p, q, n, r, kalloc)
    ensures q.state == p.state
  {}

  method SafeExec(k: Kernel, cur: nat, header: bool, ends: seq<nat>, loads: bool, kvm: bool, kalloc: nat -> nat -> nat) returns (r: int)
    requires Safe(k) && cur < NPROC && k.procs[cur].state == LIVE
    requires AllNew(k.procs[..], k.count[..], k.pages[..], k.paddr[..], kalloc)
    modifies k.count, k.paddr, k.procs
    ensures Safe(k)
  {
    hide Isolated, AllNew, Good, Counted, Backed, ImageFrames, RowsKept, RoundUp, MaxEnd, Memory, Loadable, InPages;
    ghost var ps, cs, gs, fs := k.procs[..], k.count[..], k.pages[..], k.paddr[..];
    r := k.Exec(cur, header, ends, loads, kvm, kalloc);
    if r == 0 {
      FewerRegions(cs, gs, fs, k.count[..], k.paddr[..], ps[cur]);
      ExecIsolates(ps, cs, gs, fs, cur, k.procs[cur], k.count[..], k.paddr[..], ends, kalloc);
    }
  }

  lemma FewerRegions(count: seq<int>, pages: seq<nat>, paddr: seq<nat>, count': seq<int>, paddr': seq<nat>, p: Proc)
    requires |count| == |pages| == REGIONS && RowsKept(count', paddr, paddr')
    requires forall k :: 0 <= k < REGIONS ==> count'[k] == count[k] - One(p, k)
    ensures NoNewRegions(count, pages, paddr, count', paddr')
  {}

  method SafeReap(k: Kernel, j: nat)
    requires Safe(k) && j < NPROC && k.procs[j].state == ZOMBIE
    modifies k.count, k.paddr, k.procs
    ensures Safe(k)
  {
    hide Isolated, Good, Counted, Backed, RowsKept;
    ghost var ps, cs, gs, fs := k.procs[..], k.count[..], k.pages[..], k.paddr[..];
    k.Reap(j);
    FewerRegions(cs, gs, fs, k.count[..], k.paddr[..], ps[j]);
    RestateIsolates(ps, cs, gs, fs, j, UNUSED, k.count[..], k.paddr[..]);
  }

  method SafeExit(k: Kernel, cur: nat)
    requires Safe(k) && cur < NPROC && k.procs[cur].state == LIVE
    modifies k.procs
    ensures Safe(k)
  {
    hide Isolated, Good, Counted, Backed;
    ghost var ps, cs, gs, fs := k.procs[..], k.count[..], k.pages[..], k.paddr[..];
    BackedSizes(cs, gs, fs);
    SameRows(fs);
    k.Exit(cur);
    RestateIsolates(ps, cs, gs, fs, cur, ZOMBIE, cs, fs);
  }

  method SafeShmgetat(k: Kernel, cur: nat, key: nat, numPages: int, kalloc: nat -> nat) returns (o: Outcome)
    requires Safe(k) && cur < NPROC && k.procs[cur].state == LIVE
    requires HandsOutNew(k.procs[..], k.count[..], k.pages[..], k.paddr[..], kalloc)
    modifies k.count, k.pages, k.paddr, k.procs
    ensures o.Ret? ==> Safe(k)
  {
    hide Isolated, HandsOutNew, Good, Counted, Backed, HasJoined, Enough, Sound;
    ghost var ps, cs, gs, fs := k.procs[..], k.count[..], k.pages[..], k.paddr[..];
    GoodAt(ps, gs, fs, NOONE, cur);
    SoundTop(ps[cur], gs, fs);
    AreNats(ps, cs, k.leaked);
    GoodSizes(ps, gs, fs, NOONE);
    o := k.Shmgetat(cur, key, numPages, kalloc);
    if o.Ret? && key < REGIONS && ps[cur].vaddr[key] == 0 {
      var isNew := cs[key] == 0;
      var np: int := if isNew then numPages else gs[key];
      if !Refused(ps[cur], isNew, np) {
        ShmgetatIsolates(ps, cs, gs, fs, k.procs[..], k.count[..], k.pages[..], k.paddr[..], cur, key, np, kalloc);
      }
    }
  }

  lemma AreNats(ps: seq<Proc>, count: seq<int>, leaked: seq<nat>)
    requires Counted(ps, count, leaked)
    ensures |count| == REGIONS && forall k :: 0 <= k < REGIONS ==> count[k] >= 0
  {}
}
