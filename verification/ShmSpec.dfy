/** Shared-memory regions: how the regions a process holds tile the top of its address space, and who
    holds them. (p3b kernel/vm.c, proc.c, syscall.c) */
module ShmSpec {
  const PGSIZE := 4096
  const USERTOP := 0xA0000
  const REGIONS := 8          // SHMEM_REGIONS
  const MAXPAGES := 4         // SHMEM_MAX_PAGES
  const NPROC := 64

  /** LIVE stands for sleeping, runnable and running. */
  datatype State = UNUSED | EMBRYO | LIVE | ZOMBIE

  /** A process: vaddr[k] is where region k is attached (0 if it is not), pgdir its user page table as a
      map from page addresses to frames. */
  datatype Proc = Proc(state: State, sz: nat, shmtop: nat, vaddr: seq<nat>, pgdir: map<nat, nat>)

  function RoundUp(a: nat): nat { (a + PGSIZE - 1) / PGSIZE * PGSIZE }

  /** Where region k of n pages ends. */
  function End(v: seq<nat>, pages: seq<nat>, k: nat): nat
    requires k < |v| == |pages|
  {
    v[k] + pages[k] * PGSIZE
  }

  /** Region k is attached and contains address a. */
  predicate Holds(v: seq<nat>, pages: seq<nat>, k: nat, a: nat)
    requires |v| == |pages|
  {
    k < |v| && v[k] != 0 && v[k] <= a < End(v, pages, k)
  }

  /** Pages held in the first n regions. */
  function Held(v: seq<nat>, pages: seq<nat>, n: nat): nat
    requires n <= |v| == |pages|
  {
    if n == 0 then 0 else Held(v, pages, n - 1) + if v[n - 1] != 0 then pages[n - 1] else 0
  }

  ghost predicate Placed(v: seq<nat>, pages: seq<nat>, top: nat) {
    && |v| == |pages| == REGIONS
    && forall k :: 0 <= k < REGIONS && v[k] != 0 ==>
         1 <= pages[k] <= MAXPAGES && v[k] % PGSIZE == 0 && top <= v[k] && End(v, pages, k) <= USERTOP
  }

  /** No two attached regions overlap. */
  ghost predicate Separate(v: seq<nat>, pages: seq<nat>)
    requires |v| == |pages|
  {
    forall j: nat, k: nat :: j < k < |v| && v[j] != 0 && v[k] != 0 ==>
      End(v, pages, j) <= v[k] || End(v, pages, k) <= v[j]
  }

  ghost predicate Covered(v: seq<nat>, pages: seq<nat>, a: nat)
    requires |v| == |pages|
  {
    exists k: nat :: Holds(v, pages, k, a)
  }

  /** The attached regions tile [top, USERTOP). */
  ghost predicate Tiled(v: seq<nat>, pages: seq<nat>, top: nat) {
    && Placed(v, pages, top) && Separate(v, pages)
    && top + PGSIZE * Held(v, pages, REGIONS) == USERTOP
    && forall a: nat :: top <= a < USERTOP ==> Covered(v, pages, a)
  }

  /** The address of page i of region k: shmgetat goes down from the old shmtop. */
  function PageVa(v: seq<nat>, pages: seq<nat>, k: nat, i: nat): nat
    requires k < |v| == |pages| && i < pages[k]
  {
    v[k] + (pages[k] - 1 - i) * PGSIZE
  }

  /** shmem_paddr's entry for page i of region k. */
  function Frame(paddr: seq<nat>, k: nat, i: nat): nat
    requires k < REGIONS && i < MAXPAGES && |paddr| == REGIONS * MAXPAGES
  {
    paddr[k * MAXPAGES + i]
  }

  /** Every page of every attached region maps the region's frame for that page. */
  ghost predicate Shares(p: Proc, pages: seq<nat>, paddr: seq<nat>) {
    && |p.vaddr| == |pages| == REGIONS && |paddr| == REGIONS * MAXPAGES
    && forall k: nat, i: nat :: k < REGIONS && p.vaddr[k] != 0 && i < pages[k] <= MAXPAGES ==>
         var va := PageVa(p.vaddr, pages, k, i);
         va in p.pgdir && p.pgdir[va] == Frame(paddr, k, i)
  }

  /** A process maps whole pages, below its size or in its shared range. */
  ghost predicate OnlyOwn(p: Proc) {
    forall a :: a in p.pgdir ==> a % PGSIZE == 0 && (a < RoundUp(p.sz) || p.shmtop <= a < USERTOP)
  }

  ghost predicate Sound(p: Proc, pages: seq<nat>, paddr: seq<nat>) {
    p.sz <= p.shmtop && Tiled(p.vaddr, pages, p.shmtop) && Shares(p, pages, paddr) && OnlyOwn(p)
  }

  /** All pages below sz are there. */
  ghost predicate Whole(p: Proc) {
    forall a: nat :: a < p.sz && a % PGSIZE == 0 ==> a in p.pgdir
  }

  // ---------- tiling ----------

  lemma {:induction false} HeldBound(v: seq<nat>, pages: seq<nat>, n: nat)
    requires n <= |v| == |pages| && forall k :: 0 <= k < n && v[k] != 0 ==> pages[k] <= MAXPAGES
    ensures Held(v, pages, n) <= n * MAXPAGES
  {
    if n > 0 { HeldBound(v, pages, n - 1); }
  }

  /** At most 32 pages are shared, so shmtop never comes near 0 and shmgetat's subtraction cannot wrap. */
  lemma ShmtopIsHigh(v: seq<nat>, pages: seq<nat>, top: nat)
    requires Tiled(v, pages, top)
    ensures USERTOP - REGIONS * MAXPAGES * PGSIZE <= top <= USERTOP && top % PGSIZE == 0
  {
    HeldBound(v, pages, REGIONS);
  }

  lemma {:induction false} HeldSame(v: seq<nat>, w: seq<nat>, pages: seq<nat>, pages': seq<nat>, n: nat)
    requires n <= |v| == |pages| && n <= |w| == |pages'|
    requires forall k :: 0 <= k < n ==> (v[k] == 0 <==> w[k] == 0) && (v[k] != 0 ==> pages[k] == pages'[k])
    ensures Held(v, pages, n) == Held(w, pages', n)
  {
    if n > 0 { HeldSame(v, w, pages, pages', n - 1); }
  }

  lemma {:induction false} HeldPlus(v: seq<nat>, pages: seq<nat>, key: nat, base: nat, np: nat, n: nat)
    requires key < |v| == |pages| && n <= |v| && v[key] == 0 && base != 0
    ensures Held(v[key := base], pages[key := np], n) == Held(v, pages, n) + if key < n then np else 0
  {
    if n > 0 { HeldPlus(v, pages, key, base, np, n - 1); }
  }

  /** Nothing attached tiles the empty range. */
  lemma NoRegions(v: seq<nat>, pages: seq<nat>)
    requires |v| == |pages| == REGIONS && forall k :: 0 <= k < REGIONS ==> v[k] == 0
    ensures Tiled(v, pages, USERTOP)
  {
    var w := seq(REGIONS, _ => 0);
    assert v == w;
    HeldNone(v, pages, REGIONS);
  }

  lemma {:induction false} HeldNone(v: seq<nat>, pages: seq<nat>, n: nat)
    requires n <= |v| == |pages| && forall k :: 0 <= k < n ==> v[k] == 0
    ensures Held(v, pages, n) == 0
  {
    if n > 0 { HeldNone(v, pages, n - 1); }
  }

  /** A new page count of a region that the process does not hold does not matter to it. */
  lemma TiledElsewhere(v: seq<nat>, pages: seq<nat>, top: nat, key: nat, np: nat)
    requires Tiled(v, pages, top) && key < REGIONS && (v[key] == 0 || np == pages[key])
    ensures Tiled(v, pages[key := np], top)
  {
    var pages' := pages[key := np];
    HeldSame(v, v, pages, pages', REGIONS);
    forall a: nat | top <= a < USERTOP ensures Covered(v, pages', a) {
      assert Covered(v, pages, a);
      var k: nat :| Holds(v, pages, k, a);
      assert Holds(v, pages', k, a);
    }
  }

  /** Attaching np pages just below shmtop extends the tiling. */
  lemma AttachTiles(v: seq<nat>, pages: seq<nat>, top: nat, key: nat, np: nat)
    requires Tiled(v, pages, top) && key < REGIONS && v[key] == 0 && 1 <= np <= MAXPAGES && np * PGSIZE < top
    ensures Tiled(v[key := top - np * PGSIZE], pages[key := np], top - np * PGSIZE)
  {
    hide Placed, Separate, Covered, Held, Holds;
    TiledSizes(v, pages, top);
    ShmtopIsHigh(v, pages, top);
    HeldPlus(v, pages, key, top - np * PGSIZE, np, REGIONS);
    AttachPlaced(v, pages, top, key, np);
    AttachCovers(v, pages, top, key, np, v[key := top - np * PGSIZE], pages[key := np], top - np * PGSIZE);
  }

  lemma AttachPlaced(v: seq<nat>, pages: seq<nat>, top: nat, key: nat, np: nat)
    requires Placed(v, pages, top) && Separate(v, pages) && key < REGIONS && v[key] == 0
    requires 1 <= np <= MAXPAGES && np * PGSIZE < top <= USERTOP && top % PGSIZE == 0
    ensures Placed(v[key := top - np * PGSIZE], pages[key := np], top - np * PGSIZE)
    ensures Separate(v[key := top - np * PGSIZE], pages[key := np])
  {
    var w, pages' := v[key := top - np * PGSIZE], pages[key := np];
    assert forall k: nat :: k < REGIONS && k != key ==> End(w, pages', k) == End(v, pages, k) && w[k] == v[k];
    assert End(w, pages', key) == top;
  }

  lemma AttachCovers(v: seq<nat>, pages: seq<nat>, top: nat, key: nat, np: nat, w: seq<nat>, pages': seq<nat>, base: nat)
    requires Tiled(v, pages, top) && |v| == |pages| == REGIONS && key < REGIONS && v[key] == 0 && np * PGSIZE < top
    requires base == top - np * PGSIZE && w == v[key := base] && pages' == pages[key := np]
    ensures forall a: nat :: base <= a < USERTOP ==> Covered(w, pages', a)
  {
    hide Placed, Separate, Held;
    forall a: nat | base <= a < USERTOP ensures Covered(w, pages', a) {
      if a < top {
        assert Holds(w, pages', key, a);
      } else {
        assert Covered(v, pages, a);
        var k: nat :| Holds(v, pages, k, a);
        assert Holds(w, pages', k, a);
      }
    }
  }

  lemma TiledSizes(v: seq<nat>, pages: seq<nat>, top: nat)
    requires Tiled(v, pages, top)
    ensures |v| == |pages| == REGIONS
  {}

  /** The least attached address above a is where the region that contains a ends. */
  lemma BoundIsEnd(v: seq<nat>, pages: seq<nat>, top: nat, a: nat, k: nat, bound: nat)
    requires Tiled(v, pages, top) && Holds(v, pages, k, a)
    requires bound <= USERTOP && forall j :: 0 <= j < REGIONS && v[j] > a ==> bound <= v[j]
    requires bound == USERTOP || exists j :: 0 <= j < REGIONS && v[j] == bound > a
    ensures bound == End(v, pages, k)
  {
    var e := End(v, pages, k);
    if e < USERTOP {
      assert Covered(v, pages, e);
      var j: nat :| Holds(v, pages, j, e);
      assert v[j] == e > a;
    }
    if bound != USERTOP {
      var j :| 0 <= j < REGIONS && v[j] == bound > a;
      assert e <= v[j];
    }
  }

  /** No address lies in two regions. */
  lemma HolderUnique(v: seq<nat>, pages: seq<nat>, top: nat, j: nat, k: nat, a: nat)
    requires Tiled(v, pages, top) && Holds(v, pages, j, a) && Holds(v, pages, k, a)
    ensures j == k
  {}

  /** The n bytes from a lie in [0, sz) or in one single region. */
  ghost predicate Fits(p: Proc, pages: seq<nat>, a: nat, n: int)
    requires |p.vaddr| == |pages|
  {
    || (a < p.sz && a + n <= p.sz)
    || exists k: nat :: Holds(p.vaddr, pages, k, a) && a + n <= End(p.vaddr, pages, k)
  }

  // ---------- who is attached ----------

  function One(p: Proc, k: nat): nat { if p.state != UNUSED && k < |p.vaddr| && p.vaddr[k] != 0 then 1 else 0 }

  /** How many processes hold region k. */
  function Attached(ps: seq<Proc>, k: nat): nat {
    if ps == [] then 0 else Attached(ps[..|ps|-1], k) + One(ps[|ps|-1], k)
  }

  lemma {:induction false} AttachedUpdate(ps: seq<Proc>, i: nat, p: Proc, k: nat)
    requires i < |ps|
    ensures Attached(ps[i := p], k) == Attached(ps, k) - One(ps[i], k) + One(p, k)
  {
    var n := |ps| - 1;
    if i == n {
      assert ps[i := p][..n] == ps[..n];
    } else {
      assert ps[i := p][..n] == ps[..n][i := p];
      AttachedUpdate(ps[..n], i, p, k);
    }
  }

  lemma {:induction false} AttachedSome(ps: seq<Proc>, i: nat, k: nat)
    requires i < |ps|
    ensures One(ps[i], k) <= Attached(ps, k)
  {
    if i < |ps| - 1 { AttachedSome(ps[..|ps|-1], i, k); }
  }

  lemma {:induction false} AttachedNone(ps: seq<Proc>, k: nat)
    requires forall i :: 0 <= i < |ps| ==> One(ps[i], k) == 0
    ensures Attached(ps, k) == 0
  {
    if ps != [] { AttachedNone(ps[..|ps|-1], k); }
  }

  // ---------- what sharing means ----------

  /** Two processes that hold region k have the same frame at the same offset from their own start of it. */
  lemma SameFrames(p: Proc, q: Proc, pages: seq<nat>, paddr: seq<nat>, k: nat, o: nat)
    requires Sound(p, pages, paddr) && Sound(q, pages, paddr) && k < REGIONS
    requires p.vaddr[k] != 0 && q.vaddr[k] != 0 && o < pages[k]
    ensures p.vaddr[k] + o * PGSIZE in p.pgdir && q.vaddr[k] + o * PGSIZE in q.pgdir
    ensures p.pgdir[p.vaddr[k] + o * PGSIZE] == q.pgdir[q.vaddr[k] + o * PGSIZE]
  {
    var i := pages[k] - 1 - o;
    assert PageVa(p.vaddr, pages, k, i) == p.vaddr[k] + o * PGSIZE;
    assert PageVa(q.vaddr, pages, k, i) == q.vaddr[k] + o * PGSIZE;
  }

  /** Every page from shmtop up is mapped: copyuvm never finds one missing there. */
  lemma SharedIsMapped(p: Proc, pages: seq<nat>, paddr: seq<nat>, a: nat)
    requires Sound(p, pages, paddr) && p.shmtop <= a < USERTOP && a % PGSIZE == 0
    ensures a in p.pgdir
  {
    assert Covered(p.vaddr, pages, a);
    var k: nat :| Holds(p.vaddr, pages, k, a);
    hide Covered, OnlyOwn, Separate, Held;
    var i := PageIndex(p.vaddr[k], pages[k], a);
    assert PageVa(p.vaddr, pages, k, i) == a;
  }

  /** Counting a region's pages from the top, the one at a. */
  function PageIndex(base: nat, n: nat, a: nat): (i: nat)
    requires base % PGSIZE == 0 && a % PGSIZE == 0 && base <= a < base + n * PGSIZE
    ensures i < n && base + (n - 1 - i) * PGSIZE == a
  {
    var o := (a - base) / PGSIZE;
    assert base + o * PGSIZE == a;
    n - 1 - o
  }
}
