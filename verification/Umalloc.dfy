/** The user-level allocator: headers in memory, the circular free list, free, morecore, malloc.
    Addresses count header-sized units; 0 is the null pointer.  (user/umalloc.c) */
module Umalloc {
  import opened CTypes
  import opened FreeList

  const HEADER := 8             // sizeof(Header)
  const MINUNITS := 4096        // least number of units asked of sbrk
  const MAXREQUEST := 0x7FFF_FFF0   // the largest nbytes whose byte count reaches sbrk as a positive int

  datatype Header = Header(ptr: nat, size: nat)

  /** The k-th header on the ring: base, then the free blocks in address order. */
  function At(base: nat, fl: seq<Blk>, k: nat): nat
    requires k <= |fl|
  {
    if k == 0 then base else fl[k - 1].addr
  }

  /** The index after k on the ring. */
  function Succ(fl: seq<Blk>, k: nat): (j: nat)
    requires k <= |fl|
    ensures j <= |fl| && (j > 0 ==> j == k + 1)
  {
    if k == |fl| then 0 else k + 1
  }

  function SizeAt(fl: seq<Blk>, k: nat): nat
    requires k <= |fl|
  {
    if k == 0 then 0 else fl[k - 1].size
  }

  /** The k-th header of the ring is in memory, with the right link and size. */
  ghost predicate Linked(mem: map<nat, Header>, base: nat, fl: seq<Blk>, k: nat)
    requires k <= |fl|
  {
    At(base, fl, k) in mem && mem[At(base, fl, k)] == Header(At(base, fl, Succ(fl, k)), SizeAt(fl, k))
  }

  /** Memory holds one cycle through base and the blocks of fl, in address order. */
  ghost predicate Ring(mem: map<nat, Header>, base: nat, fl: seq<Blk>) {
    && Canonical(fl) && (forall k :: 0 <= k < |fl| ==> base < fl[k].addr)
    && (forall k | 0 <= k <= |fl| :: Linked(mem, base, fl, k))
  }

  ghost predicate LiveUnit(live: map<nat, nat>, u: nat) {
    exists a :: a in live && a <= u < a + live[a]
  }

  /** Free and live blocks are pairwise disjoint and together make up the arena, which lies above base. */
  ghost predicate Owned(base: nat, fl: seq<Blk>, live: map<nat, nat>, arena: set<nat>) {
    && Canonical(fl) && (forall u :: u in arena ==> base < u)
    && (forall a :: a in live ==> live[a] > 0 && Apart(fl, Blk(a, live[a])))
    && (forall a, c :: a in live && c in live && a < c ==> a + live[a] <= c)
    && (forall u: nat :: u in arena <==> Covers(fl, u) || LiveUnit(live, u))
  }

  /** The header of every live block still holds its size. */
  ghost predicate LiveHeaders(mem: map<nat, Header>, live: map<nat, nat>) {
    forall a :: a in live ==> a in mem && mem[a].size == live[a]
  }

  class Allocator {
    const base: nat
    var mem: map<nat, Header>
    var freep: nat
    ghost var fl: seq<Blk>          // the free blocks, in address order
    ghost var pos: nat              // freep is the pos-th header of the ring
    ghost var live: map<nat, nat>   // blocks handed out: header address -> units
    ghost var arena: set<nat>       // every unit obtained from sbrk

    constructor (base: nat)
      requires base > 0
      ensures this.base == base && freep == 0 && fl == [] && live == map[] && arena == {} && Valid()
    {
      this.base := base;
      mem, freep := map[], 0;
      fl, pos, live, arena := [], 0, map[], {};
    }

    ghost predicate OnRing()
      reads this
    {
      freep != 0 && base > 0 && Ring(mem, base, fl) && pos <= |fl| && freep == At(base, fl, pos)
    }

    ghost predicate Valid()
      reads this
    {
      && base > 0 && (if freep == 0 then fl == [] && arena == {} else OnRing())
      && Owned(base, fl, live, arena) && LiveHeaders(mem, live)
    }

    /** free's search from freep: the ring position whose gap holds bp, found within one lap. */
    method Search(bp: nat) returns (p: nat, ghost k: nat)
      requires OnRing() && base < bp && Apart(fl, Blk(bp, 1))
      ensures k == Position(fl, Blk(bp, 1)) && p == At(base, fl, Position(fl, Blk(bp, 1)))
    {
      hide Position, Canonical, Apart;
      ghost var j := Position(fl, Blk(bp, 1));
      ghost var lap := 0;
      p, k := freep, pos;
      Unfold(mem, base, fl, k);
      while !(bp > p && bp < mem[p].ptr)
        invariant k <= |fl| && p == At(base, fl, k) && p in mem && mem[p].ptr == At(base, fl, Succ(fl, k))
        invariant k == if pos + lap <= |fl| then pos + lap else pos + lap - (|fl| + 1)
        invariant 0 <= lap <= Distance(fl, pos, j)
        decreases Distance(fl, pos, j) - lap
      {
        GapIff(base, fl, bp, k);
        if p >= mem[p].ptr && (bp > p || bp < mem[p].ptr) {
          break;
        }
        p, k := mem[p].ptr, Succ(fl, k);
        Unfold(mem, base, fl, k);
        lap := lap + 1;
      }
      GapIff(base, fl, bp, k);
    }

    /** The body of free: links in the block whose header is bp. */
    method Link(bp: nat)
      requires OnRing() && base < bp && bp in mem && mem[bp].size > 0 && Apart(fl, Blk(bp, mem[bp].size))
      modifies this`mem, this`freep, this`fl, this`pos
      ensures OnRing() && fl == Freed(old(fl), Blk(bp, old(mem[bp].size)))
      ensures pos == Position(old(fl), Blk(bp, old(mem[bp].size)))
      ensures forall a :: a in old(mem) && a != bp && a != base && (forall k | 0 <= k < |old(fl)| :: a != old(fl)[k].addr) ==>
                a in mem && mem[a] == old(mem)[a]
    {
      hide Position, Canonical, Apart, Insert, MergeAt, Ring, HalfLinked, At, Coalesce, Freed, Succ, SizeAt;
      ghost var f, b := fl, Blk(bp, mem[bp].size);
      var p;
      ghost var k;
      ApartShrink(f, b);
      p, k := Search(bp);
      Unfold(mem, base, f, k);
      Unfold(mem, base, f, Succ(f, k));
      SameGap(f, b, Blk(bp, 1));
      var next := mem[p].ptr;
      ghost var m0 := mem;
      if bp + mem[bp].size == next {
        mem := mem[bp := Header(mem[next].ptr, mem[bp].size + mem[next].size)];
      } else {
        mem := mem[bp := Header(next, mem[bp].size)];
      }
      HalfWay(m0, base, f, k, b);
      assert mem == Upper(m0, next, b);
      ghost var m1, f1 := mem, MergeAt(Insert(f, k, b), k);
      if p + mem[p].size == bp {
        mem := mem[p := Header(mem[bp].ptr, mem[p].size + mem[bp].size)];
      } else {
        mem := mem[p := Header(bp, mem[p].size)];
      }
      freep := p;
      LinkDown(m1, base, f1, k, bp);
      assert mem == Lower(m1, p, bp);
      fl := Coalesce(f, k, b);
      pos := k;
      Coalesced(f, k, b);
      forall a | a in old(mem) && a != bp && a != base && (forall i | 0 <= i < |f| :: a != f[i].addr) ensures a != p {
        OffRing(base, f, k, a);
      }
    }

    /** free(ap): the block goes back on the list; nothing else changes hands. */
    method Free(ap: nat)
      requires Valid() && ap > 0 && ap - 1 in live
      modifies this`mem, this`freep, this`fl, this`pos, this`live
      ensures Valid() && freep != 0 && live == old(live) - {ap - 1}
      ensures fl == Freed(old(fl), Blk(ap - 1, old(live)[ap - 1])) && pos == Position(old(fl), Blk(ap - 1, old(live)[ap - 1]))
    {
      hide Owned, Freed, Ring, Apart, Position;
      var bp := ap - 1;
      ghost var f, l := fl, live;
      LiveIsHeap(base, f, l, arena, bp);
      Link(bp);
      live := live - {bp};
      OwnedFree(base, f, l, arena, bp);
      forall a | a in live
        ensures a in mem && mem[a].size == live[a]
      {
        LiveNotFree(base, f, l, arena, a);
      }
    }

    /** Asks sbrk for at least nu units and frees them.  more is what sbrk returns. */
    method Morecore(nu: nat, more: Option<nat>) returns (r: nat)
      requires Valid() && freep != 0 && nu > 0 && Fresh(more) && (more.Some? ==> Genuine(nu))
      modifies this
      ensures Valid() && live == old(live) && freep != 0
      ensures r == 0 <==> more.None?
      ensures more.None? ==> fl == old(fl) && freep == old(freep) && pos == old(pos) && mem == old(mem) && arena == old(arena)
      ensures more.Some? ==> r == freep && fl == Freed(old(fl), Blk(more.value, AtLeast(nu)))
      ensures more.Some? ==> pos == Position(old(fl), Blk(more.value, AtLeast(nu))) && Apart(old(fl), Blk(more.value, AtLeast(nu)))
      ensures more.Some? ==> arena == old(arena) + UnitSet(more.value, AtLeast(nu))
    {
      hide Owned, Freed, Ring, UnitSet, Position;
      var nu := nu;
      if nu < MINUNITS {
        nu := MINUNITS;
      }
      if more.None? {
        return 0;
      }
      var hp := more.value;
      ghost var l, ar := live, arena;
      OwnedNew(base, fl, live, arena, hp, nu);
      NewNotOnRing(base, fl, live, arena, hp);
      RingKept(mem, base, fl, hp, Header(if hp in mem then mem[hp].ptr else 0, nu));
      mem := mem[hp := Header(if hp in mem then mem[hp].ptr else 0, nu)];
      arena := arena + UnitSet(hp, nu);
      live := live[hp := nu];
      Free(hp + 1);
      assert live == l;
      return freep;
    }

    /** malloc's two ways of taking n units from the block at p, whose predecessor on the ring is prevp. */
    method Take(prevp: nat, p: nat, n: nat, ghost q: nat) returns (r: nat)
      requires Valid() && freep != 0 && q < |fl| && 0 < n <= fl[q].size && prevp == At(base, fl, q) && p == fl[q].addr
      modifies this`mem, this`freep, this`fl, this`pos, this`live
      ensures Valid() && freep != 0 && fl == Carved(old(fl), q, n) && pos == q
      ensures Taken(old(fl), q, n).addr !in old(live) && live == old(live)[Taken(old(fl), q, n).addr := n]
      ensures r == Taken(old(fl), q, n).addr + 1
    {
      hide Owned, Ring, Carved, Canonical, LiveHeaders;
      ghost var f, l, m := fl, live, mem;
      var t := p;
      Unfold(mem, base, fl, q);
      Unfold(mem, base, fl, q + 1);
      OwnedTake(base, f, l, arena, q, n);
      if mem[p].size == n {
        mem := mem[prevp := Header(mem[p].ptr, mem[prevp].size)];
        CarveExact(m, base, f, q, mem);
      } else {
        mem := mem[p := Header(mem[p].ptr, mem[p].size - n)];
        t := p + mem[p].size;
        mem := mem[t := Header(if t in mem then mem[t].ptr else 0, n)];
        CarveTail(m, base, f, q, n, mem[t], mem);
      }
      CarvedAt(m, base, f, q, n);
      freep, fl, live := prevp, Carved(f, q, n), l[t := n];
      pos := q;
      forall a | a in l && a != t
        ensures a in m ==> a in mem && mem[a] == m[a]
      {
        LiveNotFree(base, f, l, arena, a);
      }
      StillHeaded(m, mem, l, t, n);
      return t + 1;
    }

    /** malloc's first step: an empty ring on first use. */
    method Start() returns (prevp: nat)
      requires Valid()
      modifies this`mem, this`freep, this`pos
      ensures Valid() && prevp == freep != 0 && pos == if old(freep) == 0 then 0 else old(pos)
    {
      hide Owned;
      prevp := freep;
      if prevp == 0 {
        EmptyRing(base, mem[base := Header(base, 0)]);
        NoLive(base, live, arena);
        mem, freep, prevp := mem[base := Header(base, 0)], base, base;
        pos := 0;
      }
    }

    /** malloc(nbytes); more is what sbrk would return.  0 stands for the null pointer.
        It calls sbrk at most once, and then only if no free block is large enough. */
    method Malloc(nbytes: nat, more: Option<nat>) returns (r: nat)
      requires Valid() && nbytes < UINT && Fresh(more)
      requires more.Some? && NoFit(fl, Units(nbytes)) ==> Genuine(Units(nbytes))
      modifies this
      ensures Valid() && freep != 0
      ensures r == 0 <==> NoFit(old(fl), Units(nbytes)) && more.None?
      ensures r == 0 ==> fl == old(fl) && live == old(live) && pos == if old(freep) == 0 then 0 else old(pos)
      ensures arena == old(arena) + Obtained(old(fl), Units(nbytes), more)
      ensures r != 0 ==> r - 1 !in old(live) && live == old(live)[r - 1 := Units(nbytes)]
      ensures r != 0 ==> TookFirstFit(Grown(old(fl), Units(nbytes), more), StartOf(old(fl), old(pos), Units(nbytes), more),
                                      Units(nbytes), r - 1, fl, pos)
    {
      hide At, SizeAt, Succ, Owned, Ring, Freed, Canonical, Position, UnitSet, AllSmall, NoFit, Genuine, Obtained, Grown, StartOf, Refilled, LiveHeaders, FirstFit, Carved, TookFirstFit, Distance, Apart, Taken;
      var n := (nbytes + HEADER - 1) % UINT / HEADER + 1;
      var prevp := Start();
      Unfold(mem, base, fl, pos);
      var p := mem[prevp].ptr;
      ghost var f, q, ar, l := fl, pos, arena, live;
      ghost var kp: nat, k: nat, seen: int, asked := pos, Succ(fl, pos), 0, false;
      NoneSeen(fl, k, n);
      NotAsked(f, q, ar, n, more);
      while true
        invariant Valid() && freep != 0 && live == l
        invariant kp <= |fl| && k == Succ(fl, kp) && prevp == At(base, fl, kp) && p == At(base, fl, k)
        invariant seen == Distance(fl, Succ(fl, pos), k) && AllSmall(fl, Succ(fl, pos), seen, n)
        invariant Refilled(asked, f, q, ar, n, more, fl, pos, arena)
        decreases !asked, |fl| - seen
      {
        Unfold(mem, base, fl, k);
        if mem[p].size >= n {
          FitIsFirst(fl, Succ(fl, pos), k, n);
          BlockAt(base, fl, k);
          ghost var f', from := fl, pos;
          r := Take(prevp, p, n, k - 1);
          FitTaken(f', from, n, k - 1);
          Source(asked, f, q, old(pos), ar, n, more, f', from, arena);
          return;
        }
        if p == freep {
          SameIndex(mem, base, fl, k, pos);
          WholeLap(fl, pos, n);
          OwnedIsCanonical(base, fl, live, arena);
          AllRefused(asked, f, q, ar, n, more, fl, pos, arena);
          p := Morecore(n, more);
          if p == 0 {
            return 0;
          }
          Enough(f, Blk(more.value, AtLeast(n)), n);
          AskedOnce(f, q, ar, n, more);
          asked, k, seen := true, pos, -1;
          NoneSeen(fl, Succ(fl, pos), n);
        } else {
          if Succ(fl, k) == Succ(fl, pos) { SuccInjective(fl, k, pos); }
          OneMoreSeen(fl, Succ(fl, pos), k, n);
        }
        Unfold(mem, base, fl, k);
        prevp, p := p, mem[p].ptr;
        kp, k, seen := k, Succ(fl, k), seen + 1;
      }
    }

    /** sbrk gives memory above base and above everything it gave before. */
    ghost predicate Fresh(more: Option<nat>)
      reads this
    {
      more.Some? ==> base < more.value && forall u :: u in arena ==> u < more.value
    }
  }

  function AtLeast(nu: nat): nat { if nu < MINUNITS then MINUNITS else nu }

  /** {a, ..., a+n-1} */
  ghost function UnitSet(a: nat, n: nat): (s: set<nat>)
    ensures forall u: nat :: u in s <==> a <= u < a + n
  {
    if n == 0 then {} else UnitSet(a, n - 1) + {a + n - 1}
  }

  /** What sbrk's int parameter receives for nu units, after an unsigned multiplication. */
  function SbrkArgument(nu: nat): int { ToInt(nu * HEADER % UINT) }

  /** sbrk is asked for the memory that morecore then uses. */
  predicate Genuine(nu: nat) { SbrkArgument(AtLeast(nu)) == AtLeast(nu) * HEADER }

  /** malloc asks sbrk for what it uses exactly up to MAXREQUEST bytes, and for the last sizes, whose
      rounding wraps to a block of one unit. */
  lemma GenuineRequest(nbytes: nat)
    requires nbytes < UINT
    ensures Genuine(Units(nbytes)) <==> nbytes <= MAXREQUEST || nbytes + HEADER - 1 >= UINT
    ensures nbytes + HEADER - 1 >= UINT ==> Units(nbytes) == 1 && SbrkArgument(AtLeast(1)) == MINUNITS * HEADER
  {
    if nbytes + HEADER - 1 >= UINT {
      assert nbytes + HEADER - 1 - UINT < HEADER;
    } else {
      var bytes := AtLeast(Units(nbytes)) * HEADER;
      assert bytes < UINT + HEADER;
      assert bytes < INT <==> nbytes <= MAXREQUEST;
    }
  }

  /** One byte more asks for a negative number of bytes, and the last size whose rounding does not wrap
      for none: sbrk then adds no memory but does not fail. */
  lemma BeyondRequest()
    ensures SbrkArgument(AtLeast(Units(MAXREQUEST + 1))) == -INT
    ensures SbrkArgument(AtLeast(Units(UINT - HEADER))) == 0
  {
    assert Units(MAXREQUEST + 1) * HEADER == INT && Units(UINT - HEADER) * HEADER == UINT;
  }

  /** Header-sized units for nbytes of data, header included; the sum is unsigned. */
  function Units(nbytes: nat): nat { (nbytes + HEADER - 1) % UINT / HEADER + 1 }

  lemma OwnedTake(base: nat, fl: seq<Blk>, live: map<nat, nat>, arena: set<nat>, q: nat, n: nat)
    requires Owned(base, fl, live, arena) && q < |fl| && 0 < n <= fl[q].size
    ensures Taken(fl, q, n).addr !in live
    ensures Owned(base, Carved(fl, q, n), live[Taken(fl, q, n).addr := n], arena)
  {
    var b, f := Taken(fl, q, n), Carved(fl, q, n);
    var l := live[b.addr := n];
    hide Canonical, Covers, Carved, LiveUnit;
    CarvedUnits(fl, q, n);
    assert b.addr !in live;
    assert l - {b.addr} == live;
    forall a | a in live
      ensures Apart(f, Blk(a, live[a])) && (a + live[a] <= b.addr || b.End() <= a)
    {
      ApartNoCover(fl, Blk(a, live[a]));
      ApartByUnits(f, Blk(a, live[a]));
      var u := if a < b.addr then b.addr else a;
      assert b.Has(u) ==> Covers(fl, u) && !Blk(a, live[a]).Has(u);
    }
    forall u: nat
      ensures LiveUnit(l, u) <==> LiveUnit(live, u) || b.Has(u)
    {
      LiveSplit(l, b.addr, u);
    }
  }

  lemma CarvedAt(mem: map<nat, Header>, base: nat, fl: seq<Blk>, q: nat, n: nat)
    requires Ring(mem, base, fl) && base > 0 && q < |fl| && 0 < n <= fl[q].size
    ensures q <= |Carved(fl, q, n)| && At(base, Carved(fl, q, n), q) == At(base, fl, q) > 0
  {}

  lemma CarveExact(mem: map<nat, Header>, base: nat, fl: seq<Blk>, q: nat, mem': map<nat, Header>)
    requires Ring(mem, base, fl) && q < |fl| && fl[q].size > 0
    requires mem' == mem[At(base, fl, q) := Header(At(base, fl, Succ(fl, q + 1)), SizeAt(fl, q))]
    ensures Ring(mem', base, Carved(fl, q, fl[q].size))
  {
    CarvedUnits(fl, q, fl[q].size);
    assert Carved(fl, q, fl[q].size) == fl[..q] + fl[q + 1..];
    forall i | 0 <= i <= |fl| && i != q
      ensures At(base, fl, i) != At(base, fl, q)
    {
      SameIndex'(base, fl, i, q);
    }
    hide Canonical, Carved;
    DropLinked(mem, base, fl, q, mem');
    LinkedAll(mem', base, Carved(fl, q, fl[q].size));
  }

  /** Header q linked past block q. */
  lemma DropLinked(mem: map<nat, Header>, base: nat, fl: seq<Blk>, q: nat, mem': map<nat, Header>)
    requires LinkedBut(mem, base, fl, -1) && q < |fl| && (forall i | 0 <= i <= |fl| && i != q :: At(base, fl, i) != At(base, fl, q))
    requires mem' == mem[At(base, fl, q) := Header(At(base, fl, Succ(fl, q + 1)), SizeAt(fl, q))]
    ensures LinkedBut(mem', base, fl[..q] + fl[q + 1..], -1)
  {
    var r := fl[..q] + fl[q + 1..];
    assert forall i | 0 <= i <= q :: At(base, r, i) == At(base, fl, i) && SizeAt(r, i) == SizeAt(fl, i);
    assert forall i | q < i <= |r| :: At(base, r, i) == At(base, fl, i + 1) && SizeAt(r, i) == SizeAt(fl, i + 1);
    forall i | 0 <= i <= |r|
      ensures Linked(mem', base, r, i)
    {
      assert Linked(mem, base, fl, if i <= q then i else i + 1);
    }
  }

  lemma CarveTail(mem: map<nat, Header>, base: nat, fl: seq<Blk>, q: nat, n: nat, h: Header, mem': map<nat, Header>)
    requires Ring(mem, base, fl) && q < |fl| && 0 < n < fl[q].size
    requires mem' == mem[fl[q].addr := Header(At(base, fl, Succ(fl, q + 1)), fl[q].size - n)][Taken(fl, q, n).addr := h]
    ensures Ring(mem', base, Carved(fl, q, n))
  {
    hide Covers, Apart, Blk.Has, Linked, Ring;
    RingFacts(mem, base, fl);
    CarvedUnits(fl, q, n);
    TailApart(base, fl, q, n);
    var r, a := Carved(fl, q, n), Taken(fl, q, n).addr;
    hide Canonical, Taken;
    forall i | 0 <= i <= |r|
      ensures Linked(mem', base, r, i)
    {
      CarvedLink(mem, base, fl, q, fl[q].size - n, a, h, mem', i);
    }
    RingFrom(mem', base, r);
  }

  lemma RingFacts(mem: map<nat, Header>, base: nat, fl: seq<Blk>)
    requires Ring(mem, base, fl)
    ensures Canonical(fl) && (forall k :: 0 <= k < |fl| ==> base < fl[k].addr) && forall k | 0 <= k <= |fl| :: Linked(mem, base, fl, k)
  {}

  lemma RingFrom(mem: map<nat, Header>, base: nat, fl: seq<Blk>)
    requires Canonical(fl) && (forall k :: 0 <= k < |fl| ==> base < fl[k].addr) && forall k | 0 <= k <= |fl| :: Linked(mem, base, fl, k)
    ensures Ring(mem, base, fl)
  {}

  lemma StillHeaded(mem: map<nat, Header>, mem': map<nat, Header>, live: map<nat, nat>, t: nat, n: nat)
    requires LiveHeaders(mem, live) && t in mem' && mem'[t].size == n
    requires forall a :: a in live && a != t && a in mem ==> a in mem' && mem'[a] == mem[a]
    ensures LiveHeaders(mem', live[t := n])
  {}

  /** No header of the ring is where the tail of block q starts, and only block q's is where it starts. */
  lemma TailApart(base: nat, fl: seq<Blk>, q: nat, n: nat)
    requires Canonical(fl) && (forall k :: 0 <= k < |fl| ==> base < fl[k].addr) && q < |fl| && 0 < n < fl[q].size
    ensures forall i | 0 <= i <= |fl| :: At(base, fl, i) != Taken(fl, q, n).addr && (i != q + 1 ==> At(base, fl, i) != fl[q].addr)
  {}

  lemma CarvedLink(mem: map<nat, Header>, base: nat, fl: seq<Blk>, q: nat, m: nat, a: nat, h: Header, mem': map<nat, Header>, i: nat)
    requires q < |fl| && i <= |fl| && Linked(mem, base, fl, i)
    requires mem' == mem[fl[q].addr := Header(At(base, fl, Succ(fl, q + 1)), m)][a := h]
    requires At(base, fl, i) != a && (i != q + 1 ==> At(base, fl, i) != fl[q].addr)
    ensures Linked(mem', base, fl[q := Blk(fl[q].addr, m)], i)
  {}

  ghost predicate NoFit(fl: seq<Blk>, n: nat) { forall k :: 0 <= k < |fl| ==> fl[k].size < n }

  /** The units malloc obtains from sbrk. */
  ghost function Obtained(fl: seq<Blk>, n: nat, more: Option<nat>): set<nat> {
    if NoFit(fl, n) && more.Some? then UnitSet(more.value, AtLeast(n)) else {}
  }

  /** The free list malloc takes its block from. */
  ghost function Grown(fl: seq<Blk>, n: nat, more: Option<nat>): seq<Blk> {
    if NoFit(fl, n) && more.Some? then Freed(fl, Blk(more.value, AtLeast(n))) else fl
  }

  /** The ring position it starts from. */
  ghost function StartOf(fl: seq<Blk>, pos: nat, n: nat, more: Option<nat>): nat {
    if NoFit(fl, n) && more.Some? then Position(fl, Blk(more.value, AtLeast(n))) else pos
  }

  /** Where malloc stands: the list, position and units are those before the call or, once sbrk was asked,
      those after morecore, which left a block large enough. */
  ghost predicate Refilled(asked: bool, f: seq<Blk>, q: nat, ar: set<nat>, n: nat, more: Option<nat>,
                           g: seq<Blk>, from: nat, got: set<nat>)
  {
    if asked then NoFit(f, n) && more.Some? && g == Freed(f, Blk(more.value, AtLeast(n))) && !NoFit(g, n)
                  && got == ar + UnitSet(more.value, AtLeast(n)) && from == Position(f, Blk(more.value, AtLeast(n)))
    else g == f && got == ar && from == q
  }

  lemma NotAsked(f: seq<Blk>, q: nat, ar: set<nat>, n: nat, more: Option<nat>)
    ensures Refilled(false, f, q, ar, n, more, f, q, ar)
  {}

  lemma AskedOnce(f: seq<Blk>, q: nat, ar: set<nat>, n: nat, more: Option<nat>)
    requires NoFit(f, n) && more.Some? && !NoFit(Freed(f, Blk(more.value, AtLeast(n))), n)
    ensures Refilled(true, f, q, ar, n, more, Freed(f, Blk(more.value, AtLeast(n))), Position(f, Blk(more.value, AtLeast(n))),
                     ar + UnitSet(more.value, AtLeast(n)))
  {}

  lemma AllRefused(asked: bool, f: seq<Blk>, q: nat, ar: set<nat>, n: nat, more: Option<nat>,
                   g: seq<Blk>, from: nat, got: set<nat>)
    requires Refilled(asked, f, q, ar, n, more, g, from, got) && NoFit(g, n)
    ensures !asked && g == f && got == ar && from == q && (more.None? ==> ar == ar + Obtained(f, n, more))
  {}

  lemma Source(asked: bool, f: seq<Blk>, q: nat, q0: nat, ar: set<nat>, n: nat, more: Option<nat>,
               g: seq<Blk>, from: nat, got: set<nat>)
    requires Refilled(asked, f, q, ar, n, more, g, from, got) && !NoFit(g, n) && (f != [] ==> q == q0)
    ensures g == Grown(f, n, more) && from == StartOf(f, q0, n, more) && got == ar + Obtained(f, n, more)
    ensures NoFit(f, n) ==> more.Some?
  {}

  /** The sizes at the first seen ring positions from start on are below n. */
  ghost predicate AllSmall(fl: seq<Blk>, start: nat, seen: int, n: nat)
    requires start <= |fl|
  {
    forall i | 0 <= i <= |fl| && Distance(fl, start, i) < seen :: SizeAt(fl, i) < n
  }

  /** Block q is the first large enough going round from start. */
  ghost predicate FirstFit(fl: seq<Blk>, start: nat, n: nat, q: nat) {
    && start <= |fl| && q < |fl| && 0 < n <= fl[q].size && AllSmall(fl, start, Distance(fl, start, q + 1), n)
  }

  /** The n units at h came from the first block of f that fits going round from position from, and left f';
      the next search starts from position pos', the header before that block. */
  ghost predicate TookFirstFit(f: seq<Blk>, from: nat, n: nat, h: nat, f': seq<Blk>, pos': nat) {
    && from <= |f| && FirstFit(f, Succ(f, from), n, pos')
    && f' == Carved(f, pos', n) && h == Taken(f, pos', n).addr
  }

  lemma EmptyRing(base: nat, mem: map<nat, Header>)
    requires base in mem && mem[base] == Header(base, 0)
    ensures Ring(mem, base, [])
  {}

  lemma NoLive(base: nat, live: map<nat, nat>, arena: set<nat>)
    requires Owned(base, [], live, arena) && arena == {}
    ensures live == map[]
  {
    forall a | a in live ensures false {
      assert LiveUnit(live, a);
    }
  }

  lemma FitIsFirst(fl: seq<Blk>, start: nat, k: nat, n: nat)
    requires start <= |fl| && k <= |fl| && n > 0 && SizeAt(fl, k) >= n && AllSmall(fl, start, Distance(fl, start, k), n)
    ensures k > 0 && n <= fl[k - 1].size && FirstFit(fl, start, n, k - 1)
  {}

  lemma BlockAt(base: nat, fl: seq<Blk>, k: nat)
    requires 0 < k <= |fl|
    ensures At(base, fl, k) == fl[k - 1].addr
  {}

  lemma FitTaken(f: seq<Blk>, from: nat, n: nat, q: nat)
    requires from <= |f| && FirstFit(f, Succ(f, from), n, q)
    ensures TookFirstFit(f, from, n, Taken(f, q, n).addr, Carved(f, q, n), q) && !NoFit(f, n)
  {}

  lemma NoneSeen(fl: seq<Blk>, start: nat, n: nat)
    requires start <= |fl|
    ensures AllSmall(fl, start, 0, n) && Distance(fl, start, start) == 0
  {}

  lemma OneMoreSeen(fl: seq<Blk>, start: nat, k: nat, n: nat)
    requires start <= |fl| && k <= |fl| && Succ(fl, k) != start && SizeAt(fl, k) < n
    requires AllSmall(fl, start, Distance(fl, start, k), n)
    ensures Distance(fl, start, Succ(fl, k)) == Distance(fl, start, k) + 1
    ensures AllSmall(fl, start, Distance(fl, start, Succ(fl, k)), n)
  {}

  lemma SuccInjective(fl: seq<Blk>, i: nat, k: nat)
    requires i <= |fl| && k <= |fl| && Succ(fl, i) == Succ(fl, k)
    ensures i == k
  {}

  lemma SameIndex'(base: nat, fl: seq<Blk>, i: nat, k: nat)
    requires Canonical(fl) && (forall j :: 0 <= j < |fl| ==> base < fl[j].addr) && i <= |fl| && k <= |fl| && i != k
    ensures At(base, fl, i) != At(base, fl, k)
  {
    CanonicalLoose(fl, 0, 0);
    RingDistinct(base, fl, 0, 0, i, k);
  }

  lemma SameIndex(mem: map<nat, Header>, base: nat, fl: seq<Blk>, i: nat, k: nat)
    requires Ring(mem, base, fl) && i <= |fl| && k <= |fl|
    requires At(base, fl, i) == At(base, fl, k)
    ensures i == k
  {
    if i != k {
      CanonicalLoose(fl, 0, 0);
      RingDistinct(base, fl, 0, 0, i, k);
    }
  }

  lemma WholeLap(fl: seq<Blk>, pos: nat, n: nat)
    requires pos <= |fl| && AllSmall(fl, Succ(fl, pos), Distance(fl, Succ(fl, pos), pos), n) && SizeAt(fl, pos) < n
    ensures NoFit(fl, n)
  {
    forall k | 0 <= k < |fl|
      ensures fl[k].size < n
    {
      assert SizeAt(fl, k + 1) == fl[k].size;
    }
  }

  /** After a morecore some block is large enough, merged with its neighbour or not. */
  lemma Enough(fl: seq<Blk>, b: Blk, n: nat)
    requires Canonical(fl) && Apart(fl, b) && 0 < n <= b.size
    ensures !NoFit(Freed(fl, b), n)
  {
    hide Freed;
    var f := Freed(fl, b);
    FreedUnits(fl, b);
    assert b.Has(b.addr) && Covers(f, b.addr);
    var k :| 0 <= k < |f| && f[k].Has(b.addr);
    var e := f[k].End();
    assert b.Has(e) ==> Covers(f, e);
  }

  lemma OwnedIsCanonical(base: nat, fl: seq<Blk>, live: map<nat, nat>, arena: set<nat>)
    requires Owned(base, fl, live, arena)
    ensures Canonical(fl)
  {}

  lemma LiveIsHeap(base: nat, fl: seq<Blk>, live: map<nat, nat>, arena: set<nat>, a: nat)
    requires Owned(base, fl, live, arena) && a in live
    ensures base < a && live[a] > 0 && Apart(fl, Blk(a, live[a])) && a in arena
  {
    assert LiveUnit(live, a);
  }

  lemma LiveNotFree(base: nat, fl: seq<Blk>, live: map<nat, nat>, arena: set<nat>, a: nat)
    requires Owned(base, fl, live, arena) && a in live
    ensures a != base && forall k | 0 <= k < |fl| :: a != fl[k].addr
  {
    LiveIsHeap(base, fl, live, arena, a);
  }

  lemma ApartNoCover(fl: seq<Blk>, b: Blk)
    requires Apart(fl, b)
    ensures forall u: nat :: Covers(fl, u) ==> !b.Has(u)
  {}

  lemma LiveSplit(l: map<nat, nat>, bp: nat, u: nat)
    requires bp in l
    ensures LiveUnit(l, u) <==> LiveUnit(l - {bp}, u) || Blk(bp, l[bp]).Has(u)
  {
    if LiveUnit(l - {bp}, u) {
      var a :| a in l - {bp} && a <= u < a + (l - {bp})[a];
      assert a in l && a <= u < a + l[a];
    }
    if LiveUnit(l, u) {
      var a :| a in l && a <= u < a + l[a];
      assert a == bp || (a in l - {bp} && a <= u < a + (l - {bp})[a]);
    }
  }

  lemma OwnedFree(base: nat, fl: seq<Blk>, live: map<nat, nat>, arena: set<nat>, bp: nat)
    requires Owned(base, fl, live, arena) && bp in live
    ensures Owned(base, Freed(fl, Blk(bp, live[bp])), live - {bp}, arena)
  {
    hide Freed, Apart, Canonical, Covers, LiveUnit;
    var b := Blk(bp, live[bp]);
    var f := Freed(fl, b);
    FreedUnits(fl, b);
    forall a | a in live && a != bp
      ensures Apart(f, Blk(a, live[a]))
    {
      ApartNoCover(fl, Blk(a, live[a]));
      ApartByUnits(f, Blk(a, live[a]));
    }
    forall u: nat
      ensures u in arena <==> Covers(f, u) || LiveUnit(live - {bp}, u)
    {
      LiveSplit(live, bp, u);
    }
  }

  lemma NewNotOnRing(base: nat, fl: seq<Blk>, live: map<nat, nat>, arena: set<nat>, hp: nat)
    requires Owned(base, fl, live, arena) && base < hp && forall u :: u in arena ==> u < hp
    ensures hp !in live && (forall k | 0 <= k < |fl| :: fl[k].End() <= hp && fl[k].addr != hp)
  {
    forall k | 0 <= k < |fl|
      ensures fl[k].End() <= hp && fl[k].addr != hp
    {
      assert fl[k].Has(fl[k].End() - 1);
      assert Covers(fl, fl[k].End() - 1);
    }
    if hp in live { assert LiveUnit(live, hp); }
  }

  lemma OwnedNew(base: nat, fl: seq<Blk>, live: map<nat, nat>, arena: set<nat>, hp: nat, nu: nat)
    requires Owned(base, fl, live, arena) && base < hp && nu > 0 && forall u :: u in arena ==> u < hp
    ensures Owned(base, fl, live[hp := nu], arena + UnitSet(hp, nu)) && live[hp := nu] - {hp} == live
  {
    hide Canonical, Covers, UnitSet;
    NewNotOnRing(base, fl, live, arena, hp);
    var l := live[hp := nu];
    forall a | a in live
      ensures a + live[a] <= hp
    {
      assert LiveUnit(live, a + live[a] - 1);
    }
    assert l - {hp} == live;
    hide LiveUnit;
    forall u: nat
      ensures LiveUnit(l, u) <==> LiveUnit(live, u) || hp <= u < hp + nu
    {
      LiveSplit(l, hp, u);
    }
  }

  lemma RingKept(mem: map<nat, Header>, base: nat, fl: seq<Blk>, a: nat, h: Header)
    requires Ring(mem, base, fl) && a != base && forall k | 0 <= k < |fl| :: fl[k].addr != a
    ensures Ring(mem[a := h], base, fl)
  {
    hide Canonical;
    var mem' := mem[a := h];
    forall k | 0 <= k <= |fl|
      ensures Linked(mem', base, fl, k)
    {
      assert Linked(mem, base, fl, k);
    }
  }

  lemma Unfold(mem: map<nat, Header>, base: nat, fl: seq<Blk>, k: nat)
    requires Ring(mem, base, fl) && k <= |fl|
    ensures At(base, fl, k) in mem && mem[At(base, fl, k)] == Header(At(base, fl, Succ(fl, k)), SizeAt(fl, k))
  {
    assert Linked(mem, base, fl, k);
  }

  lemma {:induction false} SameGap(fl: seq<Blk>, a: Blk, b: Blk)
    requires a.addr == b.addr
    ensures Position(fl, a) == Position(fl, b)
  {
    if fl != [] { SameGap(fl[1..], a, b); }
  }

  lemma ApartShrink(fl: seq<Blk>, b: Blk)
    requires Apart(fl, b) && b.size > 0
    ensures Apart(fl, Blk(b.addr, 1))
  {}

  /** A block apart from the list has a header none of the ring's. */
  lemma NotOnRing(base: nat, fl: seq<Blk>, b: Blk)
    requires Canonical(fl) && Apart(fl, b) && b.size > 0 && base < b.addr
    ensures forall i | 0 <= i <= |fl| :: At(base, fl, i) != b.addr
  {}

  /** Free-list headers are pairwise distinct. */
  lemma RingDistinct(base: nat, f: seq<Blk>, lo: int, hi: int, i: nat, k: nat)
    requires Loose(f, lo, hi) && (forall i :: 0 <= i < |f| ==> base < f[i].addr) && i <= |f| && k <= |f| && i != k
    ensures At(base, f, i) != At(base, f, k)
  {}

  lemma CanonicalLoose(f: seq<Blk>, lo: int, hi: int)
    requires Canonical(f)
    ensures Loose(f, lo, hi)
  {}

  /** Every header of the ring but the k-th is right. */
  ghost predicate LinkedBut(mem: map<nat, Header>, base: nat, f: seq<Blk>, k: int) {
    forall i | 0 <= i <= |f| && i != k :: Linked(mem, base, f, i)
  }

  function Swallow(b: Blk, c: Blk): Blk { Blk(b.addr, b.size + c.size) }

  /** b takes the place of block k, which it touches from below. */
  lemma PutOver(mem: map<nat, Header>, base: nat, fl: seq<Blk>, k: nat, b: Blk, mem': map<nat, Header>)
    requires LinkedBut(mem, base, fl, -1) && k < |fl| && forall i | 0 <= i <= |fl| :: At(base, fl, i) != b.addr
    requires mem' == mem[b.addr := Header(At(base, fl, Succ(fl, k + 1)), b.size + fl[k].size)]
    ensures LinkedBut(mem', base, fl[..k] + [Swallow(b, fl[k])] + fl[k + 1..], k)
  {
    var f := fl[..k] + [Swallow(b, fl[k])] + fl[k + 1..];
    assert forall i | 0 <= i <= |f| && i != k + 1 :: At(base, f, i) == At(base, fl, i) && SizeAt(f, i) == SizeAt(fl, i);
    forall i | 0 <= i <= |f| && i != k
      ensures Linked(mem', base, f, i)
    {
      assert Linked(mem, base, fl, i);
      assert Succ(f, i) != k + 1;
    }
  }

  /** b goes in as block k. */
  lemma PutBetween(mem: map<nat, Header>, base: nat, fl: seq<Blk>, k: nat, b: Blk, mem': map<nat, Header>)
    requires LinkedBut(mem, base, fl, -1) && k <= |fl| && forall i | 0 <= i <= |fl| :: At(base, fl, i) != b.addr
    requires mem' == mem[b.addr := Header(At(base, fl, Succ(fl, k)), b.size)]
    ensures LinkedBut(mem', base, fl[..k] + [b] + fl[k..], k)
  {
    var f := fl[..k] + [b] + fl[k..];
    assert forall i | 0 <= i <= k :: At(base, f, i) == At(base, fl, i) && SizeAt(f, i) == SizeAt(fl, i);
    assert forall i | k + 1 < i <= |f| :: At(base, f, i) == At(base, fl, i - 1) && SizeAt(f, i) == SizeAt(fl, i - 1);
    forall i | 0 <= i <= |f| && i != k
      ensures Linked(mem', base, f, i)
    {
      if i < k {
        assert Linked(mem, base, fl, i);
      } else if i > k + 1 {
        assert Linked(mem, base, fl, i - 1);
      }
    }
  }

  /** The memory after free's first conditional. */
  function Upper(mem: map<nat, Header>, next: nat, b: Blk): map<nat, Header>
    requires next in mem
  {
    mem[b.addr := if b.End() == next then Header(mem[next].ptr, b.size + mem[next].size) else Header(next, b.size)]
  }

  /** b in front of ring position k + 1, merged with what it touches above; only header k still links past it. */
  lemma LinkUp(mem: map<nat, Header>, base: nat, fl: seq<Blk>, k: nat, b: Blk)
    requires Ring(mem, base, fl) && Apart(fl, b) && b.size > 0 && base < b.addr && k == Position(fl, b)
    ensures At(base, fl, Succ(fl, k)) in mem && At(base, fl, k) in mem
    ensures LinkedBut(Upper(mem, At(base, fl, Succ(fl, k)), b), base, MergeAt(Insert(fl, k, b), k), k)
  {
    hide Canonical, Apart, Linked, Position, MergeAt, Insert;
    NotOnRing(base, fl, b);
    Unfold(mem, base, fl, k);
    Unfold(mem, base, fl, Succ(fl, k));
    var f, mem' := MergeAt(Insert(fl, k, b), k), Upper(mem, At(base, fl, Succ(fl, k)), b);
    assert LinkedBut(mem, base, fl, -1);
    hide LinkedBut, Ring;
    MergeUpShape(fl, k, b);
    if k < |fl| && b.End() == fl[k].addr {
      Unfold(mem, base, fl, k + 1);
      PutOver(mem, base, fl, k, b, mem');
    } else {
      PutBetween(mem, base, fl, k, b, mem');
    }
  }

  lemma MergeUpShape(fl: seq<Blk>, k: nat, b: Blk)
    requires k <= |fl|
    ensures MergeAt(Insert(fl, k, b), k) == if k < |fl| && b.End() == fl[k].addr
              then fl[..k] + [Swallow(b, fl[k])] + fl[k + 1..] else fl[..k] + [b] + fl[k..]
  {
    var f := Insert(fl, k, b);
    assert f[k] == b && f[..k] == fl[..k];
    if k < |fl| {
      assert f[k + 1] == fl[k] && f[k + 2..] == fl[k + 1..];
    }
  }

  lemma MergeDownShape(f: seq<Blk>, k: nat)
    requires k < |f|
    ensures MergeAt(f, k - 1) == if k > 0 && f[k - 1].End() == f[k].addr
              then f[..k - 1] + [Swallow(f[k - 1], f[k])] + f[k + 1..] else f
  {}

  lemma UpperShape(mem: map<nat, Header>, base: nat, fl: seq<Blk>, k: nat, b: Blk)
    requires Ring(mem, base, fl) && Apart(fl, b) && b.size > 0 && base < b.addr && k == Position(fl, b)
    ensures var f := MergeAt(Insert(fl, k, b), k);
            && k < |f| && f[k].addr == b.addr && At(base, f, k) == At(base, fl, k) && SizeAt(f, k) == SizeAt(fl, k)
            && Loose(f, k - 1, k - 1) && (forall i :: 0 <= i < |f| ==> base < f[i].addr)
  {
    hide Position, MergeAt, Insert, Linked, Blk.Has;
    PositionSplits(fl, b);
    InsertLoose(fl, k, b);
    MergeLoose(Insert(fl, k, b), k - 1, k);
    MergeUpShape(fl, k, b);
    hide Canonical, Apart, Loose, Ring;
  }

  /** The memory after free's second conditional. */
  function Lower(mem: map<nat, Header>, p: nat, bp: nat): map<nat, Header>
    requires p in mem && bp in mem
  {
    mem[p := if p + mem[p].size == bp then Header(mem[bp].ptr, mem[p].size + mem[bp].size) else Header(bp, mem[p].size)]
  }

  lemma TakeIn(mem: map<nat, Header>, base: nat, f: seq<Blk>, k: nat, mem': map<nat, Header>)
    requires LinkedBut(mem, base, f, k) && 0 < k < |f| && (forall i | 0 <= i <= |f| && i != k :: At(base, f, i) != At(base, f, k))
    requires mem' == mem[At(base, f, k) := Header(At(base, f, Succ(f, k + 1)), f[k - 1].size + f[k].size)]
    ensures LinkedBut(mem', base, f[..k - 1] + [Swallow(f[k - 1], f[k])] + f[k + 1..], -1)
  {
    var r := f[..k - 1] + [Swallow(f[k - 1], f[k])] + f[k + 1..];
    assert forall i | 0 <= i <= k :: At(base, r, i) == At(base, f, i);
    assert forall i | k < i <= |r| :: At(base, r, i) == At(base, f, i + 1) && SizeAt(r, i) == SizeAt(f, i + 1);
    forall i | 0 <= i <= |r|
      ensures Linked(mem', base, r, i)
    {
      if i < k {
        assert Linked(mem, base, f, i);
      } else if i > k {
        assert Linked(mem, base, f, i + 1);
      }
    }
  }

  lemma LinkTo(mem: map<nat, Header>, base: nat, f: seq<Blk>, k: nat, mem': map<nat, Header>)
    requires LinkedBut(mem, base, f, k) && k < |f| && (forall i | 0 <= i <= |f| && i != k :: At(base, f, i) != At(base, f, k))
    requires mem' == mem[At(base, f, k) := Header(f[k].addr, SizeAt(f, k))]
    ensures LinkedBut(mem', base, f, -1)
  {
    forall i | 0 <= i <= |f|
      ensures Linked(mem', base, f, i)
    {
      if i != k { assert Linked(mem, base, f, i); }
    }
  }

  lemma UnfoldBut(mem: map<nat, Header>, base: nat, f: seq<Blk>, k: int, i: nat)
    requires LinkedBut(mem, base, f, k) && i <= |f| && i != k
    ensures At(base, f, i) in mem && mem[At(base, f, i)] == Header(At(base, f, Succ(f, i)), SizeAt(f, i))
  {
    assert Linked(mem, base, f, i);
  }

  /** free between its two conditionals: block k of f is linked to, but header k still links past it. */
  ghost predicate HalfLinked(mem: map<nat, Header>, base: nat, f: seq<Blk>, k: nat, bp: nat) {
    && k < |f| && f[k].addr == bp && Loose(f, k - 1, k - 1) && (forall i :: 0 <= i < |f| ==> base < f[i].addr)
    && LinkedBut(mem, base, f, k) && At(base, f, k) in mem && mem[At(base, f, k)].size == SizeAt(f, k)
  }

  lemma Coalesced(fl: seq<Blk>, k: nat, b: Blk)
    requires k == Position(fl, b)
    ensures Freed(fl, b) == Coalesce(fl, k, b) == MergeAt(MergeAt(Insert(fl, k, b), k), k - 1)
  {}

  lemma OffRing(base: nat, fl: seq<Blk>, k: nat, a: nat)
    requires k <= |fl| && a != base && forall i | 0 <= i < |fl| :: a != fl[i].addr
    ensures a != At(base, fl, k)
  {}

  lemma HalfWay(mem: map<nat, Header>, base: nat, fl: seq<Blk>, k: nat, b: Blk)
    requires Ring(mem, base, fl) && Apart(fl, b) && b.size > 0 && base < b.addr && k == Position(fl, b)
    ensures At(base, fl, Succ(fl, k)) in mem && At(base, fl, k) in mem
    ensures var f := MergeAt(Insert(fl, k, b), k);
            HalfLinked(Upper(mem, At(base, fl, Succ(fl, k)), b), base, f, k, b.addr) && At(base, f, k) == At(base, fl, k)
  {
    hide Canonical, Apart, Linked, LinkedBut, Position, MergeAt, Insert, Loose;
    NotOnRing(base, fl, b);
    Unfold(mem, base, fl, k);
    LinkUp(mem, base, fl, k, b);
    UpperShape(mem, base, fl, k, b);
    hide Ring, Succ, SizeAt;
  }

  /** Header k takes in the block above it if they touch, and links to it otherwise: the ring is whole again. */
  lemma LinkDown(mem: map<nat, Header>, base: nat, f: seq<Blk>, k: nat, bp: nat)
    requires HalfLinked(mem, base, f, k, bp)
    ensures k < |f| && base <= At(base, f, k) && At(base, f, k) in mem && bp in mem && Ring(Lower(mem, At(base, f, k), bp), base, MergeAt(f, k - 1))
    ensures k <= |MergeAt(f, k - 1)| && At(base, MergeAt(f, k - 1), k) == At(base, f, k)
  {
    hide MergeAt, LinkedBut, Linked, Blk.Has, Blk.End, Canonical;
    var r := MergeAt(f, k - 1);
    MergeLoose(f, k - 1, k - 1);
    LooseIsCanonical(r, k - 1);
    MergeDownShape(f, k);
    forall i | 0 <= i <= |f| && i != k
      ensures At(base, f, i) != At(base, f, k)
    {
      RingDistinct(base, f, k - 1, k - 1, i, k);
    }
    hide Loose;
    UnfoldBut(mem, base, f, k, k + 1);
    var mem' := Lower(mem, At(base, f, k), bp);
    if k > 0 && f[k - 1].End() == f[k].addr {
      TakenIn(mem, base, f, k);
    } else {
      LinkedTo(mem, base, f, k);
    }
    assert forall i :: 0 <= i < |r| ==> base < r[i].addr;
    LinkedAll(mem', base, r);
  }

  lemma LooseIsCanonical(r: seq<Blk>, k: int)
    requires Loose(r, k, k - 1)
    ensures Canonical(r)
  {}

  lemma TakenIn(mem: map<nat, Header>, base: nat, f: seq<Blk>, k: nat)
    requires LinkedBut(mem, base, f, k) && 0 < k < |f| && f[k - 1].End() == f[k].addr
    requires forall i | 0 <= i <= |f| && i != k :: At(base, f, i) != At(base, f, k)
    requires At(base, f, k) in mem && mem[At(base, f, k)].size == SizeAt(f, k)
    requires f[k].addr in mem && mem[f[k].addr] == Header(At(base, f, Succ(f, k + 1)), f[k].size)
    ensures LinkedBut(Lower(mem, At(base, f, k), f[k].addr), base, f[..k - 1] + [Swallow(f[k - 1], f[k])] + f[k + 1..], -1)
  {
    hide LinkedBut;
    TakeIn(mem, base, f, k, Lower(mem, At(base, f, k), f[k].addr));
  }

  lemma LinkedTo(mem: map<nat, Header>, base: nat, f: seq<Blk>, k: nat)
    requires LinkedBut(mem, base, f, k) && k < |f| && !(k > 0 && f[k - 1].End() == f[k].addr)
    requires forall i | 0 <= i <= |f| && i != k :: At(base, f, i) != At(base, f, k)
    requires At(base, f, k) in mem && mem[At(base, f, k)].size == SizeAt(f, k) && f[k].addr in mem
    requires base < f[k].addr
    ensures LinkedBut(Lower(mem, At(base, f, k), f[k].addr), base, f, -1)
  {
    hide LinkedBut;
    LinkTo(mem, base, f, k, Lower(mem, At(base, f, k), f[k].addr));
  }

  lemma LinkedAll(mem: map<nat, Header>, base: nat, f: seq<Blk>)
    requires Canonical(f) && (forall k :: 0 <= k < |f| ==> base < f[k].addr) && LinkedBut(mem, base, f, -1)
    ensures Ring(mem, base, f)
  {}

  /** The test in free's loop succeeds at exactly one header of the ring. */
  lemma GapIff(base: nat, fl: seq<Blk>, bp: nat, k: nat)
    requires Canonical(fl) && (forall k :: 0 <= k < |fl| ==> base < fl[k].addr) && base < bp && Apart(fl, Blk(bp, 1)) && k <= |fl|
    ensures var p, q := At(base, fl, k), At(base, fl, Succ(fl, k));
            k == Position(fl, Blk(bp, 1)) <==> (bp > p && bp < q) || (p >= q && (bp > p || bp < q))
  {
    PositionSplits(fl, Blk(bp, 1));
  }

  /** Steps along the ring from index i to index j: at most one lap. */
  function Distance(fl: seq<Blk>, i: nat, j: nat): (d: nat)
    requires i <= |fl| && j <= |fl|
    ensures d <= |fl|
  {
    if i <= j then j - i else j + |fl| + 1 - i
  }

  /** Freeing what malloc just returned gives back the list malloc took it from. */
  lemma FreeUndoesMalloc(f: seq<Blk>, from: nat, n: nat, h: nat, f': seq<Blk>, pos': nat)
    requires Canonical(f) && TookFirstFit(f, from, n, h, f', pos')
    ensures Freed(f', Blk(h, n)) == f
  {
    hide Freed, Canonical;
    MallocThenFree(f, pos', n);
  }

  // ---------- next fit ----------

  /** Of the blocks of at least n units: the lowest above address a if there is one, else the lowest. */
  ghost predicate NextFit(f: seq<Blk>, a: nat, n: nat, b: Blk) {
    && b in f && b.size >= n
    && (if b.addr > a then forall c :: c in f && c.size >= n && c.addr > a ==> b.addr <= c.addr
        else forall c :: c in f && c.size >= n ==> b.addr <= c.addr <= a)
  }

  /** In addresses, without the ring: malloc takes the lowest fitting block above freep, or else the lowest
      one, and leaves freep at the highest header below that block. */
  lemma MallocIsNextFit(base: nat, f: seq<Blk>, from: nat, n: nat, h: nat, f': seq<Blk>, pos': nat)
    requires Canonical(f) && (forall k :: 0 <= k < |f| ==> base < f[k].addr) && TookFirstFit(f, from, n, h, f', pos')
    ensures pos' < |f| && pos' <= |f'|
    ensures var b, p := f[pos'], At(base, f', pos');
            && NextFit(f, At(base, f, from), n, b) && b.addr <= h && h + n == b.End()
            && p < b.addr && (p == base || exists c :: c in f' && c.addr == p) && forall c :: c in f && c.addr < b.addr ==> c.addr <= p
  {
    hide Blk.Has, AllSmall, Distance;
    var b, a := f[pos'], At(base, f, from);
    forall k | 0 <= k < |f| && f[k].size >= n
      ensures if b.addr > a then f[k].addr > a ==> b.addr <= f[k].addr else b.addr <= f[k].addr <= a
    {
      LaterIsBigger(base, f, from, n, pos', k);
    }
    if pos' > 0 { assert f'[pos' - 1] == f[pos' - 1]; }
  }

  /** A fitting block is not met before the first fit. */
  lemma LaterIsBigger(base: nat, f: seq<Blk>, from: nat, n: nat, q: nat, k: nat)
    requires Canonical(f) && (forall i :: 0 <= i < |f| ==> base < f[i].addr) && from <= |f| && FirstFit(f, Succ(f, from), n, q)
    requires k < |f| && f[k].size >= n
    ensures var b, a := f[q], At(base, f, from); if b.addr > a then f[k].addr > a ==> b.addr <= f[k].addr else b.addr <= f[k].addr <= a
  {
    assert SizeAt(f, k + 1) == f[k].size;
    assert Distance(f, Succ(f, from), k + 1) >= Distance(f, Succ(f, from), q + 1);
    hide AllSmall;
  }

  /** free leaves freep at the highest header below the block it was given. */
  lemma FreeLeavesBelow(base: nat, f: seq<Blk>, b: Blk)
    requires Canonical(f) && Apart(f, b) && b.size > 0 && base < b.addr && forall k :: 0 <= k < |f| ==> base < f[k].addr
    ensures Position(f, b) <= |Freed(f, b)|
    ensures var p := At(base, Freed(f, b), Position(f, b));
            p < b.addr && (p == base || exists c :: c in f && c.addr == p) && forall c :: c in f && c.addr < b.addr ==> c.addr <= p
  {
    hide Position, Insert, MergeAt, Blk.Has;
    var k: nat := Position(f, b);
    PositionSplits(f, b);
    MergeUpShape(f, k, b);
    var g := MergeAt(Insert(f, k, b), k);
    MergeDownShape(g, k);
    Coalesced(f, k, b);
    hide Freed, Coalesce;
    if k > 0 { assert g[k - 1] == f[k - 1] && Freed(f, b)[k - 1].addr == f[k - 1].addr; }
  }

  /** morecore asks for at least 4096 units. */
  lemma AskedUnits(nu: nat)
    ensures AtLeast(nu) == if nu > 4096 then nu else 4096
  {}

  /** Two calls in a row: if what the first left of its block is large enough, the second takes the units
      just below the first one's. */
  lemma NextBelow(f: seq<Blk>, from: nat, n: nat, h: nat, f1: seq<Blk>, p1: nat, n2: nat, h2: nat, f2: seq<Blk>, p2: nat)
    requires Canonical(f) && TookFirstFit(f, from, n, h, f1, p1) && TookFirstFit(f1, p1, n2, h2, f2, p2)
    requires f[p1].size >= n + n2
    ensures h2 + n2 == h && p2 == p1
  {
    hide Canonical, Blk.Has;
    assert f1[p1] == Blk(f[p1].addr, f[p1].size - n) && SizeAt(f1, p1 + 1) == f1[p1].size;
    assert Distance(f1, Succ(f1, p1), p1 + 1) == 0;
  }

  /** malloc twice, with no memory from sbrk: the second block is new, and lies just below the first if the
      free block that held the first has room for both. */
  method MallocTwice(m: Allocator, n: nat, n2: nat) returns (r: nat, r2: nat)
    requires m.Valid() && n < UINT && n2 < UINT
    modifies m
    ensures m.Valid() && m.arena == old(m.arena)
    ensures r != 0 && r2 != 0 ==> r2 - 1 !in old(m.live) && r2 != r && m.live == old(m.live)[r - 1 := Units(n)][r2 - 1 := Units(n2)]
    ensures r != 0 && r2 != 0 ==>
              forall b :: b in old(m.fl) && b.Has(r - 1) && b.size >= Units(n) + Units(n2) ==> r2 + Units(n2) == r
  {
    hide TookFirstFit, Owned, Ring, LiveHeaders;
    ghost var f, p := m.fl, m.pos;
    OwnedIsCanonical(m.base, m.fl, m.live, m.arena);
    r := m.Malloc(n, None);
    ghost var f1, p1 := m.fl, m.pos;
    r2 := m.Malloc(n2, None);
    if r != 0 && r2 != 0 {
      forall b | b in f && b.Has(r - 1) && b.size >= Units(n) + Units(n2) ensures r2 + Units(n2) == r {
        HoldsTaken(f, p, Units(n), r - 1, f1, p1, b);
        NextBelow(f, p, Units(n), r - 1, f1, p1, Units(n2), r2 - 1, m.fl, m.pos);
      }
    }
  }

  lemma HoldsTaken(f: seq<Blk>, from: nat, n: nat, h: nat, f': seq<Blk>, p: nat, b: Blk)
    requires Canonical(f) && TookFirstFit(f, from, n, h, f', p) && b in f && b.Has(h)
    ensures p < |f| && b == f[p]
  {
    hide AllSmall;
    assert f[p].Has(h);
    var k :| 0 <= k < |f| && f[k] == b;
  }

  /** The units after the header hold the bytes asked for, with less than a header to spare, exactly if
      rounding them up does not wrap; otherwise there is no unit after the header. */
  lemma UnitsHold(nbytes: nat)
    requires nbytes < UINT
    ensures nbytes <= (Units(nbytes) - 1) * HEADER <==> nbytes + HEADER - 1 < UINT
    ensures if nbytes + HEADER - 1 < UINT then (Units(nbytes) - 1) * HEADER < nbytes + HEADER else Units(nbytes) == 1
  {
    if nbytes + HEADER - 1 >= UINT { assert nbytes + HEADER - 1 - UINT < HEADER; }
  }
}
