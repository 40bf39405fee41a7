/** The frame allocator and the page-table operations, each proved against the free list and the address
    space that memory shows. (kernel/vm.c, kalloc.c) */
module Vm {
  import opened CTypes
  import opened PageBytes
  import opened VmSpec

  /** From one state to another the tables of a space may only grow, by frames from the free list, and
      nothing but its tables is written. */
  ghost predicate Grew(ram: Ram, free: seq<nat>, sp: Space, ram': Ram, free': seq<nat>, sp': Space) {
    && sp'.dir == sp.dir && sp.tabs.Keys <= sp'.tabs.Keys && TableFrames(sp) <= TableFrames(sp')
    && Elems(free') + TableFrames(sp') == Elems(free) + TableFrames(sp) && Elems(free') !! TableFrames(sp')
    && SameBut(ram, ram', TableFrames(sp')) && |free'| + |sp'.tabs.Keys| == |free| + |sp.tabs.Keys|
  }

  lemma GrewTrans(r0: Ram, f0: seq<nat>, s0: Space, r1: Ram, f1: seq<nat>, s1: Space, r2: Ram, f2: seq<nat>, s2: Space)
    requires Grew(r0, f0, s0, r1, f1, s1) && Grew(r1, f1, s1, r2, f2, s2)
    ensures Grew(r0, f0, s0, r2, f2, s2)
  {}

  lemma GrewNot(ram: Ram, free: seq<nat>, sp: Space)
    requires Elems(free) !! TableFrames(sp)
    ensures Grew(ram, free, sp, ram, free, sp)
  {}

  /** Pages lo to hi were entered, one after the other from pa on. */
  ghost predicate Entered(m: map<nat, nat>, m': map<nat, nat>, lo: nat, hi: nat, pa: nat, perm: nat) {
    && (forall p: nat :: p in m' <==> p in m || lo <= p < hi)
    && (forall p: nat :: p in m ==> m'[p] == m[p])
    && (forall p: nat :: lo <= p < hi && p !in m ==> p in m' && m'[p] == pa + (p - lo) * PGSIZE + perm + PTE_P)
  }

  class Machine {
    var ram: Ram
    var freelist: nat
    const first: nat          // the first frame after the kernel
    ghost var free: seq<nat>

    ghost predicate Valid()
      reads this
    {
      FreeList(ram, freelist, free, first)
    }

    /** kinit: every frame from the end of the kernel up goes on the free list. */
    constructor (end: nat)
      requires 0 < end <= PHYSTOP
      ensures Valid() && first == (end + PGSIZE - 1) / PGSIZE
      ensures |free| == NFRAMES - first && forall i :: 0 <= i < |free| ==> free[i] == NFRAMES - 1 - i
    {
      first := (end + PGSIZE - 1) / PGSIZE;
      freelist := 0;
      free := [];
      ram := ZeroRam();
      new;
      var p := (end + PGSIZE - 1) / PGSIZE * PGSIZE;
      while p + PGSIZE <= PHYSTOP
        invariant Valid() && p % PGSIZE == 0 && first * PGSIZE <= p <= PHYSTOP
        invariant |free| == p / PGSIZE - first && forall i :: 0 <= i < |free| ==> free[i] == p / PGSIZE - 1 - i
      {
        Kfree(p);
        p := p + PGSIZE;
      }
    }

    method Kfree(v: nat)
      requires Valid() && v % PGSIZE == 0 && first * PGSIZE <= v < PHYSTOP && v / PGSIZE !in free
      modifies this
      ensures Valid() && free == [v / PGSIZE] + old(free) && Elems(free) == Elems(old(free)) + {v / PGSIZE}
      ensures SameBut(old(ram), ram, {v / PGSIZE})
    {
      FreeListPush(ram, freelist, free, first, v / PGSIZE);
      ram := ram[v / PGSIZE := JunkPage(freelist)];
      freelist := v;
      free := [v / PGSIZE] + free;
    }

    method Kalloc() returns (v: nat)
      requires Valid()
      modifies this
      ensures Valid() && ram == old(ram)
      ensures old(free) == [] ==> v == 0 && free == []
      ensures old(free) != [] ==> v == old(free)[0] * PGSIZE && free == old(free)[1..] && old(free)[0] !in free
      ensures old(free) != [] ==> v != 0 && first <= old(free)[0] < NFRAMES && Elems(old(free)) == Elems(free) + {old(free)[0]}
    {
      v := freelist;
      if v != 0 {
        FreeListTail(ram, freelist, free, first);
        freelist := ram[v / PGSIZE][0];
        free := free[1..];
      } else if free != [] {
        FreeListTail(ram, freelist, free, first);
      }
    }

    /** The entry of a linear address: word j of frame t. */
    method Walkpgdir(ghost sp: Space, dir: nat, va: nat, create: bool) returns (ok: bool, t: nat, j: nat, ghost sp': Space)
      requires Valid() && Shows(ram, sp) && dir == sp.dir && va < UINT && Elems(free) !! TableFrames(sp)
      modifies this
      ensures OnlyTables(sp, sp', {va / PGSIZE / NENTRIES})
      ensures Valid() && Shows(ram, sp') && sp' == sp.(tabs := sp'.tabs) && Grew(old(ram), old(free), sp, ram, free, sp')
      ensures ok ==> va / PGSIZE / NENTRIES in sp'.tabs && t == sp'.tabs[va / PGSIZE / NENTRIES] && j == va / PGSIZE % NENTRIES
      ensures va / PGSIZE / NENTRIES in sp.tabs ==> ok
      ensures va / PGSIZE / NENTRIES !in sp.tabs ==> ok == (create && old(free) != [])
      ensures va / PGSIZE / NENTRIES in sp.tabs || !ok ==> sp' == sp && ram == old(ram) && free == old(free)
      ensures !ok ==> !create || free == []
    {
      hide Shows, FreeList, Grew;
      var i := va / PGSIZE / NENTRIES;
      j := va / PGSIZE % NENTRIES;
      sp' := sp;
      Reads(ram, sp, va / PGSIZE);
      GrewNot(ram, free, sp);
      var pde := ram[dir][i];
      if pde % 2 == PTE_P {
        return true, pde / PGSIZE, j, sp;
      }
      if !create { return false, 0, j, sp; }
      var v := Kalloc();
      if v == 0 { return false, 0, j, sp; }
      t := v / PGSIZE;
      TableGrew(ram, old(free), free, sp, i, t);
      NewTable(ram, sp, i, t);
      FreeListFrame(ram, WithTable(ram, sp, i, t), freelist, free, first);
      sp' := sp.(tabs := sp.tabs[i := t]);
      ram := ram[t := ZeroPage()];
      ram := ram[dir := ram[dir][i := t * PGSIZE + PTE_P + PTE_W + PTE_U]];
      ok := true;
    }

    /** Store an entry. */
    method SetEntry(ghost sp: Space, t: nat, j: nat, ghost p: nat, w: nat) returns (ghost sp': Space)
      requires Valid() && Shows(ram, sp) && p < NENTRIES * NENTRIES && p / NENTRIES in sp.tabs
      requires t == sp.tabs[p / NENTRIES] && j == p % NENTRIES && (w % 2 == 1 || w == 0) && Elems(free) !! TableFrames(sp)
      modifies this`ram
      ensures Valid() && Shows(ram, sp') && SameBut(old(ram), ram, TableFrames(sp))
      ensures sp' == sp.(ptes := if w == 0 then sp.ptes - {p} else sp.ptes[p := w])
    {
      if w == 0 {
        ClearEntry(ram, sp, p);
        sp' := sp.(ptes := sp.ptes - {p});
      } else {
        WriteEntry(ram, sp, p, w);
        sp' := sp.(ptes := sp.ptes[p := w]);
      }
      hide FreeList, Shows;
      ram := ram[t := ram[t][j := w]];
      FreeListFrame(old(ram), ram, freelist, free, first);
    }

    /** One page's entry. */
    method MapPage(ghost sp: Space, dir: nat, ghost p: nat, a: nat, pa: nat, perm: nat) returns (ok: bool, ghost sp': Space)
      requires Valid() && Shows(ram, sp) && dir == sp.dir && Elems(free) !! TableFrames(sp)
      requires p < NENTRIES * NENTRIES && a == p * PGSIZE && pa % PGSIZE == 0 && perm % 2 == 0
      requires p !in sp.ptes     // otherwise it panics: remap
      modifies this
      ensures OnlyTables(sp, sp', {p / NENTRIES})
      ensures Valid() && Shows(ram, sp') && Grew(old(ram), old(free), sp, ram, free, sp')
      ensures ok ==> p / NENTRIES in sp'.tabs && sp'.ptes == sp.ptes[p := pa + perm + PTE_P]
      ensures !ok ==> free == [] && p / NENTRIES !in sp'.tabs
      ensures p / NENTRIES in sp.tabs ==> ok && sp'.tabs == sp.tabs && free == old(free)
    {
      hide Shows, FreeList, Grew, Elems, TableFrames, OnlyTables;
      PageNumber(a, p);
      var t, j;
      ok, t, j, sp' := Walkpgdir(sp, dir, a, true);
      GrewApart(old(ram), old(free), sp, ram, free, sp');
      if !ok { return; }
      ghost var r1, s1 := ram, sp';
      sp' := SetEntry(sp', t, j, p, pa + perm + PTE_P);
      GrewWrite(r1, free, s1, ram, sp');
      SameKeys(sp, s1, sp', {p / NENTRIES});
      GrewTrans(old(ram), old(free), sp, r1, free, s1, ram, free, sp');
    }

    /** Entries for pages lo to hi, those of [la, la + size); it fails only for want of a frame for a
        missing table. */
    method Mappages(ghost sp: Space, dir: nat, la: nat, size: nat, pa0: nat, perm: nat, ghost lo: nat, ghost hi: nat)
      returns (r: int, ghost sp': Space)
      requires Valid() && Shows(ram, sp) && dir == sp.dir && Elems(free) !! TableFrames(sp)
      requires PagesOf(la, size, lo, hi)
      requires pa0 % PGSIZE == 0 && perm % 2 == 0
      requires forall p: nat :: lo <= p < hi ==> p !in sp.ptes   // otherwise it panics: remap
      modifies this
      ensures Valid() && Shows(ram, sp') && Grew(old(ram), old(free), sp, ram, free, sp') && (r == 0 || r == -1)
      ensures r == 0 ==> Entered(sp.ptes, sp'.ptes, lo, hi, pa0, perm) && Covered(sp', lo, hi)
      ensures OnlyTables(sp, sp', Dirs(lo, hi))
      ensures r == -1 ==> free == [] && Lacks(sp', Dirs(lo, hi))
      ensures Covered(sp, lo, hi) ==> r == 0 && sp'.tabs == sp.tabs && free == old(free)
    {
      hide Shows, FreeList, Grew, Part, Entered, Covered, Elems, TableFrames, Dirs, PagesOf, RoundDown, OnlyTables, Lacks;
      RangeFits(la, size, lo, hi);
      var a := RoundDown(la);
      var last := RoundDown(la + size - 1);
      var pa := pa0;
      ghost var p := lo;
      sp' := sp;
      PartNone(ram, free, sp, lo, hi, pa0, perm);
      while true
        invariant lo <= p < hi && a == p * PGSIZE && pa == pa0 + (p - lo) * PGSIZE && last == (hi - 1) * PGSIZE
        invariant Valid() && Shows(ram, sp') && Part(old(ram), old(free), sp, ram, free, sp', lo, hi, p, pa0, perm)
        decreases hi - p
      {
        ghost var r1, f1, s1 := ram, free, sp';
        Aligned(pa0, p - lo);
        PartUse(old(ram), old(free), sp, ram, free, sp', lo, hi, p, pa0, perm);
        var ok;
        ok, sp' := MapPage(sp', dir, p, a, pa, perm);
        PartStep(old(ram), old(free), sp, r1, f1, s1, ram, free, sp', lo, hi, p, pa0, perm, ok);
        if !ok { return -1, sp'; }
        if a == last {
          LastPage(p, hi);
          break;
        }
        p := p + 1;
        a := a + PGSIZE;
        pa := pa + PGSIZE;
      }
      PartDone(old(ram), old(free), sp, ram, free, sp', lo, hi, pa0, perm);
      return 0, sp';
    }

    /** setupkvm's loop over kmap, on an empty directory. */
    method KernelMaps(ghost sp0: Space, dir: nat, data: nat) returns (ok: bool, ghost sp: Space)
      requires Valid() && data % PGSIZE == 0 && 0x10_0000 < data < PHYSTOP && sp0 == Space(dir, map[], map[])
      requires Shows(ram, sp0) && Elems(free) !! TableFrames(sp0)
      modifies this
      ensures Valid() && Shows(ram, sp) && Grew(old(ram), old(free), sp0, ram, free, sp)
      ensures ok ==> KernelOnly(sp, data) && 0 in sp.tabs
      ensures !ok ==> free == []
      ensures if ok then |old(free)| == |free| + KTABLES else |old(free)| < KTABLES
    {
      hide Shows, FreeList, Grew, Entered, Covered, KPte, KStart, KSize, KEnd, KPerm, KLo, KHi, Mapped, Elems, TableFrames, Dirs, InKernel, OnlyTables, Lacks;
      sp := sp0;
      GrewNot(ram, free, sp);
      MappedNone(sp, data);
      NoTables(sp);
      KLast(data);
      var k := 0;
      while k < 4
        invariant k <= 4 && Valid() && Shows(ram, sp) && Grew(old(ram), old(free), sp0, ram, free, sp)
        invariant Mapped(sp, data, KLo(data, k)) && (k > 0 ==> 0 in sp.tabs) && InKernel(sp)
      {
        ghost var s1, r2, f2 := sp, ram, free;
        GrewApart(old(ram), old(free), sp0, ram, free, sp);
        KmapFacts(data, k);
        Unmapped(sp, data, k);
        var r;
        r, sp := Mappages(sp, dir, KStart(data, k), KSize(data, k), KStart(data, k), KPerm(k), KLo(data, k), KHi(data, k));
        GrewTrans(old(ram), old(free), sp0, r2, f2, s1, ram, free, sp);
        StillInKernel(s1, sp, data, k);
        if r < 0 {
          TooFew(old(ram), old(free), sp0, ram, free, sp, data, k);
          return false, sp;
        }
        MappedMore(s1, sp, data, k);
        GrewKeys(r2, f2, s1, ram, free, sp);
        k := k + 1;
      }
      AllTables(old(ram), old(free), sp0, ram, free, sp, data);
      ok := true;
    }

    /** The kernel's half of an address space; data is the linker's symbol. It takes KFRAMES frames; with
        fewer it fails and does not give back what it took, but writes no frame that was in use. */
    method Setupkvm(data: nat) returns (dir: nat, ok: bool, ghost sp: Space)
      requires Valid() && data % PGSIZE == 0 && 0x10_0000 < data < PHYSTOP
      modifies this
      ensures Valid() && (!ok ==> free == [] && SameBut(old(ram), ram, Elems(old(free))))
      ensures if ok then |old(free)| == |free| + KFRAMES else |old(free)| < KFRAMES
      ensures ok ==> NewSpace(old(ram), old(free), ram, free, first, sp) && sp.dir == dir && KernelOnly(sp, data)
    {
      hide Grew, KernelOnly, NewSpace, FreeList;
      sp := Space(0, map[], map[]);
      dir, ok := 0, false;
      ListBounds(ram, freelist, free, first);
      var v := Kalloc();
      if v != 0 {
        dir := v / PGSIZE;
        ghost var d := dir;
        ram := ram[dir := ZeroPage()];
        ghost var sp0 := Space(dir, map[], map[]);
        FreeListFrame(old(ram), ram, freelist, free, first);
        assert d in Elems(old(free));
        ghost var r1, f1 := ram, free;
        ok, sp := KernelMaps(sp0, dir, data);
        OnlyFreed(old(ram), old(free), r1, f1, sp0, ram, free, sp);
        if ok { NewSpaceFrom(old(ram), old(free), r1, f1, sp0, ram, free, first, sp, data); }
      }
    }

    /** What allocuvm and copyuvm do for one page: take a frame, fill it, map it. With the table of user
        space there the mapping cannot fail. */
    method AddPage(ghost sp: Space, dir: nat, ghost p: nat, a: nat, content: Page) returns (ok: bool, ghost sp': Space)
      requires Valid() && Shows(ram, sp) && Private(sp, free, first) && dir == sp.dir
      requires p < UPAGES && a == p * PGSIZE && p !in sp.ptes
      modifies this
      ensures Valid() && Shows(ram, sp') && Private(sp', free, first) && ok == (old(free) != [])
      ensures !ok ==> sp' == sp && ram == old(ram) && free == []
      ensures ok ==> sp' == sp.(ptes := sp.ptes[p := UserPte(old(free)[0])]) && free == old(free)[1..]
      ensures ok ==> old(free)[0] < NFRAMES && ram[old(free)[0]] == content
      ensures ok ==> SameBut(old(ram), ram, TableFrames(sp) + {old(free)[0]})
    {
      hide FreeList, Shows, Grew, Private, Covered, Entered, TableFrames;
      var v := Kalloc();
      if v == 0 { return false, sp; }
      ghost var f := old(free)[0];
      PrivatePlus(sp, old(free), first, p);
      ram := ram[v / PGSIZE := content];
      FreeListFrame(old(ram), ram, freelist, free, first);
      ShowsFrame(old(ram), ram, sp);
      InTable(sp, p, old(free), first);
      ghost var r1 := ram;
      var r;
      r, sp' := Mappages(sp, dir, a, PGSIZE, v, PTE_W + PTE_U, p, p + 1);
      OneEntered(sp, sp', p, v, r1, free, ram);
      ok := true;
    }

    /** One page of deallocuvm's loop: free the frame, then clear the entry. */
    method FreePage(ghost sp: Space, dir: nat, ghost p: nat, a: nat) returns (ghost sp': Space)
      requires Valid() && Shows(ram, sp) && Private(sp, free, first) && dir == sp.dir && p < UPAGES && a == p * PGSIZE
      modifies this
      ensures Valid() && Shows(ram, sp') && Private(sp', free, first) && sp' == sp.(ptes := sp.ptes - {p})
      ensures free == if p in sp.ptes then [FrameOf(sp.ptes[p])] + old(free) else old(free)
      ensures SameBut(old(ram), ram, TableFrames(sp) + RangeFrames(sp.ptes, p, p + 1))
    {
      hide FreeList, Shows, Grew, Private;
      InTable(sp, p, free, first);
      Reads(ram, sp, p);
      PresentIsOdd(ram, sp, p);
      var ok, t, j;
      ok, t, j, sp' := Walkpgdir(sp, dir, a, false);
      if ok && ram[t][j] % 2 == PTE_P {
        var f := ram[t][j] / PGSIZE;
        PrivateMinus(sp, free, first, p);
        assert f == FrameOf(sp.ptes[p]) && f * PGSIZE / PGSIZE == f && f in RangeFrames(sp.ptes, p, p + 1);
        Kfree(f * PGSIZE);
        ShowsFrame(old(ram), ram, sp);
        InTable(sp.(ptes := sp.ptes - {p}), p, free, first);
        sp' := SetEntry(sp, t, j, p, 0);
      } else {
        assert sp.ptes - {p} == sp.ptes;
      }
    }

    method Deallocuvm(ghost sp: Space, dir: nat, oldsz: nat, newsz: nat) returns (r: nat, ghost sp': Space)
      requires Valid() && Shows(ram, sp) && Private(sp, free, first) && dir == sp.dir && oldsz <= USERTOP
      modifies this
      ensures Valid() && Shows(ram, sp') && Private(sp', free, first) && r == (if newsz >= oldsz then oldsz else newsz)
      ensures sp' == sp.(ptes := sp'.ptes) && Without(sp.ptes, sp'.ptes, Pages(newsz), Pages(oldsz))
      ensures free == Reverse(UserList(sp.ptes, Pages(newsz), Pages(oldsz))) + old(free)
      ensures SameBut(old(ram), ram, TableFrames(sp) + RangeFrames(sp.ptes, Pages(newsz), Pages(oldsz)))
      ensures PagesKept(old(ram), ram, sp, Pages(newsz), Pages(oldsz)) && (UserFlags(sp) ==> UserFlags(sp'))
    {
      hide UserFlags, PagesKept, RangeFrames, FreeList, Shows, Private, Dealloced, UserList, Reverse, Without, Elems, TableFrames, UserFrames, SameBut, Pages;
      sp' := sp;
      ghost var lo, hi := Pages(newsz), Pages(oldsz);
      ghost var p := lo;
      PagesOrder(newsz, oldsz);
      PagesOrder(oldsz, newsz);
      DeallocNone(ram, free, sp, lo, if hi < lo then hi else lo);
      r := oldsz;
      if newsz < oldsz {
        var a := RoundUp(newsz);
        while a < oldsz
          invariant lo <= p <= hi <= UPAGES && a == p * PGSIZE
          invariant Valid() && Shows(ram, sp') && Private(sp', free, first) && sp'.dir == dir
          invariant Dealloced(old(ram), old(free), sp, ram, free, sp', lo, p)
        {
          ghost var r1, f1, s1 := ram, free, sp';
          PageBelow(oldsz, p);
          sp' := FreePage(sp', dir, p, a);
          DeallocMore(old(ram), old(free), sp, r1, f1, s1, ram, free, sp', lo, p);
          a := a + PGSIZE;
          p := p + 1;
        }
        PageBelow(oldsz, p);
        r := newsz;
      }
      DeallocUse(old(ram), old(free), sp, ram, free, sp', lo, hi);
      KeptByRange(old(ram), ram, sp, old(free), first, lo, hi);
      FewerKeepFlags(sp, sp', lo, hi);
    }

    /** Grow a space from oldsz to newsz bytes: either every page is added, on the next free frames and
        zeroed, or the space and the free frames are as before, the free list reversed. */
    method Allocuvm(ghost sp: Space, dir: nat, oldsz: nat, newsz: nat) returns (r: nat, ghost sp': Space)
      requires Valid() && Shows(ram, sp) && Private(sp, free, first) && dir == sp.dir && oldsz <= USERTOP
      requires forall p: nat :: Pages(oldsz) <= p < UPAGES ==> p !in sp.ptes
      modifies this
      ensures Valid() && Shows(ram, sp') && Private(sp', free, first) && (UserFlags(sp) ==> UserFlags(sp'))
      ensures SameBut(old(ram), ram, TableFrames(sp) + Elems(old(free))) && PagesKept(old(ram), ram, sp, 0, 0)
      ensures newsz > USERTOP ==> r == 0 && sp' == sp && free == old(free)
      ensures newsz < oldsz ==> r == oldsz && sp' == sp && free == old(free)
      ensures oldsz <= newsz <= USERTOP && Pages(newsz) - Pages(oldsz) <= |old(free)| ==>
                r == newsz && Given(sp, old(free), ram, free, sp', Pages(oldsz), Pages(newsz))
      ensures oldsz <= newsz <= USERTOP && Pages(newsz) - Pages(oldsz) > |old(free)| ==>
                r == 0 && sp' == sp && free == Reverse(old(free))
    {
      hide UserFlags, PagesKept, RangeFrames, FreeList, Shows, Private, Given, Distinct, Without, UserList, Reverse, Elems, TableFrames, UserFrames, SameBut, Pages;
      sp' := sp;
      r := 0;
      SameNothing(ram, TableFrames(sp) + Elems(free));
      KeptByTables(ram, ram, sp, free, first);
      if newsz > USERTOP { return; }
      if newsz < oldsz { return oldsz, sp; }
      ghost var lo, hi := Pages(oldsz), Pages(newsz);
      ghost var p := lo;
      PagesOrder(oldsz, newsz);
      FreeApart(ram, freelist, free, first, sp);
      GivenNone(sp, free, ram, lo);
      var a := RoundUp(oldsz);
      while a < newsz
        invariant lo <= p <= hi <= UPAGES && a == p * PGSIZE
        invariant Valid() && Shows(ram, sp') && Private(sp', free, first) && sp'.dir == dir
        invariant Given(sp, old(free), ram, free, sp', lo, p)
        invariant SameBut(old(ram), ram, TableFrames(sp) + Elems(old(free)))
      {
        ghost var r1, f1, s1 := ram, free, sp';
        PageBelow(newsz, p);
        NotYet(sp, old(free), ram, free, sp', lo, p);
        var ok;
        ok, sp' := AddPage(sp', dir, p, a, ZeroPage());
        if !ok {
          ghost var q := p;
          r, sp' := Deallocuvm(sp', dir, newsz, oldsz);
          UndoneIs(sp, old(ram), old(free), r1, s1, ram, free, sp', lo, q, hi);
          KeptByTables(old(ram), ram, sp, old(free), first);
          return 0, sp';
        }
        GivenMore(sp, old(ram), old(free), r1, f1, s1, ram, free, sp', lo, p);
        a := a + PGSIZE;
        p := p + 1;
      }
      PageBelow(newsz, p);
      GivenEnough(sp, old(free), ram, free, sp', lo, hi);
      KeptByTables(old(ram), ram, sp, old(free), first);
      GivenKeepFlags(sp, old(free), ram, free, sp', lo, hi);
      r := newsz;
    }

    /** Every frame of the space goes back on the free list. */
    method Freevm(ghost sp: Space, dir: nat)
      requires Valid() && Shows(ram, sp) && Private(sp, free, first) && dir == sp.dir
      modifies this
      ensures Valid() && Elems(free) == Elems(old(free)) + Owned(sp) && SameBut(old(ram), ram, Owned(sp))
    {
      hide FreeList, Shows, Private, Without, UserList, Reverse, Elems, TableFrames, UserFrames, SameBut, Freed, Owned;
      ghost var sp1, r1;
      var sz;
      sz, sp1 := Deallocuvm(sp, dir, USERTOP, 0);
      FreedNone(sp, old(ram), old(free), ram, free, first, sp1);
      var i := 0;
      while i < NENTRIES
        invariant i <= NENTRIES && Valid() && Freed(sp, old(ram), old(free), ram, free, first, i)
      {
        FreedUse(sp, old(ram), old(free), ram, free, first, i);
        r1 := ram;
        ghost var f1 := free;
        if ram[dir][i] % 2 == PTE_P {
          var f := ram[dir][i] / PGSIZE;
          assert f * PGSIZE / PGSIZE == f && f * PGSIZE % PGSIZE == 0;
          Kfree(f * PGSIZE);
        } else {
          SameNothing(ram, {});
        }
        FreedMore(sp, old(ram), old(free), r1, f1, ram, free, first, i);
        i := i + 1;
      }
      FreedAll(sp, old(ram), old(free), ram, free, first);
      r1 := ram;
      ghost var f1 := free;
      Kfree(dir * PGSIZE);
      FreedDone(sp, old(ram), old(free), r1, f1, ram, free, first);
    }

    /** A copy of a space of sz bytes. It takes KFRAMES frames and one for each page; with fewer it fails, and
        gives every frame back if they were enough for setupkvm. */
    method Copyuvm(ghost sp: Space, dir: nat, sz: nat, data: nat) returns (d: nat, ok: bool, ghost c: Space)
      requires Valid() && Shows(ram, sp) && Private(sp, free, first) && dir == sp.dir && sz <= USERTOP
      requires data % PGSIZE == 0 && 0x10_0000 < data < PHYSTOP
      requires forall p: nat :: p < Pages(sz) ==> p in sp.ptes       // otherwise it panics
      modifies this
      ensures Valid() && (ok <==> |old(free)| >= KFRAMES + Pages(sz))
      ensures ok ==> c.dir == d && Copied(sp, data, old(ram), old(free), ram, free, first, c, Pages(sz))
      ensures !ok ==> SameBut(old(ram), ram, Elems(old(free)))
      ensures !ok ==> if |old(free)| >= KFRAMES then Elems(free) == Elems(old(free)) else free == []
    {
      hide FreeList, Shows, Private, Copied, Elems, TableFrames, UserFrames, SameBut, Owned, Pages, NewSpace, Mapped, Grew,
           KernelOnly, OnlyTables;
      FreeApart(ram, freelist, free, first, sp);
      ListBounds(ram, freelist, free, first);
      d, ok, c := Setupkvm(data);
      if !ok { return; }
      CopiedNone(sp, data, old(ram), old(free), ram, free, first, c);
      PagesOrder(sz, sz);
      var i := 0;
      ghost var p := 0;
      while i < sz
        invariant p <= Pages(sz) <= UPAGES && i == p * PGSIZE && |old(free)| == |free| + KFRAMES + p
        invariant Valid() && Copied(sp, data, old(ram), old(free), ram, free, first, c, p) && c.dir == d
      {
        ghost var r1, f1, c1 := ram, free, c;
        PageBelow(sz, p);
        CopiedUse(sp, data, old(ram), old(free), ram, free, first, c, p);
        var found, t, j;
        ghost var same;
        found, t, j, same := Walkpgdir(sp, dir, i, false);
        assert found && ram == r1 && free == f1;
        Reads(ram, sp, p);
        var pa := ram[t][j] / PGSIZE;
        assert pa == FrameOf(sp.ptes[p]);
        var more;
        more, c := AddPage(c, d, p, i, ram[pa]);
        if !more {
          CopiedOwned(sp, data, old(ram), old(free), r1, f1, first, c, p);
          Freevm(c, d);
          SameOwned(old(ram), r1, ram, Elems(old(free)), Owned(c));
          ok := false;
          return;
        }
        CopiedMore(sp, data, old(ram), old(free), r1, f1, c1, ram, free, first, c, p);
        i := i + PGSIZE;
        p := p + 1;
      }
      PageBelow(sz, p);
    }

    /** The frame behind a user address, 0 if user code may not use the page. The directory entry must be
        there: the code reads through a null pointer otherwise. */
    method Uva2ka(ghost sp: Space, dir: nat, uva: nat) returns (pa: nat)
      requires Valid() && Shows(ram, sp) && Private(sp, free, first) && dir == sp.dir && uva < UINT
      requires uva / PGSIZE / NENTRIES in sp.tabs && UserFlags(sp)
      modifies this
      ensures Valid() && ram == old(ram) && free == old(free)
      ensures pa == (if IsUser(sp, uva / PGSIZE) then FrameOf(sp.ptes[uva / PGSIZE]) * PGSIZE else 0)
      ensures IsUser(sp, uva / PGSIZE) ==> pa != 0
    {
      hide FreeList, Shows, Private, Grew;
      FirstIsPositive(ram, freelist, free, first);
      ghost var p := uva / PGSIZE;
      SpaceFacts(sp, free, first, p);
      Reads(ram, sp, p);
      PresentIsOdd(ram, sp, p);
      var ok, t, j;
      ghost var same;
      ok, t, j, same := Walkpgdir(sp, dir, uva, false);
      var pte := ram[t][j];
      if pte % 2 == 0 { return 0; }
      if pte / PTE_U % 2 == 0 { return 0; }
      return pte / PGSIZE * PGSIZE;
    }

    /** copyout: the bytes of p at user address va, page by page, up to the first page user code may not
        use; n is how many were stored. No range that starts at a user page gets past USERTOP, so the sums in
        the loop never wrap. */
    method Copyout(ghost sp: Space, dir: nat, va0: nat, p: seq<Byte>) returns (r: int, ghost n: nat)
      requires Valid() && Shows(ram, sp) && Private(sp, free, first) && dir == sp.dir && va0 < UINT && UserFlags(sp)
      requires p != [] ==> InDirectory(sp, va0)     // otherwise the code reads through a null pointer
      modifies this
      ensures Valid() && Shows(ram, sp) && free == old(free) && n <= |p|
      ensures Stored(old(ram), ram, sp, va0, p[..n]) && forall a: nat :: va0 <= a < va0 + n ==> UserAt(sp, a)
      ensures (r == 0 && n == |p|) || (r == -1 && n < |p| && !UserAt(sp, va0 + n))
    {
      hide FreeList, Shows, Private, Stored, SetBytes;
      var va, len := va0, |p|;
      n := 0;
      StoredNone(ram, sp, va0);
      while len > 0
        invariant 0 <= len <= |p| && n + len == |p| && (len > 0 ==> va == va0 + n)
        invariant Valid() && Shows(ram, sp) && free == old(free) && Stored(old(ram), ram, sp, va0, p[..n])
        invariant forall a: nat :: va0 <= a < va0 + n ==> UserAt(sp, a)
        invariant len > 0 ==> va < UINT && InDirectory(sp, va)
      {
        var vaPage := va / PGSIZE * PGSIZE;
        assert vaPage / PGSIZE == va / PGSIZE && vaPage + va % PGSIZE == va;
        var pa := Uva2ka(sp, dir, vaPage);
        SpaceFacts(sp, free, first, va / PGSIZE);
        if pa == 0 { return -1, n; }
        var k := PGSIZE - (va - vaPage);
        if k > len { k := len; }
        ghost var before := ram;
        StoreOk(sp, free, first, ram, freelist, va / PGSIZE, SetBytes(ram[pa / PGSIZE], va - vaPage, p[n..n + k]));
        StoredMore(old(ram), ram, sp, va0, p[..n], p[n..n + k], free, first);
        assert p[..n] + p[n..n + k] == p[..n + k];
        ram := ram[pa / PGSIZE := SetBytes(ram[pa / PGSIZE], va - vaPage, p[|p| - len..|p| - len + k])];
        SamePage(sp, va, k);
        n := n + k;
        len := len - k;
        va := vaPage + PGSIZE;
        NextIsMapped(sp, free, first, va0 + n - 1, va);
      }
      r := 0;
      assert p[..n] == p;
    }
  }

  lemma FirstIsPositive(ram: Ram, head: nat, free: seq<nat>, first: nat)
    requires FreeList(ram, head, free, first)
    ensures first >= 1
  {}

  /** Only user pages have the user flag. */
  ghost predicate UserFlags(sp: Space) {
    forall q :: q in sp.ptes ==> (sp.ptes[q] / PTE_U % 2 == 1 <==> q < UPAGES)
  }

  /** The spaces that setupkvm and copyuvm make have the flags copyout relies on. */
  lemma CopyHasFlags(sp: Space, data: nat, ram0: Ram, free0: seq<nat>, ram: Ram, free: seq<nat>, first: nat, c: Space, n: nat)
    requires Copied(sp, data, ram0, free0, ram, free, first, c, n) && n <= UPAGES && data % PGSIZE == 0 && 0x10_0000 < data < PHYSTOP
    ensures UserFlags(c)
  {
    hide Shows, Private, SameBut;
    forall q | q in c.ptes ensures c.ptes[q] / PTE_U % 2 == 1 <==> q < UPAGES {
      if q < n {
        assert CopyOf(sp, ram0, c, ram, q);
        FlagBits(FrameOf(c.ptes[q]), PTE_W + PTE_U + PTE_P);
      } else {
        FlagBits(q, c.ptes[q] % PGSIZE);
      }
    }
  }

  /** Pages that allocuvm adds have the flag, and removing pages changes no other's. */
  lemma GivenKeepFlags(sp: Space, free0: seq<nat>, ram: Ram, free: seq<nat>, sp': Space, lo: nat, hi: nat)
    requires Given(sp, free0, ram, free, sp', lo, hi) && hi <= UPAGES
    ensures UserFlags(sp) ==> UserFlags(sp')
  {
    if UserFlags(sp) {
      forall q | q in sp'.ptes ensures sp'.ptes[q] / PTE_U % 2 == 1 <==> q < UPAGES {
        if lo <= q < hi {
          assert OnFrame(sp', ram, lo + (q - lo), free0[q - lo]);
          FlagBits(free0[q - lo], PTE_W + PTE_U + PTE_P);
        }
      }
    }
  }

  lemma FewerKeepFlags(sp: Space, sp': Space, lo: nat, hi: nat)
    requires Without(sp.ptes, sp'.ptes, lo, hi)
    ensures UserFlags(sp) ==> UserFlags(sp')
  {}

  lemma FlagBits(f: nat, flags: nat)
    requires flags < PGSIZE
    ensures (f * PGSIZE + flags) / PTE_U % 2 == flags / PTE_U % 2
  {
    Quotient(f * PGSIZE + flags, f * 1024 + flags / PTE_U, flags % PTE_U);
    OddPart(f * 512, flags / PTE_U);
  }

  lemma Quotient(x: nat, q: nat, m: nat)
    requires x == q * PTE_U + m && m < PTE_U
    ensures x / PTE_U == q
  {}

  lemma OddPart(k: nat, q: nat)
    ensures (2 * k + q) % 2 == q % 2
  {}

  ghost predicate InDirectory(sp: Space, a: nat) { a / PGSIZE / NENTRIES in sp.tabs }

  ghost predicate UserAt(sp: Space, a: nat) { IsUser(sp, a / PGSIZE) }

  lemma SpaceFacts(sp: Space, free: seq<nat>, first: nat, p: nat)
    requires Private(sp, free, first)
    ensures Elems(free) !! TableFrames(sp)
    ensures p in sp.ptes && p < UPAGES ==> IsUser(sp, p) && FrameOf(sp.ptes[p]) >= first
  {
    if p in sp.ptes && p < UPAGES { assert UserPage(sp, p, first); }
  }

  /** Writing a user page disturbs neither the tables nor the free list. */
  lemma StoreOk(sp: Space, free: seq<nat>, first: nat, ram: Ram, head: nat, p: nat, b: Page)
    requires Private(sp, free, first) && Shows(ram, sp) && FreeList(ram, head, free, first) && IsUser(sp, p)
    ensures Shows(ram[FrameOf(sp.ptes[p]) := b], sp) && FreeList(ram[FrameOf(sp.ptes[p]) := b], head, free, first)
  {
    var f := FrameOf(sp.ptes[p]);
    assert UserPage(sp, p, first) && f in UserFrames(sp);
    assert f in free ==> f in Elems(free);
    ShowsFrame(ram, ram[f := b], sp);
    FreeListFrame(ram, ram[f := b], head, free, first);
  }

  /** After a user page comes a page under the same directory entry. */
  lemma NextIsMapped(sp: Space, free: seq<nat>, first: nat, a: nat, va: nat)
    requires Private(sp, free, first) && UserAt(sp, a) && va <= a + PGSIZE
    ensures va < UINT && InDirectory(sp, va)
  {
    assert va / PGSIZE <= a / PGSIZE + 1 <= UPAGES;
  }

  lemma SamePage(sp: Space, va: nat, k: nat)
    requires va % PGSIZE + k <= PGSIZE && UserAt(sp, va)
    ensures forall a: nat :: va <= a < va + k ==> UserAt(sp, a)
  {
    forall a: nat | va <= a < va + k ensures a / PGSIZE == va / PGSIZE {}
  }

  /** The copy c of sp has the kernel's entries and, for each page below n, a frame of its own with the
      page's contents; sp is untouched, and c's frames are the ones missing from the free list. */
  ghost predicate Copied(sp: Space, data: nat, ram0: Ram, free0: seq<nat>, ram: Ram, free: seq<nat>, first: nat, c: Space, n: nat) {
    && Shows(ram, sp) && Private(sp, free0, first) && Shows(ram, c) && Private(c, free, first)
    && Elems(free0) == Elems(free) + Owned(c) && SameBut(ram0, ram, Elems(free0))
    && (forall p: nat :: p in c.ptes <==> p < n || KPte(data, p) != 0)
    && (forall p: nat :: p in c.ptes && n <= p ==> c.ptes[p] == KPte(data, p))
    && (forall p: nat :: p < n ==> p in sp.ptes && CopyOf(sp, ram0, c, ram, p))
  }

  /** Page p of c holds what page p of sp held. */
  ghost predicate CopyOf(sp: Space, ram0: Ram, c: Space, ram: Ram, p: nat)
    requires p in sp.ptes
  {
    && p in c.ptes && FrameOf(sp.ptes[p]) < NFRAMES && FrameOf(c.ptes[p]) < NFRAMES
    && c.ptes[p] == UserPte(FrameOf(c.ptes[p]))
    && ram[FrameOf(c.ptes[p])] == ram0[FrameOf(sp.ptes[p])]
  }

  lemma CopiedNone(sp: Space, data: nat, ram0: Ram, free0: seq<nat>, ram: Ram, free: seq<nat>, first: nat, c: Space)
    requires Shows(ram0, sp) && Private(sp, free0, first) && NewSpace(ram0, free0, ram, free, first, c) && KernelOnly(c, data)
    requires data % PGSIZE == 0 && 0x10_0000 < data < PHYSTOP
    ensures Copied(sp, data, ram0, free0, ram, free, first, c, 0)
  {
    assert forall f :: f in TableFrames(sp) && f < NFRAMES ==> ram[f] == ram0[f];
    ShowsFrame(ram0, ram, sp);
    assert forall p: nat :: KPte(data, p) != 0 ==> p < NENTRIES * NENTRIES;
  }

  lemma CopiedUse(sp: Space, data: nat, ram0: Ram, free0: seq<nat>, ram: Ram, free: seq<nat>, first: nat, c: Space, p: nat)
    requires Copied(sp, data, ram0, free0, ram, free, first, c, p) && p < UPAGES && p in sp.ptes && data > 0x10_0000
    ensures Shows(ram, sp) && Shows(ram, c) && Private(c, free, first) && Elems(free) !! TableFrames(sp)
    ensures p !in c.ptes && p / NENTRIES in sp.tabs && UserPage(sp, p, first)
    ensures ram[FrameOf(sp.ptes[p])] == ram0[FrameOf(sp.ptes[p])]
  {
    assert UserPage(sp, p, first) && FrameOf(sp.ptes[p]) in UserFrames(sp);
    assert TableFrames(sp) <= Owned(sp) && Elems(free) <= Elems(free0);
  }

  lemma CopiedOwned(sp: Space, data: nat, ram0: Ram, free0: seq<nat>, ram: Ram, free: seq<nat>, first: nat, c: Space, p: nat)
    requires Copied(sp, data, ram0, free0, ram, free, first, c, p)
    ensures Elems(free0) == Elems(free) + Owned(c) && SameBut(ram0, ram, Elems(free0))
  {}

  lemma SameOwned(r0: Ram, r1: Ram, r2: Ram, fs: set<nat>, gs: set<nat>)
    requires SameBut(r0, r1, fs) && SameBut(r1, r2, gs) && gs <= fs
    ensures SameBut(r0, r2, fs)
  {}

  lemma CopiedMore(sp: Space, data: nat, ram0: Ram, free0: seq<nat>, r1: Ram, f1: seq<nat>, c1: Space,
                   r2: Ram, f2: seq<nat>, first: nat, c2: Space, p: nat)
    requires Copied(sp, data, ram0, free0, r1, f1, first, c1, p) && p < UPAGES && p in sp.ptes
    requires f1 != [] && f2 == f1[1..] && Shows(r2, c2) && Private(c2, f2, first) && p !in c1.ptes
    requires c2 == c1.(ptes := c1.ptes[p := UserPte(f1[0])]) && f1[0] < NFRAMES && FrameOf(sp.ptes[p]) < NFRAMES
    requires r2[f1[0]] == r1[FrameOf(sp.ptes[p])] == ram0[FrameOf(sp.ptes[p])] && SameBut(r1, r2, TableFrames(c1) + {f1[0]})
    ensures Copied(sp, data, ram0, free0, r2, f2, first, c2, p + 1)
  {
    hide KPte, Shows, Private, SameBut, Elems, Owned, TableFrames, CopyOf, FrameOf, UserPte;
    MovedFrame(c1, f1, c2, f2, p);
    CopiedKeeps(sp, ram0, free0, r1, f1, c1, r2, f2, first, c2);
    forall q: nat | q < p + 1 ensures q in sp.ptes && CopyOf(sp, ram0, c2, r2, q) {
      if q < p { CopyStays(sp, ram0, c1, f1, r1, c2, r2, first, p, q); } else { CopyHere(sp, ram0, c2, r2, p, f1[0]); }
    }
  }

  lemma CopyHere(sp: Space, ram0: Ram, c: Space, ram: Ram, p: nat, f: nat)
    requires p in sp.ptes && FrameOf(sp.ptes[p]) < NFRAMES && f < NFRAMES && p in c.ptes && c.ptes[p] == UserPte(f)
    requires ram[f] == ram0[FrameOf(sp.ptes[p])]
    ensures CopyOf(sp, ram0, c, ram, p)
  {}

  lemma CopyStays(sp: Space, ram0: Ram, c1: Space, f1: seq<nat>, r1: Ram, c2: Space, r2: Ram, first: nat, p: nat, q: nat)
    requires Private(c1, f1, first) && f1 != [] && q < p < UPAGES && q in sp.ptes && CopyOf(sp, ram0, c1, r1, q)
    requires c2 == c1.(ptes := c1.ptes[p := UserPte(f1[0])]) && SameBut(r1, r2, TableFrames(c1) + {f1[0]})
    ensures CopyOf(sp, ram0, c2, r2, q)
  {
    assert f1[0] in Elems(f1) && UserPage(c1, q, first) && FrameOf(c1.ptes[q]) in UserFrames(c1);
  }

  lemma CopiedKeeps(sp: Space, ram0: Ram, free0: seq<nat>, r1: Ram, f1: seq<nat>, c1: Space, r2: Ram, f2: seq<nat>,
                    first: nat, c2: Space)
    requires Private(sp, free0, first) && Shows(r1, sp) && Elems(free0) == Elems(f1) + Owned(c1) && f1 != []
    requires SameBut(ram0, r1, Elems(free0)) && SameBut(r1, r2, TableFrames(c1) + {f1[0]})
    requires Elems(f1) + Owned(c1) == Elems(f2) + Owned(c2)
    ensures Shows(r2, sp) && Elems(free0) == Elems(f2) + Owned(c2) && SameBut(ram0, r2, Elems(free0))
  {
    assert f1[0] in Elems(f1) && TableFrames(c1) <= Owned(c1);
    forall g | g in TableFrames(sp) && g < NFRAMES ensures r2[g] == r1[g] { assert g in Owned(sp); }
    ShowsFrame(r1, r2, sp);
  }

  /** A frame moves from the free list to the space. */
  lemma MovedFrame(c1: Space, f1: seq<nat>, c2: Space, f2: seq<nat>, p: nat)
    requires f1 != [] && f2 == f1[1..] && p !in c1.ptes && p < UPAGES && c2 == c1.(ptes := c1.ptes[p := UserPte(f1[0])])
    ensures Elems(f1) + Owned(c1) == Elems(f2) + Owned(c2)
  {
    var f := f1[0];
    assert f1 == [f] + f2 && Elems(f1) == Elems(f2) + {f};
    assert FrameOf(UserPte(f)) == f;
    forall g | g in UserFrames(c1) ensures g in UserFrames(c2) {
      var q :| q in c1.ptes && q < UPAGES && g == FrameOf(c1.ptes[q]);
      assert q in c2.ptes && c2.ptes[q] == c1.ptes[q];
    }
    assert p in c2.ptes && FrameOf(c2.ptes[p]) == f;
    assert UserFrames(c2) == UserFrames(c1) + {f};
  }

  /** freevm after the user pages and the tables of the first i directory entries. */
  ghost predicate Freed(sp: Space, ram0: Ram, free0: seq<nat>, ram: Ram, free: seq<nat>, first: nat, i: nat) {
    && Shows(ram0, sp) && Private(sp, free0, first) && SameBut(ram0, ram, Owned(sp)) && DirShows(ram, sp)
    && Elems(free) == Elems(free0) + UserFrames(sp) + TabsBelow(sp, i)
  }

  /** The tables of the first i directory entries. */
  function TabsBelow(sp: Space, i: nat): set<nat> { set k | k in sp.tabs && k < i :: sp.tabs[k] }

  lemma FreedNone(sp: Space, ram0: Ram, free0: seq<nat>, ram: Ram, free: seq<nat>, first: nat, sp1: Space)
    requires Shows(ram0, sp) && Private(sp, free0, first) && Shows(ram, sp1) && sp1 == sp.(ptes := sp1.ptes)
    requires free == Reverse(UserList(sp.ptes, Pages(0), Pages(USERTOP))) + free0
    requires SameBut(ram0, ram, TableFrames(sp) + RangeFrames(sp.ptes, Pages(0), Pages(USERTOP)))
    ensures Freed(sp, ram0, free0, ram, free, first, 0)
  {
    hide Private, Shows, DirShows, Elems, UserFrames, RangeFrames, TableFrames, Reverse, UserList;
    var l := UserList(sp.ptes, 0, UPAGES);
    UserListElems(sp.ptes, 0, UPAGES);
    ReverseElems(l);
    ElemsOfBoth(Reverse(l), free0);
    UserRange(sp);
    SameDirectory(ram, sp, sp1);
    assert TabsBelow(sp, 0) == {};
  }

  lemma ElemsOfBoth(s: seq<nat>, t: seq<nat>)
    ensures Elems(s + t) == Elems(s) + Elems(t)
  {}

  lemma UserRange(sp: Space)
    ensures RangeFrames(sp.ptes, 0, UPAGES) == UserFrames(sp)
  {
    hide FrameOf;
  }

  lemma SameDirectory(ram: Ram, sp: Space, sp1: Space)
    requires Shows(ram, sp1) && sp1 == sp.(ptes := sp1.ptes)
    ensures DirShows(ram, sp)
  {
    hide TabShows;
    assert forall k :: 0 <= k < NENTRIES ==> DirEntry(sp1, k) == DirEntry(sp, k);
  }

  lemma FreedUse(sp: Space, ram0: Ram, free0: seq<nat>, ram: Ram, free: seq<nat>, first: nat, i: nat)
    requires Freed(sp, ram0, free0, ram, free, first, i) && i < NENTRIES
    ensures sp.dir < NFRAMES && ram[sp.dir][i] == DirEntry(sp, i)
    ensures i in sp.tabs ==> DirEntry(sp, i) % 2 == PTE_P && DirEntry(sp, i) / PGSIZE == sp.tabs[i] && first <= sp.tabs[i] < NFRAMES
    ensures i in sp.tabs ==> sp.tabs[i] !in free && sp.tabs[i] in TableFrames(sp)
    ensures i !in sp.tabs ==> DirEntry(sp, i) % 2 == 0
  {
    hide Shows, Private, SameBut;
    if i in sp.tabs {
      var t := sp.tabs[i];
      TableIsHeld(sp, ram0, free0, first, i);
      assert t !in Elems(free);
    }
  }

  /** A table not yet given back is neither free, nor a user frame, nor another table. */
  lemma TableIsHeld(sp: Space, ram0: Ram, free0: seq<nat>, first: nat, i: nat)
    requires Shows(ram0, sp) && Private(sp, free0, first) && i in sp.tabs
    ensures var t := sp.tabs[i];
            && first <= t < NFRAMES && t in TableFrames(sp)
            && t !in Elems(free0) && t !in UserFrames(sp) && t !in TabsBelow(sp, i)
  {
    hide DirShows, TabShows;
    var t := sp.tabs[i];
    assert t in sp.tabs.Values && t in TableFrames(sp) && t in Owned(sp);
    forall p | p in sp.ptes && p < UPAGES ensures FrameOf(sp.ptes[p]) != t { assert UserPage(sp, p, first); }
  }

  lemma FreedMore(sp: Space, ram0: Ram, free0: seq<nat>, r1: Ram, f1: seq<nat>, r2: Ram, f2: seq<nat>, first: nat, i: nat)
    requires Freed(sp, ram0, free0, r1, f1, first, i) && i < NENTRIES
    requires Elems(f2) == Elems(f1) + if i in sp.tabs then {sp.tabs[i]} else {}
    requires SameBut(r1, r2, if i in sp.tabs then {sp.tabs[i]} else {})
    ensures Freed(sp, ram0, free0, r2, f2, first, i + 1)
  {
    hide Private, TabShows, Elems, UserFrames;
    OneMoreTable(sp, i);
    assert SameBut(ram0, r2, Owned(sp)) by {
      hide TabsBelow, Shows;
      if i in sp.tabs { assert sp.tabs[i] in sp.tabs.Values && sp.tabs[i] in Owned(sp); }
    }
    if i in sp.tabs { assert sp.tabs[i] != sp.dir; }
    hide Shows, TabsBelow, TableFrames;
  }

  lemma OneMoreTable(sp: Space, i: nat)
    ensures TabsBelow(sp, i + 1) == TabsBelow(sp, i) + if i in sp.tabs then {sp.tabs[i]} else {}
  {}

  lemma FreedAll(sp: Space, ram0: Ram, free0: seq<nat>, ram: Ram, free: seq<nat>, first: nat)
    requires Freed(sp, ram0, free0, ram, free, first, NENTRIES)
    ensures first <= sp.dir < NFRAMES && sp.dir !in free
    ensures Elems(free) + {sp.dir} == Elems(free0) + Owned(sp)
  {
    assert sp.dir in TableFrames(sp) && sp.dir in Owned(sp);
    assert sp.dir !in UserFrames(sp) by {
      forall p | p in sp.ptes && p < UPAGES ensures FrameOf(sp.ptes[p]) != sp.dir { assert UserPage(sp, p, first); }
    }
    assert TabsBelow(sp, NENTRIES) == sp.tabs.Values by {
      forall t | t in sp.tabs.Values ensures t in TabsBelow(sp, NENTRIES) { var k :| k in sp.tabs && sp.tabs[k] == t; }
    }
    assert sp.dir in free ==> sp.dir in Elems(free);
  }

  lemma FreedDone(sp: Space, ram0: Ram, free0: seq<nat>, r1: Ram, f1: seq<nat>, r2: Ram, f2: seq<nat>, first: nat)
    requires Freed(sp, ram0, free0, r1, f1, first, NENTRIES) && Elems(f2) == Elems(f1) + {sp.dir} && SameBut(r1, r2, {sp.dir})
    requires Elems(f1) + {sp.dir} == Elems(free0) + Owned(sp)
    ensures Elems(f2) == Elems(free0) + Owned(sp) && SameBut(ram0, r2, Owned(sp))
  {}

  /** Pages lo to p of the space are on the first p - lo frames of the old free list, zeroed. */
  ghost predicate Given(sp: Space, free0: seq<nat>, ram: Ram, free: seq<nat>, sp': Space, lo: nat, p: nat) {
    && lo <= p && p - lo <= |free0| && free == free0[p - lo..] && sp' == sp.(ptes := sp'.ptes)
    && (forall q: nat :: q in sp'.ptes <==> q in sp.ptes || lo <= q < p)
    && (forall q: nat :: q in sp.ptes && !(lo <= q < p) ==> sp'.ptes[q] == sp.ptes[q])
    && forall i :: 0 <= i < p - lo ==> OnFrame(sp', ram, lo + i, free0[i])
  }

  /** Page p is a zeroed user page on frame f. */
  ghost predicate OnFrame(sp: Space, ram: Ram, p: nat, f: nat) {
    p in sp.ptes && sp.ptes[p] == UserPte(f) && f < NFRAMES && ram[f] == ZeroPage()
  }

  lemma FreeApart(ram: Ram, head: nat, free: seq<nat>, first: nat, sp: Space)
    requires FreeList(ram, head, free, first) && Private(sp, free, first)
    ensures Distinct(free) && Elems(free) !! TableFrames(sp)
  {}

  lemma SameNothing(ram: Ram, fs: set<nat>)
    ensures SameBut(ram, ram, fs)
  {}

  lemma GivenNone(sp: Space, free: seq<nat>, ram: Ram, lo: nat)
    ensures Given(sp, free, ram, free, sp, lo, lo)
  {}

  lemma NotYet(sp: Space, free0: seq<nat>, ram: Ram, free: seq<nat>, sp': Space, lo: nat, p: nat)
    requires Given(sp, free0, ram, free, sp', lo, p) && p !in sp.ptes
    ensures p !in sp'.ptes
  {}

  lemma GivenEnough(sp: Space, free0: seq<nat>, ram: Ram, free: seq<nat>, sp': Space, lo: nat, p: nat)
    requires Given(sp, free0, ram, free, sp', lo, p)
    ensures p - lo <= |free0|
  {}

  lemma GivenMore(sp: Space, ram0: Ram, free0: seq<nat>, r1: Ram, f1: seq<nat>, s1: Space, r2: Ram, f2: seq<nat>, s2: Space,
                  lo: nat, p: nat)
    requires Given(sp, free0, r1, f1, s1, lo, p) && p !in s1.ptes && f1 != [] && f2 == f1[1..] && f1[0] < NFRAMES
    requires s2 == s1.(ptes := s1.ptes[p := UserPte(f1[0])]) && r2[f1[0]] == ZeroPage()
    requires SameBut(r1, r2, TableFrames(s1) + {f1[0]}) && Distinct(free0) && Elems(free0) !! TableFrames(sp)
    requires SameBut(ram0, r1, TableFrames(sp) + Elems(free0))
    ensures Given(sp, free0, r2, f2, s2, lo, p + 1)
    ensures SameBut(ram0, r2, TableFrames(sp) + Elems(free0))
  {
    hide Distinct, SameBut, TableFrames;
    SameTables(sp, s1);
    assert f1[0] == free0[p - lo] && f1[0] in Elems(free0) && f2 == free0[p + 1 - lo..];
    forall i | 0 <= i < p + 1 - lo ensures OnFrame(s2, r2, lo + i, free0[i]) {
      if i < p - lo {
        assert OnFrame(s1, r1, lo + i, free0[i]);
        Untouched(sp, free0, r1, r2, s1, i, p - lo);
      }
    }
    SameMore(sp, ram0, free0, r1, r2, s1, f1[0]);
  }

  lemma SameTables(sp: Space, s1: Space)
    requires s1.dir == sp.dir && s1.tabs == sp.tabs
    ensures TableFrames(s1) == TableFrames(sp)
  {}

  lemma Untouched(sp: Space, free0: seq<nat>, r1: Ram, r2: Ram, s1: Space, i: nat, k: nat)
    requires i < k < |free0| && Distinct(free0) && Elems(free0) !! TableFrames(sp) && TableFrames(s1) == TableFrames(sp)
    requires SameBut(r1, r2, TableFrames(s1) + {free0[k]}) && free0[i] < NFRAMES
    ensures r2[free0[i]] == r1[free0[i]]
  {
    assert free0[i] in Elems(free0);
  }

  lemma SameMore(sp: Space, ram0: Ram, free0: seq<nat>, r1: Ram, r2: Ram, s1: Space, f: nat)
    requires SameBut(ram0, r1, TableFrames(sp) + Elems(free0)) && TableFrames(s1) == TableFrames(sp)
    requires SameBut(r1, r2, TableFrames(s1) + {f}) && f in Elems(free0)
    ensures SameBut(ram0, r2, TableFrames(sp) + Elems(free0))
  {}

  /** The clean-up after a failure finds exactly the frames that were taken. */
  lemma UndoneIs(sp: Space, ram0: Ram, free0: seq<nat>, r1: Ram, s1: Space, r2: Ram, f2: seq<nat>, s2: Space,
                 lo: nat, p: nat, hi: nat)
    requires Given(sp, free0, r1, [], s1, lo, p) && p < hi <= UPAGES && forall q: nat :: lo <= q < UPAGES ==> q !in sp.ptes
    requires s2 == s1.(ptes := s2.ptes) && Without(s1.ptes, s2.ptes, lo, hi)
    requires f2 == Reverse(UserList(s1.ptes, lo, hi)) + []
    requires SameBut(ram0, r1, TableFrames(sp) + Elems(free0))
    requires SameBut(r1, r2, TableFrames(s1) + RangeFrames(s1.ptes, lo, hi))
    ensures s2 == sp && f2 == Reverse(free0) && hi - lo > |free0|
    ensures SameBut(ram0, r2, TableFrames(sp) + Elems(free0))
  {
    hide Reverse, SameBut, Elems, RangeFrames, TableFrames, UserList;
    assert |free0| == p - lo;
    forall i | 0 <= i < p - lo ensures HasFrame(s1.ptes, lo + i, free0[i]) {
      assert OnFrame(s1, r1, lo + i, free0[i]);
    }
    ListIs(s1.ptes, lo, p, hi, free0);
    assert s2.ptes == sp.ptes;
    GivenFrames(sp, free0, r1, s1, lo, p, hi);
    SameUndone(sp, ram0, free0, r1, r2, s1, lo, hi);
    assert f2 == Reverse(free0);
  }

  lemma GivenFrames(sp: Space, free0: seq<nat>, r1: Ram, s1: Space, lo: nat, p: nat, hi: nat)
    requires Given(sp, free0, r1, [], s1, lo, p) && p < hi <= UPAGES && forall q: nat :: lo <= q < UPAGES ==> q !in sp.ptes
    ensures RangeFrames(s1.ptes, lo, hi) <= Elems(free0) && TableFrames(s1) == TableFrames(sp)
  {
    forall f | f in RangeFrames(s1.ptes, lo, hi) ensures f in Elems(free0) {
      var q :| q in s1.ptes && lo <= q < hi && f == FrameOf(s1.ptes[q]);
      assert OnFrame(s1, r1, lo + (q - lo), free0[q - lo]);
    }
  }

  lemma SameUndone(sp: Space, ram0: Ram, free0: seq<nat>, r1: Ram, r2: Ram, s1: Space, lo: nat, hi: nat)
    requires SameBut(ram0, r1, TableFrames(sp) + Elems(free0))
    requires SameBut(r1, r2, TableFrames(s1) + RangeFrames(s1.ptes, lo, hi))
    requires RangeFrames(s1.ptes, lo, hi) <= Elems(free0) && TableFrames(s1) == TableFrames(sp)
    ensures SameBut(ram0, r2, TableFrames(sp) + Elems(free0))
  {}

  ghost predicate HasFrame(m: map<nat, nat>, q: nat, f: nat) { q in m && m[q] == UserPte(f) }

  lemma {:induction false} ListIs(m: map<nat, nat>, lo: nat, p: nat, hi: nat, s: seq<nat>)
    requires lo <= p <= hi && |s| == p - lo
    requires forall i :: 0 <= i < p - lo ==> HasFrame(m, lo + i, s[i])
    requires forall q: nat :: p <= q < hi ==> q !in m
    ensures UserList(m, lo, hi) == s
    decreases hi
  {
    if hi == lo {
    } else if p < hi {
      ListIs(m, lo, p, hi - 1, s);
      assert s + [] == s;
    } else {
      var t := s[..|s|-1];
      assert HasFrame(m, lo + (|s| - 1), s[|s|-1]);
      ListIs(m, lo, p - 1, p - 1, t);
      assert s == t + [s[|s|-1]] && FrameOf(m[p - 1]) == s[|s|-1];
    }
  }

  /** deallocuvm with the pages from lo to p done. */
  ghost predicate Dealloced(r0: Ram, f0: seq<nat>, s0: Space, r1: Ram, f1: seq<nat>, s1: Space, lo: nat, p: nat) {
    && s1 == s0.(ptes := s1.ptes) && Without(s0.ptes, s1.ptes, lo, p)
    && f1 == Reverse(UserList(s0.ptes, lo, p)) + f0
    && SameBut(r0, r1, TableFrames(s0) + RangeFrames(s0.ptes, lo, p))
  }

  lemma DeallocNone(ram: Ram, free: seq<nat>, sp: Space, lo: nat, hi: nat)
    requires hi <= lo
    ensures Dealloced(ram, free, sp, ram, free, sp, lo, lo) && Dealloced(ram, free, sp, ram, free, sp, lo, hi)
  {}

  lemma DeallocUse(r0: Ram, f0: seq<nat>, s0: Space, r1: Ram, f1: seq<nat>, s1: Space, lo: nat, p: nat)
    requires Dealloced(r0, f0, s0, r1, f1, s1, lo, p)
    ensures s1 == s0.(ptes := s1.ptes) && Without(s0.ptes, s1.ptes, lo, p)
    ensures f1 == Reverse(UserList(s0.ptes, lo, p)) + f0 && SameBut(r0, r1, TableFrames(s0) + RangeFrames(s0.ptes, lo, p))
  {}

  lemma DeallocMore(r0: Ram, f0: seq<nat>, s0: Space, r1: Ram, f1: seq<nat>, s1: Space, r2: Ram, f2: seq<nat>, s2: Space,
                    lo: nat, p: nat)
    requires Dealloced(r0, f0, s0, r1, f1, s1, lo, p) && lo <= p && s2 == s1.(ptes := s1.ptes - {p})
    requires f2 == if p in s1.ptes then [FrameOf(s1.ptes[p])] + f1 else f1
    requires SameBut(r1, r2, TableFrames(s1) + RangeFrames(s1.ptes, p, p + 1))
    ensures Dealloced(r0, f0, s0, r2, f2, s2, lo, p + 1)
  {
    FewerFrames(s0, s1, lo, p);
    RangeMore(s0.ptes, s1.ptes, lo, p);
    WithoutMore(s0.ptes, s1.ptes, lo, p, s2.ptes);
    ListMore(s0.ptes, s1.ptes, lo, p, f0, f1, f2);
    hide Reverse, UserList, Without, RangeFrames, TableFrames;
  }

  // ---------- user pages ----------

  function UserPte(f: nat): nat { f * PGSIZE + PTE_W + PTE_U + PTE_P }

  function RoundUp(sz: nat): (a: nat)
    ensures a == Pages(sz) * PGSIZE
  {
    (sz + PGSIZE - 1) / PGSIZE * PGSIZE
  }

  /** Pages that hold the first sz bytes. */
  function Pages(sz: nat): nat { (sz + PGSIZE - 1) / PGSIZE }

  lemma PageBelow(sz: nat, p: nat)
    ensures p < Pages(sz) <==> p * PGSIZE < sz
  {}

  lemma PagesOrder(a: nat, b: nat)
    ensures a <= b ==> Pages(a) <= Pages(b)
    ensures b <= USERTOP ==> Pages(b) <= UPAGES
  {}

  /** m' is m without the pages from lo to hi. */
  ghost predicate Without(m: map<nat, nat>, m': map<nat, nat>, lo: nat, hi: nat) {
    && (forall p: nat :: p in m' <==> p in m && !(lo <= p < hi))
    && (forall p: nat :: p in m' ==> m'[p] == m[p])
  }

  lemma InTable(sp: Space, p: nat, free: seq<nat>, first: nat)
    requires Private(sp, free, first) && p < UPAGES
    ensures p / NENTRIES == 0 && 0 in sp.tabs && Covered(sp, p, p + 1) && Elems(free) !! TableFrames(sp)
    ensures p in sp.ptes ==> UserPage(sp, p, first)
  {}

  lemma PrivatePlus(sp: Space, free: seq<nat>, first: nat, p: nat)
    requires Private(sp, free, first) && free != [] && p < UPAGES && p !in sp.ptes && free[0] !in free[1..]
    requires first <= free[0] < NFRAMES
    ensures Private(sp, free[1..], first)
    ensures Private(sp.(ptes := sp.ptes[p := UserPte(free[0])]), free[1..], first) && free[0] !in TableFrames(sp)
  {
    hide Elems, TableFrames, UserFrames, FrameOf, UserPte;
    var f, sp' := free[0], sp.(ptes := sp.ptes[p := UserPte(free[0])]);
    SplitList(free);
    OneMoreFrame(sp, p, f);
    SameTables(sp, sp');
    forall q | q in sp'.ptes && q < UPAGES ensures UserPage(sp', q, first) && (q != p ==> FrameOf(sp'.ptes[q]) != f) {
      if q != p { OtherFrame(sp, q, first, free); }
    }
    hide UserPage;
  }

  lemma SplitList(free: seq<nat>)
    requires free != [] && free[0] !in free[1..]
    ensures free[0] in Elems(free) && Elems(free[1..]) <= Elems(free) && free[0] !in Elems(free[1..])
  {}

  lemma OneMoreFrame(sp: Space, p: nat, f: nat)
    ensures UserFrames(sp.(ptes := sp.ptes[p := UserPte(f)])) <= UserFrames(sp) + {f} && FrameOf(UserPte(f)) == f
  {
    assert FrameOf(UserPte(f)) == f;
    hide FrameOf, UserPte;
  }

  lemma OtherFrame(sp: Space, q: nat, first: nat, free: seq<nat>)
    requires Private(sp, free, first) && q in sp.ptes && q < UPAGES && free != []
    ensures UserPage(sp, q, first) && FrameOf(sp.ptes[q]) != free[0]
  {
    assert FrameOf(sp.ptes[q]) in UserFrames(sp) && free[0] in Elems(free);
  }

  lemma PrivateMinus(sp: Space, free: seq<nat>, first: nat, p: nat)
    requires Private(sp, free, first) && p in sp.ptes && p < UPAGES
    ensures var f := FrameOf(sp.ptes[p]);
            && first <= f < NFRAMES && f !in free && f !in TableFrames(sp) && f in UserFrames(sp)
            && Private(sp.(ptes := sp.ptes - {p}), [f] + free, first)
  {
    var f, sp' := FrameOf(sp.ptes[p]), sp.(ptes := sp.ptes - {p});
    assert UserPage(sp, p, first) && f in UserFrames(sp);
    assert f in free ==> f in Elems(free);
    assert Elems([f] + free) == Elems(free) + {f};
    forall q | q in sp'.ptes && q < UPAGES ensures UserPage(sp', q, first) && FrameOf(sp'.ptes[q]) != f {
      assert UserPage(sp, q, first);
    }
    assert f !in UserFrames(sp') && UserFrames(sp') <= UserFrames(sp);
  }

  lemma OneEntered(sp: Space, sp': Space, p: nat, v: nat, r1: Ram, free: seq<nat>, r2: Ram)
    requires v % PGSIZE == 0 && p !in sp.ptes && Entered(sp.ptes, sp'.ptes, p, p + 1, v, PTE_W + PTE_U)
    requires sp'.tabs == sp.tabs && Grew(r1, free, sp, r2, free, sp')
    ensures sp' == sp.(ptes := sp.ptes[p := UserPte(v / PGSIZE)]) && SameBut(r1, r2, TableFrames(sp))
  {
    GrewSame(r1, free, sp, r2, free, sp');
    hide Grew, SameBut, Elems, TableFrames;
    OneEntry(sp.ptes, sp'.ptes, p, v);
  }

  lemma GrewSame(r0: Ram, f0: seq<nat>, s0: Space, r1: Ram, f1: seq<nat>, s1: Space)
    requires Grew(r0, f0, s0, r1, f1, s1) && s1.tabs == s0.tabs
    ensures s1 == s0.(ptes := s1.ptes) && SameBut(r0, r1, TableFrames(s0))
  {
    hide Elems, SameBut;
  }

  lemma OneEntry(m: map<nat, nat>, m': map<nat, nat>, p: nat, v: nat)
    requires v % PGSIZE == 0 && p !in m && Entered(m, m', p, p + 1, v, PTE_W + PTE_U)
    ensures m' == m[p := UserPte(v / PGSIZE)]
  {
    assert m'[p] == UserPte(v / PGSIZE);
    hide UserPte;
    assert forall q :: q in m' <==> q in m || q == p;
  }

  lemma WithoutMore(m: map<nat, nat>, m1: map<nat, nat>, lo: nat, p: nat, m2: map<nat, nat>)
    requires Without(m, m1, lo, p) && lo <= p && m2 == m1 - {p}
    ensures Without(m, m2, lo, p + 1)
  {}

  lemma ListMore(m: map<nat, nat>, m1: map<nat, nat>, lo: nat, p: nat, f0: seq<nat>, f1: seq<nat>, f2: seq<nat>)
    requires Without(m, m1, lo, p) && lo <= p && f1 == Reverse(UserList(m, lo, p)) + f0
    requires if p in m then f2 == [FrameOf(m[p])] + f1 else f2 == f1
    ensures f2 == Reverse(UserList(m, lo, p + 1)) + f0
  {
    var s := UserList(m, lo, p);
    if p in m {
      var t := s + [FrameOf(m[p])];
      assert t[..|s|] == s && UserList(m, lo, p + 1) == t;
      assert Reverse(t) == [FrameOf(m[p])] + Reverse(s);
    } else {
      assert UserList(m, lo, p + 1) == s + [] == s;
    }
  }

  lemma FewerFrames(sp: Space, s1: Space, lo: nat, p: nat)
    requires s1 == sp.(ptes := s1.ptes) && Without(sp.ptes, s1.ptes, lo, p)
    ensures TableFrames(s1) == TableFrames(sp)
    ensures p >= lo && p in s1.ptes ==> p in sp.ptes && s1.ptes[p] == sp.ptes[p]
    ensures p >= lo && p in sp.ptes ==> p in s1.ptes
  {}

  lemma RangeMore(m: map<nat, nat>, m1: map<nat, nat>, lo: nat, p: nat)
    requires Without(m, m1, lo, p) && lo <= p
    ensures RangeFrames(m, lo, p + 1) == RangeFrames(m, lo, p) + RangeFrames(m1, p, p + 1)
  {
    var a, b, c := RangeFrames(m, lo, p + 1), RangeFrames(m, lo, p), RangeFrames(m1, p, p + 1);
    forall f | f in a ensures f in b + c {
      var q :| q in m && lo <= q < p + 1 && f == FrameOf(m[q]);
      assert q == p ==> p in m1 && f in c;
    }
    forall f | f in b ensures f in a { var q :| q in m && lo <= q < p && f == FrameOf(m[q]); }
    forall f | f in c ensures f in a { var q :| q in m1 && p <= q < p + 1 && f == FrameOf(m1[q]); assert q in m && m[q] == m1[q]; }
  }

  lemma KeptByRange(ram: Ram, ram': Ram, sp: Space, free: seq<nat>, first: nat, lo: nat, hi: nat)
    requires Private(sp, free, first) && hi <= UPAGES && SameBut(ram, ram', TableFrames(sp) + RangeFrames(sp.ptes, lo, hi))
    ensures PagesKept(ram, ram', sp, lo, hi)
  {
    hide Private, RangeFrames, TableFrames, Elems, PagesKept;
    OthersKept(ram, ram', sp, free, first, lo, hi);
  }

  lemma KeptByTables(ram: Ram, ram': Ram, sp: Space, free: seq<nat>, first: nat)
    requires Private(sp, free, first) && SameBut(ram, ram', TableFrames(sp) + Elems(free))
    ensures PagesKept(ram, ram', sp, 0, 0)
  {
    hide Private, RangeFrames, TableFrames, Elems, PagesKept;
    OthersKept(ram, ram', sp, free, first, 0, 0);
  }

  // ---------- the kernel's mappings ----------

  function KStart(data: nat, k: nat): nat { [USERTOP, 0x10_0000, data, 0xFE00_0000][if k < 4 then k else 0] }
  function KEnd(data: nat, k: nat): nat { [0x10_0000, data, PHYSTOP, 0][if k < 4 then k else 0] }
  function KPerm(k: nat): nat { if k == 1 then 0 else PTE_W }

  /** A 32-bit difference: the device range ends at 2^32. */
  function KSize(data: nat, k: nat): nat { (KEnd(data, k) - KStart(data, k)) % UINT }

  /** The first page of entry k of kmap, 2^20 after the last. */
  function KLo(data: nat, k: nat): nat { if k < 4 then KStart(data, k) / PGSIZE else NENTRIES * NENTRIES }
  function KHi(data: nat, k: nat): nat { KLo(data, k) + KSize(data, k) / PGSIZE }

  /** The kernel's entry of a page, 0 if it maps none there: addresses map to themselves. */
  function KPte(data: nat, p: nat): nat {
    if UPAGES <= p < 256 || data / PGSIZE <= p < NFRAMES || 0xFE000 <= p < 0x10_0000 then p * PGSIZE + PTE_W + PTE_P
    else if 256 <= p < data / PGSIZE then p * PGSIZE + PTE_P else 0
  }

  /** Below page b the space has the kernel's entries and no others, and none above. */
  ghost predicate Mapped(sp: Space, data: nat, b: nat) {
    && (forall p: nat :: p in sp.ptes <==> p < b && KPte(data, p) != 0)
    && (forall p: nat :: p in sp.ptes ==> sp.ptes[p] == KPte(data, p))
  }

  const KTABLES := 12               // page tables of the kernel's mappings: four below PHYSTOP, eight for devices
  const KFRAMES := KTABLES + 1      // and the directory

  /** The directory entries of the kernel's mappings. */
  function KDirs(): set<nat> { {0, 1, 2, 3} + {1016, 1017, 1018, 1019, 1020, 1021, 1022, 1023} }

  /** Only tables that the kernel's mappings need. */
  ghost predicate InKernel(sp: Space) { sp.tabs.Keys <= KDirs() }

  lemma NoTables(sp: Space)
    requires sp.tabs == map[]
    ensures InKernel(sp)
  {}

  lemma StillInKernel(s0: Space, s1: Space, data: nat, k: nat)
    requires data % PGSIZE == 0 && 0x10_0000 < data < PHYSTOP && k < 4
    requires InKernel(s0) && OnlyTables(s0, s1, Dirs(KLo(data, k), KHi(data, k)))
    ensures InKernel(s1)
  {
    hide KDirs, Dirs, KLo, KHi;
    KmapDirs(data, k);
  }

  /** sp' has no tables but those of sp and for the given directory entries. */
  ghost predicate OnlyTables(sp: Space, sp': Space, ds: set<nat>) { sp'.tabs.Keys <= sp.tabs.Keys + ds }

  lemma SameKeys(sp: Space, s1: Space, s2: Space, ds: set<nat>)
    requires OnlyTables(sp, s1, ds) && s2.tabs == s1.tabs
    ensures OnlyTables(sp, s2, ds)
  {}

  /** The table for one of the directory entries is missing. */
  ghost predicate Lacks(sp: Space, ds: set<nat>) { !(ds <= sp.tabs.Keys) }

  /** The directory entries of pages lo to hi. */
  function Dirs(lo: nat, hi: nat): set<nat> { set p | lo <= p < hi :: p / NENTRIES }

  lemma DirsMore(lo: nat, p: nat)
    requires lo <= p
    ensures Dirs(lo, p + 1) == Dirs(lo, p) + {p / NENTRIES}
  {
    forall i | i in Dirs(lo, p) ensures i in Dirs(lo, p + 1) { var q :| lo <= q < p && i == q / NENTRIES; }
  }

  lemma DirsWithin(lo: nat, p: nat, hi: nat)
    requires lo <= p < hi
    ensures Dirs(lo, p) <= Dirs(lo, hi) && p / NENTRIES in Dirs(lo, hi)
  {
    forall i | i in Dirs(lo, p) ensures i in Dirs(lo, hi) { var q :| lo <= q < p && i == q / NENTRIES; }
  }

  lemma KmapDirs(data: nat, k: nat)
    requires data % PGSIZE == 0 && 0x10_0000 < data < PHYSTOP && k < 4
    ensures Dirs(KLo(data, k), KHi(data, k)) <= KDirs()
  {
    forall p: nat | KLo(data, k) <= p < KHi(data, k) ensures p / NENTRIES in KDirs() {
      assert p < NFRAMES || 0xFE000 <= p < 0x10_0000;
    }
  }

  lemma KDirsCount()
    ensures |KDirs()| == KTABLES
  {
    assert |{0, 1, 2, 3}| == 4 && |{1016, 1017, 1018, 1019, 1020, 1021, 1022, 1023}| == 8;
  }

  lemma {:induction false} FewerElems(a: set<nat>, b: set<nat>)
    requires a <= b
    ensures |a| <= |b| && (|a| == |b| ==> a == b)
  {
    if a != {} {
      var x :| x in a;
      FewerElems(a - {x}, b - {x});
    }
  }

  /** A missing table means that fewer frames than the kernel's tables were there. */
  lemma TooFew(r0: Ram, f0: seq<nat>, s0: Space, r1: Ram, f1: seq<nat>, s1: Space, data: nat, k: nat)
    requires Grew(r0, f0, s0, r1, f1, s1) && s0.tabs == map[] && f1 == []
    requires data % PGSIZE == 0 && 0x10_0000 < data < PHYSTOP && k < 4
    requires InKernel(s1) && Lacks(s1, Dirs(KLo(data, k), KHi(data, k)))
    ensures |f0| < KTABLES
  {
    hide KDirs, TableFrames, Elems, SameBut, Dirs, KLo, KHi;
    KmapDirs(data, k);
    KDirsCount();
    FewerElems(s1.tabs.Keys, KDirs());
  }

  /** The kernel's pages need every one of its tables. */
  lemma AllTables(r0: Ram, f0: seq<nat>, s0: Space, r1: Ram, f1: seq<nat>, s1: Space, data: nat)
    requires Grew(r0, f0, s0, r1, f1, s1) && s0.tabs == map[] && Shows(r1, s1) && KernelOnly(s1, data) && InKernel(s1)
    requires 0x10_0000 < data
    ensures |f0| == |f1| + KTABLES
  {
    hide Shows, KDirs, KernelOnly, TableFrames, Elems, SameBut;
    forall i | i in KDirs() ensures i in s1.tabs.Keys { InKernelTable(r1, s1, data, i); }
    assert s1.tabs.Keys == KDirs();
    KDirsCount();
  }

  lemma InKernelTable(ram: Ram, sp: Space, data: nat, i: nat)
    requires Shows(ram, sp) && KernelOnly(sp, data) && 0x10_0000 < data && i in KDirs()
    ensures i in sp.tabs
  {
    hide TabShows, DirShows;
    var p := if i == 0 then UPAGES else i * NENTRIES;
    assert p / NENTRIES == i && KPte(data, p) != 0 by { hide Shows, KernelOnly; }
    assert p in sp.ptes;
  }

  ghost predicate KernelOnly(sp: Space, data: nat) { Mapped(sp, data, NENTRIES * NENTRIES) }

  /** A space made from frames that were free, and only those written. */
  ghost predicate NewSpace(ram0: Ram, free0: seq<nat>, ram: Ram, free: seq<nat>, first: nat, sp: Space) {
    && Shows(ram, sp) && Private(sp, free, first) && UserFrames(sp) == {}
    && Elems(free0) == Elems(free) + Owned(sp) && SameBut(ram0, ram, Elems(free0))
  }

  lemma MappedNone(sp: Space, data: nat)
    requires data % PGSIZE == 0 && 0x10_0000 < data < PHYSTOP && sp.ptes == map[]
    ensures Mapped(sp, data, KLo(data, 0))
  {}

  lemma KLast(data: nat)
    ensures KLo(data, 4) == NENTRIES * NENTRIES
  {}

  lemma ListBounds(ram: Ram, head: nat, s: seq<nat>, first: nat)
    requires FreeList(ram, head, s, first)
    ensures forall f :: f in Elems(s) ==> first <= f < NFRAMES
  {}

  lemma KmapFacts(data: nat, k: nat)
    requires data % PGSIZE == 0 && 0x10_0000 < data < PHYSTOP && k < 4
    ensures KSize(data, k) >= 1 && KStart(data, k) + KSize(data, k) <= UINT && KStart(data, k) % PGSIZE == 0
    ensures KHi(data, k) == (KStart(data, k) + KSize(data, k) - 1) / PGSIZE + 1
    ensures KLo(data, k) == KStart(data, k) / PGSIZE && KPerm(k) % 2 == 0
    ensures KLo(data, k) < KHi(data, k) <= KLo(data, k + 1)
    ensures k == 0 ==> KLo(data, k) / NENTRIES == 0
    ensures forall p: nat :: KLo(data, k) <= p < KHi(data, k) ==> KPte(data, p) == p * PGSIZE + KPerm(k) + PTE_P
    ensures forall p: nat :: KHi(data, k) <= p < KLo(data, k + 1) ==> KPte(data, p) == 0
  {
    KmapEntries(data, k);
    KmapBounds(data, k);
    hide KPte, KHi, KLo;
  }

  lemma KmapBounds(data: nat, k: nat)
    requires data % PGSIZE == 0 && 0x10_0000 < data < PHYSTOP && k < 4
    ensures KLo(data, k) == [UPAGES, 256, data / PGSIZE, 0xFE000][k] && KHi(data, k) == [256, data / PGSIZE, NFRAMES, NENTRIES * NENTRIES][k]
    ensures KLo(data, k + 1) == [256, data / PGSIZE, 0xFE000, NENTRIES * NENTRIES][k] && 256 < data / PGSIZE < NFRAMES
  {}

  lemma KmapEntries(data: nat, k: nat)
    requires data % PGSIZE == 0 && 0x10_0000 < data < PHYSTOP && k < 4
    ensures forall p: nat :: KLo(data, k) <= p < KHi(data, k) ==> KPte(data, p) == p * PGSIZE + KPerm(k) + PTE_P
    ensures forall p: nat :: KHi(data, k) <= p < KLo(data, k + 1) ==> KPte(data, p) == 0
  {
    KmapBounds(data, k);
    hide KHi, KLo, KSize, KStart, KEnd;
  }

  lemma Unmapped(sp: Space, data: nat, k: nat)
    requires Mapped(sp, data, KLo(data, k))
    ensures forall p: nat :: KLo(data, k) <= p < KHi(data, k) ==> p !in sp.ptes
  {}

  lemma MappedMore(s0: Space, s1: Space, data: nat, k: nat)
    requires data % PGSIZE == 0 && 0x10_0000 < data < PHYSTOP && k < 4 && Mapped(s0, data, KLo(data, k))
    requires Entered(s0.ptes, s1.ptes, KLo(data, k), KHi(data, k), KStart(data, k), KPerm(k))
    requires Covered(s1, KLo(data, k), KHi(data, k))
    ensures Mapped(s1, data, KLo(data, k + 1)) && (k == 0 ==> 0 in s1.tabs)
  {
    KmapFacts(data, k);
    assert KStart(data, k) == KLo(data, k) * PGSIZE;
    hide KPte, KStart, KSize, KEnd, KLo, KHi;
    if k == 0 { assert KLo(data, k) / NENTRIES in s1.tabs; }
  }

  lemma GrewKeys(r0: Ram, f0: seq<nat>, s0: Space, r1: Ram, f1: seq<nat>, s1: Space)
    requires Grew(r0, f0, s0, r1, f1, s1)
    ensures s0.tabs.Keys <= s1.tabs.Keys && (0 in s0.tabs ==> 0 in s1.tabs)
  {
    if 0 in s0.tabs { assert 0 in s0.tabs.Keys; }
  }

  /** Only frames that were free were written. */
  lemma OnlyFreed(ram0: Ram, free0: seq<nat>, r1: Ram, f1: seq<nat>, sp0: Space, ram: Ram, free: seq<nat>, sp: Space)
    requires Grew(r1, f1, sp0, ram, free, sp) && TableFrames(sp0) == {sp0.dir} && Elems(free0) == Elems(f1) + {sp0.dir}
    requires SameBut(ram0, r1, {sp0.dir})
    ensures SameBut(ram0, ram, Elems(free0))
  {}

  lemma NewSpaceFrom(ram0: Ram, free0: seq<nat>, r1: Ram, f1: seq<nat>, sp0: Space, ram: Ram, free: seq<nat>, first: nat, sp: Space, data: nat)
    requires Grew(r1, f1, sp0, ram, free, sp) && TableFrames(sp0) == {sp0.dir} && Elems(free0) == Elems(f1) + {sp0.dir}
    requires SameBut(ram0, r1, {sp0.dir}) && Shows(ram, sp) && 0 in sp.tabs
    requires KernelOnly(sp, data) && data / PGSIZE >= 256
    requires forall f :: f in Elems(free0) ==> first <= f < NFRAMES
    ensures NewSpace(ram0, free0, ram, free, first, sp) && sp.dir == sp0.dir
  {
    hide Shows, KernelOnly, SameBut, Grew, Elems;
    NoUserPage(sp, data);
    OnlyFreed(ram0, free0, r1, f1, sp0, ram, free, sp);
    GrewElems(r1, f1, sp0, ram, free, sp);
    hide TableFrames;
    assert Owned(sp) == TableFrames(sp);
    assert forall f :: f in TableFrames(sp) ==> f in Elems(free0);
  }

  lemma NoUserPage(sp: Space, data: nat)
    requires KernelOnly(sp, data) && data / PGSIZE >= 256
    ensures UserFrames(sp) == {} && forall p :: p in sp.ptes ==> p >= UPAGES
  {
    assert forall p :: p in sp.ptes ==> p >= UPAGES;
    hide KernelOnly;
  }

  lemma GrewElems(r0: Ram, f0: seq<nat>, s0: Space, r1: Ram, f1: seq<nat>, s1: Space)
    requires Grew(r0, f0, s0, r1, f1, s1)
    ensures s1.dir == s0.dir && Elems(f1) + TableFrames(s1) == Elems(f0) + TableFrames(s0) && Elems(f1) !! TableFrames(s1)
  {
    hide Elems, TableFrames, SameBut;
  }

  /** mappages with the pages from lo to p done, of those up to hi. */
  ghost predicate Part(r0: Ram, f0: seq<nat>, s0: Space, r1: Ram, f1: seq<nat>, s1: Space,
                       lo: nat, hi: nat, p: nat, pa: nat, perm: nat)
  {
    && Grew(r0, f0, s0, r1, f1, s1) && Entered(s0.ptes, s1.ptes, lo, p, pa, perm) && Covered(s1, lo, p)
    && (Covered(s0, lo, hi) ==> s1.tabs == s0.tabs && f1 == f0) && OnlyTables(s0, s1, Dirs(lo, p))
  }

  /** The pages of [la, la + size), numbered from lo to hi. */
  ghost predicate PagesOf(la: nat, size: nat, lo: nat, hi: nat) {
    size >= 1 && la + size <= UINT && lo == la / PGSIZE && hi == (la + size - 1) / PGSIZE + 1
  }

  function RoundDown(a: nat): nat { a / PGSIZE * PGSIZE }

  lemma RangeFits(la: nat, size: nat, lo: nat, hi: nat)
    requires PagesOf(la, size, lo, hi)
    ensures lo < hi <= NENTRIES * NENTRIES && size >= 1
    ensures RoundDown(la) == lo * PGSIZE && RoundDown(la + size - 1) == (hi - 1) * PGSIZE
  {}

  lemma Aligned(pa: nat, n: nat)
    requires pa % PGSIZE == 0
    ensures (pa + n * PGSIZE) % PGSIZE == 0
  {}

  lemma PageNumber(a: nat, p: nat)
    requires a == p * PGSIZE && p < NENTRIES * NENTRIES
    ensures a / PGSIZE == p && a < UINT
  {}

  lemma LastPage(p: nat, hi: nat)
    requires 0 < hi && p * PGSIZE == (hi - 1) * PGSIZE
    ensures p + 1 == hi
  {}

  lemma PartNone(ram: Ram, free: seq<nat>, sp: Space, lo: nat, hi: nat, pa: nat, perm: nat)
    requires Elems(free) !! TableFrames(sp)
    ensures Part(ram, free, sp, ram, free, sp, lo, hi, lo, pa, perm)
  {}

  lemma PartUse(r0: Ram, f0: seq<nat>, s0: Space, r1: Ram, f1: seq<nat>, s1: Space,
                lo: nat, hi: nat, p: nat, pa: nat, perm: nat)
    requires Part(r0, f0, s0, r1, f1, s1, lo, hi, p, pa, perm) && lo <= p < hi && p !in s0.ptes
    ensures s1.dir == s0.dir && Elems(f1) !! TableFrames(s1) && p !in s1.ptes
  {}

  lemma PartStep(r0: Ram, f0: seq<nat>, s0: Space, r1: Ram, f1: seq<nat>, s1: Space, r2: Ram, f2: seq<nat>, s2: Space,
                 lo: nat, hi: nat, p: nat, pa: nat, perm: nat, ok: bool)
    requires OnlyTables(s1, s2, {p / NENTRIES}) && (!ok ==> p / NENTRIES !in s2.tabs)
    requires Part(r0, f0, s0, r1, f1, s1, lo, hi, p, pa, perm) && lo <= p < hi && p !in s0.ptes
    requires Grew(r1, f1, s1, r2, f2, s2)
    requires ok ==> p / NENTRIES in s2.tabs && s2.ptes == s1.ptes[p := pa + (p - lo) * PGSIZE + perm + PTE_P]
    requires p / NENTRIES in s1.tabs ==> ok && s2.tabs == s1.tabs && f2 == f1
    ensures Grew(r0, f0, s0, r2, f2, s2) && (!ok ==> !Covered(s0, lo, hi))
    ensures !ok ==> OnlyTables(s0, s2, Dirs(lo, hi)) && Lacks(s2, Dirs(lo, hi))
    ensures ok ==> Part(r0, f0, s0, r2, f2, s2, lo, hi, p + 1, pa, perm)
  {
    hide Dirs, Grew, Entered, Covered;
    DirsMore(lo, p);
    DirsWithin(lo, p, hi);
    GrewTrans(r0, f0, s0, r1, f1, s1, r2, f2, s2);
    GrewApart(r1, f1, s1, r2, f2, s2);
    if ok { EnteredStep(s0.ptes, s1.ptes, s2.ptes, lo, p, pa, perm); }
    CoveredStep(s0, s1, s2, lo, hi, p);
  }

  lemma EnteredStep(m: map<nat, nat>, m1: map<nat, nat>, m2: map<nat, nat>, lo: nat, p: nat, pa: nat, perm: nat)
    requires Entered(m, m1, lo, p, pa, perm) && lo <= p && p !in m
    requires m2 == m1[p := pa + (p - lo) * PGSIZE + perm + PTE_P]
    ensures Entered(m, m2, lo, p + 1, pa, perm)
  {}

  lemma CoveredStep(s0: Space, s1: Space, s2: Space, lo: nat, hi: nat, p: nat)
    requires Covered(s1, lo, p) && lo <= p < hi && s1.tabs.Keys <= s2.tabs.Keys
    ensures p / NENTRIES in s2.tabs ==> Covered(s2, lo, p + 1)
    ensures Covered(s0, lo, hi) ==> p / NENTRIES in s0.tabs
  {
    forall q: nat | lo <= q < p ensures q / NENTRIES in s2.tabs { assert q / NENTRIES in s1.tabs.Keys; }
  }

  lemma PartDone(r0: Ram, f0: seq<nat>, s0: Space, r1: Ram, f1: seq<nat>, s1: Space,
                 lo: nat, hi: nat, pa: nat, perm: nat)
    requires Part(r0, f0, s0, r1, f1, s1, lo, hi, hi, pa, perm)
    ensures Grew(r0, f0, s0, r1, f1, s1) && Entered(s0.ptes, s1.ptes, lo, hi, pa, perm) && Covered(s1, lo, hi)
    ensures Covered(s0, lo, hi) ==> s1.tabs == s0.tabs && f1 == f0
    ensures OnlyTables(s0, s1, Dirs(lo, hi))
  {}

  /** Every page from lo to hi has its table. */
  ghost predicate Covered(sp: Space, lo: nat, hi: nat) {
    forall p: nat :: lo <= p < hi ==> p / NENTRIES in sp.tabs
  }

  lemma GrewApart(r0: Ram, f0: seq<nat>, s0: Space, r1: Ram, f1: seq<nat>, s1: Space)
    requires Grew(r0, f0, s0, r1, f1, s1)
    ensures s1.dir == s0.dir && Elems(f1) !! TableFrames(s1) && s0.tabs.Keys <= s1.tabs.Keys
  {}

  lemma GrewWrite(r0: Ram, f0: seq<nat>, s0: Space, r1: Ram, s1: Space)
    requires Elems(f0) !! TableFrames(s0) && SameBut(r0, r1, TableFrames(s0)) && s1 == s0.(ptes := s1.ptes)
    ensures Grew(r0, f0, s0, r1, f0, s1)
  {}

  lemma TableGrew(ram: Ram, free: seq<nat>, free': seq<nat>, sp: Space, i: nat, t: nat)
    requires sp.dir < NFRAMES && i < NENTRIES && i !in sp.tabs && t < NFRAMES && Elems(free) !! TableFrames(sp)
    requires Elems(free) == Elems(free') + {t} && t !in Elems(free') && |free| == |free'| + 1
    ensures var sp' := sp.(tabs := sp.tabs[i := t]);
            && Grew(ram, free, sp, WithTable(ram, sp, i, t), free', sp')
            && OnlyTables(sp, sp', {i}) && t !in TableFrames(sp)
    ensures forall f :: f in free' && f < NFRAMES ==> WithTable(ram, sp, i, t)[f] == ram[f]
  {
    hide WithTable, SameBut, Grew;
    OnlyTwo(ram, sp, i, t);
    TablesApart(sp, free, free', t);
    AddedTable(sp, i, t);
    hide TableFrames, Elems;
    var ram', sp' := WithTable(ram, sp, i, t), sp.(tabs := sp.tabs[i := t]);
    SameTwo(ram, ram', sp.dir, t, TableFrames(sp'));
    GrewByTable(ram, free, sp, ram', free', sp', i, t);
  }

  lemma AddedTable(sp: Space, i: nat, t: nat)
    requires i !in sp.tabs
    ensures var sp' := sp.(tabs := sp.tabs[i := t]);
            TableFrames(sp') == TableFrames(sp) + {t} && sp'.tabs.Keys == sp.tabs.Keys + {i}
    ensures sp.dir in TableFrames(sp)
  {
    AddedValue(sp.tabs, i, t);
  }

  lemma GrewByTable(ram: Ram, free: seq<nat>, sp: Space, ram': Ram, free': seq<nat>, sp': Space, i: nat, t: nat)
    requires TableFrames(sp') == TableFrames(sp) + {t} && sp'.tabs.Keys == sp.tabs.Keys + {i} && i !in sp.tabs.Keys
    requires Elems(free') !! TableFrames(sp) + {t} && Elems(free') + (TableFrames(sp) + {t}) == Elems(free) + TableFrames(sp)
    requires sp'.dir == sp.dir && SameBut(ram, ram', TableFrames(sp')) && |free| == |free'| + 1
    ensures Grew(ram, free, sp, ram', free', sp')
  {
    hide TableFrames, Elems, SameBut;
  }

  lemma OnlyTwo(ram: Ram, sp: Space, i: nat, t: nat)
    requires sp.dir < NFRAMES && i < NENTRIES && t < NFRAMES
    ensures forall f :: 0 <= f < NFRAMES && f != t && f != sp.dir ==> WithTable(ram, sp, i, t)[f] == ram[f]
  {}

  lemma SameTwo(ram: Ram, ram': Ram, d: nat, t: nat, fs: set<nat>)
    requires d in fs && t in fs && forall f :: 0 <= f < NFRAMES && f != t && f != d ==> ram'[f] == ram[f]
    ensures SameBut(ram, ram', fs)
  {}

  /** The new table and the directory are on no frame that stays free. */
  lemma TablesApart(sp: Space, free: seq<nat>, free': seq<nat>, t: nat)
    requires Elems(free) !! TableFrames(sp) && Elems(free) == Elems(free') + {t} && t !in Elems(free')
    ensures t !in TableFrames(sp) && sp.dir in TableFrames(sp)
    ensures Elems(free') !! TableFrames(sp) + {t} && Elems(free') + (TableFrames(sp) + {t}) == Elems(free) + TableFrames(sp)
    ensures forall f :: f in free' ==> f != t && f != sp.dir
  {
    assert t in Elems(free) && sp.dir in TableFrames(sp);
    hide TableFrames;
    forall f | f in free' ensures f != t && f != sp.dir { assert f in Elems(free') && f in Elems(free); }
  }
}
