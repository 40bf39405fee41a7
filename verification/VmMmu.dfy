/** What the processor sees: its own walk of the directory and the tables in memory, against the spaces that
    setupkvm, allocuvm, deallocuvm and copyuvm make. (kernel/vm.c, include/mmu.h) */
module VmMmu {
  import opened CTypes
  import opened VmSpec
  import opened Vm

  /** A translation: the physical address, and whether stores and user code are allowed. */
  datatype Access = Fault | Mapped(pa: nat, write: bool, user: bool)

  /** Bits 22 to 31 of the address select the directory entry and bits 12 to 21 the table entry; bits 0, 1 and
      2 of an entry are present, writable and user, and both entries must allow an access. */
  function Mmu(ram: Ram, dir: nat, va: nat): Access
    requires dir < NFRAMES && va < UINT
  {
    var pde := ram[dir][va / 0x40_0000];
    if pde % 2 == 0 || pde / 0x1000 >= NFRAMES then Fault
    else
      var pte := ram[pde / 0x1000][va / 0x1000 % 0x400];
      if pte % 2 == 0 then Fault
      else Mapped(pte / 0x1000 * 0x1000 + va % 0x1000, pde / 2 % 2 == 1 && pte / 2 % 2 == 1, pde / 4 % 2 == 1 && pte / 4 % 2 == 1)
  }

  /** The processor finds exactly the pages of the space, with the flags of their entries. */
  lemma MmuSees(ram: Ram, sp: Space, va: nat)
    requires Shows(ram, sp) && va < UINT
    ensures sp.dir < NFRAMES
    ensures var p := va / PGSIZE;
            Mmu(ram, sp.dir, va) ==
              if p in sp.ptes then Mapped(FrameOf(sp.ptes[p]) * PGSIZE + va % PGSIZE, sp.ptes[p] / 2 % 2 == 1, sp.ptes[p] / 4 % 2 == 1)
              else Fault
  {
    hide Shows;
    var p := va / PGSIZE;
    Indices(va);
    Reads(ram, sp, p);
    PresentIsOdd(ram, sp, p);
    if p / NENTRIES in sp.tabs { Flags(sp.tabs[p / NENTRIES], 7); }
  }

  lemma Indices(va: nat)
    requires va < UINT
    ensures va / 0x40_0000 == va / PGSIZE / NENTRIES && va / 0x1000 % 0x400 == va / PGSIZE % NENTRIES
    ensures va / PGSIZE < NENTRIES * NENTRIES
  {
    var p, j := va / PGSIZE, va / PGSIZE % NENTRIES;
    assert va == (p / NENTRIES * NENTRIES + j) * PGSIZE + va % PGSIZE;
    TopBits(va, p / NENTRIES, j * PGSIZE + va % PGSIZE);
  }

  lemma TopBits(va: nat, q: nat, m: nat)
    requires va == q * 0x40_0000 + m && m < 0x40_0000
    ensures va / 0x40_0000 == q
  {}

  /** The frame and the flags of an entry. */
  lemma Flags(f: nat, flags: nat)
    requires flags < 8
    ensures var e := f * PGSIZE + flags;
            && FrameOf(e) == f && e % 2 == flags % 2 && (e / 2 % 2 == 1 <==> flags / 2 % 2 == 1) && (e / 4 % 2 == 1 <==> flags / 4 % 2 == 1)
  {
    FlagBits(f, flags);
    HalfBits(f, flags);
  }

  lemma HalfBits(f: nat, flags: nat)
    requires flags < 8
    ensures (f * PGSIZE + flags) / 2 % 2 == flags / 2 % 2 && (f * PGSIZE + flags) % 2 == flags % 2
  {
    HalfOf(f * PGSIZE + flags, f * 2048 + flags / 2, flags % 2);
    OddPart(f * 1024, flags / 2);
    OddPart(f * 2048, flags);
  }

  lemma HalfOf(x: nat, q: nat, m: nat)
    requires x == q * 2 + m && m < 2
    ensures x / 2 == q
  {}

  /** The kernel's half: addresses map to themselves, from the top of user space to the end of memory and for
      the devices; the kernel's code is read-only, and user code may use none of it. */
  lemma KernelSeen(ram: Ram, sp: Space, data: nat, va: nat)
    requires Shows(ram, sp) && KernelOnly(sp, data) && data % PGSIZE == 0 && 0x10_0000 < data < PHYSTOP && va < UINT
    ensures sp.dir < NFRAMES
    ensures Mmu(ram, sp.dir, va) ==
              if 0xA0000 <= va < 0x100_0000 || 0xFE00_0000 <= va then Mapped(va, !(0x10_0000 <= va < data), false) else Fault
  {
    hide Shows, KernelOnly;
    MmuSees(ram, sp, va);
    KernelEntry(sp, data, va / PGSIZE);
    PageRange(va, data);
    var p := va / PGSIZE;
    assert p * PGSIZE + va % PGSIZE == va;
    Flags(p, 1);
    Flags(p, 3);
  }

  lemma KernelEntry(sp: Space, data: nat, p: nat)
    requires KernelOnly(sp, data) && p < NENTRIES * NENTRIES && data % PGSIZE == 0 && 0x10_0000 < data < PHYSTOP
    ensures p in sp.ptes <==> UPAGES <= p < NFRAMES || 0xFE000 <= p || (256 <= p < data / PGSIZE)
    ensures p in sp.ptes ==> sp.ptes[p] == p * PGSIZE + if 256 <= p < data / PGSIZE then 1 else 3
  {}

  lemma PageRange(va: nat, data: nat)
    requires data % PGSIZE == 0 && 0x10_0000 < data < PHYSTOP && va < UINT
    ensures var p := va / PGSIZE;
            && p < NENTRIES * NENTRIES && (UPAGES <= p < NFRAMES <==> 0xA0000 <= va < 0x100_0000)
            && (0xFE000 <= p <==> 0xFE00_0000 <= va) && (256 <= p < data / PGSIZE <==> 0x10_0000 <= va < data)
            && data / PGSIZE < NFRAMES
  {}

  /** A user page: its frame, writable and for user code. */
  lemma UserSeen(ram: Ram, sp: Space, va: nat, f: nat)
    requires Shows(ram, sp) && va < UINT && va / PGSIZE in sp.ptes && sp.ptes[va / PGSIZE] == UserPte(f)
    ensures sp.dir < NFRAMES && Mmu(ram, sp.dir, va) == Mapped(f * PGSIZE + va % PGSIZE, true, true)
  {
    hide Shows, FrameOf;
    MmuSees(ram, sp, va);
    Flags(f, 7);
  }

  /** allocuvm: every new address reaches its own place in the next frames of the free list, for user code to
      read and write; what was mapped before is where it was. */
  lemma GrownSeen(ram0: Ram, sp: Space, free0: seq<nat>, ram: Ram, free: seq<nat>, sp': Space, lo: nat, hi: nat, va: nat)
    requires Shows(ram0, sp) && Shows(ram, sp') && Given(sp, free0, ram, free, sp', lo, hi) && va < UINT
    ensures sp.dir < NFRAMES && sp'.dir < NFRAMES
    ensures var p := va / PGSIZE;
            if lo <= p < hi then free0[p - lo] < NFRAMES && Mmu(ram, sp'.dir, va) == Mapped(free0[p - lo] * PGSIZE + va % PGSIZE, true, true)
            else Mmu(ram, sp'.dir, va) == Mmu(ram0, sp.dir, va)
  {
    hide Shows, UserPte, FrameOf;
    MmuSees(ram0, sp, va);
    MmuSees(ram, sp', va);
    var p := va / PGSIZE;
    if lo <= p < hi {
      assert OnFrame(sp', ram, lo + (p - lo), free0[p - lo]);
      UserSeen(ram, sp', va, free0[p - lo]);
    }
  }

  /** deallocuvm: exactly the addresses of the pages between the sizes fault now. */
  lemma ShrunkSeen(ram0: Ram, sp: Space, ram: Ram, sp': Space, lo: nat, hi: nat, va: nat)
    requires Shows(ram0, sp) && Shows(ram, sp') && Without(sp.ptes, sp'.ptes, lo, hi) && va < UINT
    ensures sp.dir < NFRAMES && sp'.dir < NFRAMES
    ensures Mmu(ram, sp'.dir, va) == if lo <= va / PGSIZE < hi then Fault else Mmu(ram0, sp.dir, va)
  {
    hide Shows, FrameOf;
    MmuSees(ram0, sp, va);
    MmuSees(ram, sp', va);
  }

  /** copyuvm: below the size user code finds, at the same address, a byte page with the parent's contents on
      another frame; the kernel's half is as in every space. */
  lemma CopySeen(sp: Space, data: nat, ram0: Ram, free0: seq<nat>, ram: Ram, free: seq<nat>, first: nat, c: Space, n: nat, va: nat)
    requires Copied(sp, data, ram0, free0, ram, free, first, c, n) && n <= UPAGES && va < UINT
    requires data % PGSIZE == 0 && 0x10_0000 < data < PHYSTOP
    ensures c.dir < NFRAMES
    ensures var p := va / PGSIZE;
            p < n ==> p in sp.ptes && FrameOf(sp.ptes[p]) < NFRAMES && p in c.ptes && FrameOf(c.ptes[p]) < NFRAMES
                      && Mmu(ram, c.dir, va) == Mapped(FrameOf(c.ptes[p]) * PGSIZE + va % PGSIZE, true, true)
                      && ram[FrameOf(c.ptes[p])] == ram0[FrameOf(sp.ptes[p])]
    ensures va / PGSIZE >= n ==>
              Mmu(ram, c.dir, va) ==
                if 0xA0000 <= va < 0x100_0000 || 0xFE00_0000 <= va then Mapped(va, !(0x10_0000 <= va < data), false) else Fault
  {
    hide Shows, Private, SameBut, Owned, Elems, UserPte, FrameOf;
    var p := va / PGSIZE;
    MmuSees(ram, c, va);
    PageRange(va, data);
    if p < n {
      assert CopyOf(sp, ram0, c, ram, p);
      UserSeen(ram, c, va, FrameOf(c.ptes[p]));
    } else {
      assert p * PGSIZE + va % PGSIZE == va;
      Flags(p, 1);
      Flags(p, 3);
    }
  }
}
