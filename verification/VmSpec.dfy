/** Physical memory as words: the free list threaded through free frames, and two-level page tables.
    (kernel/vm.c, kalloc.c, mmu.h) */
module VmSpec {
  import opened CTypes

  const PGSIZE := 4096
  const NENTRIES := 1024                // words in a frame, entries of a directory or table
  const NFRAMES := 4096                 // PHYSTOP / PGSIZE
  const PHYSTOP := 0x100_0000
  const USERTOP := 0xA0000
  const UPAGES := 160                   // USERTOP / PGSIZE

  // page-table entry flags; an entry is a frame's address plus its flags
  const PTE_P := 1
  const PTE_W := 2
  const PTE_U := 4

  type Page = s: seq<nat> | |s| == NENTRIES witness seq(NENTRIES, _ => 0)
  type Ram = s: seq<Page> | |s| == NFRAMES witness ZeroRam()

  function ZeroPage(): (b: Page)
    ensures forall i :: 0 <= i < NENTRIES ==> b[i] == 0
  {
    seq(NENTRIES, _ => 0)
  }

  function ZeroRam(): seq<Page> {
    var z: Page := ZeroPage();
    seq<Page>(NFRAMES, _ => z)
  }

  /** memset(v, 1, PGSIZE), then the link to the next free frame. */
  function JunkPage(next: nat): (b: Page)
    ensures b[0] == next
  {
    seq(NENTRIES, _ => 0x0101_0101)[0 := next]
  }

  function Elems(s: seq<nat>): set<nat> { set x | x in s }

  ghost predicate Distinct(s: seq<nat>) { forall i, j :: 0 <= i < j < |s| ==> s[i] != s[j] }

  // ---------- the free list ----------

  /** The address of the first frame of a list, 0 for none. */
  function Head(s: seq<nat>): nat { if s == [] then 0 else s[0] * PGSIZE }

  /** The frames of the list are allocatable, distinct and linked through their first words. */
  ghost predicate FreeList(ram: Ram, head: nat, s: seq<nat>, first: nat) {
    && head == Head(s) && 1 <= first && Distinct(s)
    && (forall i :: 0 <= i < |s| ==> first <= s[i] < NFRAMES)
    && forall i :: 0 <= i < |s| ==> Link(ram, s, i)
  }

  ghost predicate Link(ram: Ram, s: seq<nat>, i: nat)
    requires i < |s|
  {
    s[i] < NFRAMES && ram[s[i]][0] == Head(s[i+1..])
  }

  /** What happens to other frames does not touch the list. */
  lemma FreeListFrame(ram: Ram, ram': Ram, head: nat, s: seq<nat>, first: nat)
    requires FreeList(ram, head, s, first) && forall f :: f in s && f < NFRAMES ==> ram'[f] == ram[f]
    ensures FreeList(ram', head, s, first)
  {
    forall i | 0 <= i < |s| ensures Link(ram', s, i) { assert Link(ram, s, i) && s[i] in s; }
  }

  lemma FreeListTail(ram: Ram, head: nat, s: seq<nat>, first: nat)
    requires FreeList(ram, head, s, first) && s != []
    ensures s[0] != 0 && first <= s[0] < NFRAMES && s[0] !in s[1..]
    ensures ram[s[0]][0] == Head(s[1..]) && FreeList(ram, Head(s[1..]), s[1..], first)
    ensures Elems(s) == Elems(s[1..]) + {s[0]}
  {
    assert Link(ram, s, 0);
    var t := s[1..];
    forall i | 0 <= i < |t| ensures Link(ram, t, i) {
      assert Link(ram, s, i + 1) && s[i+2..] == t[i+1..];
    }
    assert s == [s[0]] + t;
  }

  lemma FreeListPush(ram: Ram, head: nat, s: seq<nat>, first: nat, f: nat)
    requires FreeList(ram, head, s, first) && f !in s && first <= f < NFRAMES
    ensures FreeList(ram[f := JunkPage(head)], f * PGSIZE, [f] + s, first)
    ensures Elems([f] + s) == Elems(s) + {f}
  {
    var ram', t := ram[f := JunkPage(head)], [f] + s;
    forall i | 0 <= i < |t| ensures Link(ram', t, i) {
      if i == 0 {
        assert t[1..] == s;
      } else {
        assert Link(ram, s, i - 1) && t[i] == s[i-1] && t[i+1..] == s[i..];
      }
    }
    forall i, j | 0 <= i < j < |t| ensures t[i] != t[j] { assert t[j] == s[j-1]; }
  }

  // ---------- page tables ----------

  /** An address space: its directory's frame, the frame of each page table, and each present page's
      entry, by page number. */
  datatype Space = Space(dir: nat, tabs: map<nat, nat>, ptes: map<nat, nat>)

  function DirEntry(sp: Space, i: nat): nat {
    if i in sp.tabs then sp.tabs[i] * PGSIZE + PTE_P + PTE_W + PTE_U else 0
  }

  function TabEntry(sp: Space, p: nat): nat {
    if p in sp.ptes then sp.ptes[p] else 0
  }

  /** The frames that hold the directory and the tables. */
  function TableFrames(sp: Space): set<nat> { {sp.dir} + sp.tabs.Values }

  function FrameOf(pte: nat): nat { pte / PGSIZE }

  /** The frames mapped below USERTOP. */
  function UserFrames(sp: Space): set<nat> { set p | p in sp.ptes && p < UPAGES :: FrameOf(sp.ptes[p]) }

  function Owned(sp: Space): set<nat> { TableFrames(sp) + UserFrames(sp) }

  ghost predicate DirShows(ram: Ram, sp: Space) {
    sp.dir < NFRAMES && forall i :: 0 <= i < NENTRIES ==> ram[sp.dir][i] == DirEntry(sp, i)
  }

  ghost predicate TabShows(ram: Ram, sp: Space, i: nat)
    requires i in sp.tabs
  {
    sp.tabs[i] < NFRAMES && forall j :: 0 <= j < NENTRIES ==> ram[sp.tabs[i]][j] == TabEntry(sp, i * NENTRIES + j)
  }

  /** Memory holds exactly this address space's tables. */
  ghost predicate Shows(ram: Ram, sp: Space) {
    && DirShows(ram, sp) && (forall i :: i in sp.tabs ==> TabShows(ram, sp, i))
    && (forall i :: i in sp.tabs ==> i < NENTRIES && sp.tabs[i] != sp.dir)
    && (forall i, k :: i in sp.tabs && k in sp.tabs && i != k ==> sp.tabs[i] != sp.tabs[k])
    && forall p :: p in sp.ptes ==> p / NENTRIES in sp.tabs && sp.ptes[p] % 2 == 1
  }

  /** User pages are on allocatable frames of their own, and none of the space's frames is free. */
  ghost predicate Private(sp: Space, free: seq<nat>, first: nat) {
    && (forall p :: p in sp.ptes && p < UPAGES ==> UserPage(sp, p, first))
    && (forall p, q :: p in sp.ptes && q in sp.ptes && p < q < UPAGES ==> FrameOf(sp.ptes[p]) != FrameOf(sp.ptes[q]))
    && (forall f :: f in TableFrames(sp) ==> first <= f < NFRAMES)
    && Elems(free) !! Owned(sp) && 0 in sp.tabs
  }

  ghost predicate UserPage(sp: Space, p: nat, first: nat)
    requires p in sp.ptes
  {
    first <= FrameOf(sp.ptes[p]) < NFRAMES && FrameOf(sp.ptes[p]) !in TableFrames(sp)
  }

  /** Frames outside fs are as before. */
  ghost predicate SameBut(ram: Ram, ram': Ram, fs: set<nat>) {
    forall f :: 0 <= f < NFRAMES && f !in fs ==> ram'[f] == ram[f]
  }

  /** The user pages of sp outside lo to hi hold what they held. */
  ghost predicate PagesKept(ram: Ram, ram': Ram, sp: Space, lo: nat, hi: nat) {
    forall p :: p in sp.ptes && p < UPAGES && !(lo <= p < hi) ==> PageKept(ram, ram', FrameOf(sp.ptes[p]))
  }

  ghost predicate PageKept(ram: Ram, ram': Ram, f: nat) { f < NFRAMES && ram'[f] == ram[f] }

  /** Writing tables, free frames and the frames of the pages from lo to hi keeps all other pages. */
  lemma OthersKept(ram: Ram, ram': Ram, sp: Space, free: seq<nat>, first: nat, lo: nat, hi: nat)
    requires Private(sp, free, first) && hi <= UPAGES
    requires SameBut(ram, ram', TableFrames(sp) + RangeFrames(sp.ptes, lo, hi) + Elems(free))
    ensures PagesKept(ram, ram', sp, lo, hi)
  {
    forall p | p in sp.ptes && p < UPAGES && !(lo <= p < hi) ensures PageKept(ram, ram', FrameOf(sp.ptes[p])) {
      assert UserPage(sp, p, first) && FrameOf(sp.ptes[p]) in UserFrames(sp);
      assert forall q :: q in sp.ptes && lo <= q < hi ==> FrameOf(sp.ptes[q]) != FrameOf(sp.ptes[p]);
    }
  }

  lemma ShowsFrame(ram: Ram, ram': Ram, sp: Space)
    requires Shows(ram, sp) && forall f :: f in TableFrames(sp) && f < NFRAMES ==> ram'[f] == ram[f]
    ensures Shows(ram', sp)
  {
    forall i | i in sp.tabs ensures TabShows(ram', sp, i) { assert TabShows(ram, sp, i) && sp.tabs[i] in sp.tabs.Values; }
  }

  /** Reading the tables finds the space. */
  lemma Reads(ram: Ram, sp: Space, p: nat)
    requires Shows(ram, sp) && p < NENTRIES * NENTRIES
    ensures sp.dir < NFRAMES && ram[sp.dir][p / NENTRIES] == DirEntry(sp, p / NENTRIES)
    ensures p / NENTRIES in sp.tabs ==>
      var t := sp.tabs[p / NENTRIES];
      t in sp.tabs.Values && t < NFRAMES && ram[t][p % NENTRIES] == TabEntry(sp, p) && DirEntry(sp, p / NENTRIES) % 2 == 1
    ensures p / NENTRIES !in sp.tabs ==> DirEntry(sp, p / NENTRIES) % 2 == 0 && p !in sp.ptes
  {
    hide TabEntry, Shows;
    DirReads(ram, sp, p / NENTRIES, p);
    if p / NENTRIES in sp.tabs { TabReads(ram, sp, p / NENTRIES, p % NENTRIES); }
  }

  lemma DirReads(ram: Ram, sp: Space, i: nat, p: nat)
    requires Shows(ram, sp) && i < NENTRIES && i == p / NENTRIES
    ensures sp.dir < NFRAMES && ram[sp.dir][i] == DirEntry(sp, i)
    ensures i in sp.tabs ==> sp.tabs[i] in sp.tabs.Values && DirEntry(sp, i) % 2 == 1
    ensures i !in sp.tabs ==> DirEntry(sp, i) % 2 == 0 && p !in sp.ptes
  {
    hide TabShows;
  }

  lemma TabReads(ram: Ram, sp: Space, i: nat, j: nat)
    requires Shows(ram, sp) && i < NENTRIES && j < NENTRIES && i in sp.tabs
    ensures sp.tabs[i] < NFRAMES && ram[sp.tabs[i]][j] == TabEntry(sp, i * NENTRIES + j)
  {
    hide TabEntry, DirShows;
    assert TabShows(ram, sp, i);
  }

  /** Frame t zeroed and entered in the directory at i. */
  function WithTable(ram: Ram, sp: Space, i: nat, t: nat): Ram
    requires sp.dir < NFRAMES && i < NENTRIES && t < NFRAMES
  {
    var r := ram[t := ZeroPage()];
    r[sp.dir := r[sp.dir][i := t * PGSIZE + PTE_P + PTE_W + PTE_U]]
  }

  /** A new zeroed page table. */
  lemma NewTable(ram: Ram, sp: Space, i: nat, t: nat)
    requires Shows(ram, sp) && i < NENTRIES && i !in sp.tabs && t < NFRAMES && t !in TableFrames(sp)
    ensures Shows(WithTable(ram, sp, i, t), sp.(tabs := sp.tabs[i := t]))
    ensures TableFrames(sp.(tabs := sp.tabs[i := t])) == TableFrames(sp) + {t}
  {
    var sp' := sp.(tabs := sp.tabs[i := t]);
    var ram' := WithTable(ram, sp, i, t);
    forall k | k in sp.tabs ensures sp.tabs[k] != t { assert sp.tabs[k] in sp.tabs.Values; }
    forall k | k in sp'.tabs ensures TabShows(ram', sp', k) && sp'.tabs[k] != sp.dir {
      hide TabShows, TabEntry, DirEntry;
      if k != i { SameTable(ram, sp, ram', sp', k); } else { EmptyTable(ram', sp', i); }
    }
    hide TabShows, TabEntry;
    AddedValue(sp.tabs, i, t);
  }

  lemma SameTable(ram: Ram, sp: Space, ram': Ram, sp': Space, k: nat)
    requires k in sp.tabs && k in sp'.tabs && sp.tabs[k] == sp'.tabs[k] && sp.ptes == sp'.ptes
    requires TabShows(ram, sp, k) && ram'[sp.tabs[k]] == ram[sp.tabs[k]]
    ensures TabShows(ram', sp', k)
  {}

  lemma EmptyTable(ram: Ram, sp: Space, i: nat)
    requires i in sp.tabs && sp.tabs[i] < NFRAMES && ram[sp.tabs[i]] == ZeroPage()
    requires forall p :: p in sp.ptes ==> p / NENTRIES != i
    ensures TabShows(ram, sp, i)
  {
    forall p: nat | p / NENTRIES == i ensures TabEntry(sp, p) == 0 {}
  }

  lemma PresentIsOdd(ram: Ram, sp: Space, p: nat)
    requires Shows(ram, sp)
    ensures p in sp.ptes <==> TabEntry(sp, p) % 2 == 1
  {}

  lemma AddedValue(m: map<nat, nat>, k: nat, v: nat)
    requires k !in m
    ensures m[k := v].Values == m.Values + {v}
  {
    var n := m[k := v];
    assert forall x :: x in m ==> n[x] == m[x];
    assert n[k] == v;
    forall y | y in m.Values ensures y in n.Values { var x :| x in m && m[x] == y; assert n[x] == y; }
  }

  /** One entry is written. */
  lemma WriteEntry(ram: Ram, sp: Space, p: nat, w: nat)
    requires Shows(ram, sp) && p < NENTRIES * NENTRIES && p / NENTRIES in sp.tabs && w % 2 == 1
    ensures var t := sp.tabs[p / NENTRIES];
            t < NFRAMES && t in TableFrames(sp)
            && Shows(ram[t := ram[t][p % NENTRIES := w]], sp.(ptes := sp.ptes[p := w]))
  {
    var t := sp.tabs[p / NENTRIES];
    assert TabShows(ram, sp, p / NENTRIES);
    Written(ram, sp, sp.(ptes := sp.ptes[p := w]), p, w);
  }

  /** One entry is cleared. */
  lemma ClearEntry(ram: Ram, sp: Space, p: nat)
    requires Shows(ram, sp) && p < NENTRIES * NENTRIES && p / NENTRIES in sp.tabs
    ensures var t := sp.tabs[p / NENTRIES];
            t < NFRAMES && t in TableFrames(sp) && Shows(ram[t := ram[t][p % NENTRIES := 0]], sp.(ptes := sp.ptes - {p}))
  {
    var t := sp.tabs[p / NENTRIES];
    assert TabShows(ram, sp, p / NENTRIES);
    Written(ram, sp, sp.(ptes := sp.ptes - {p}), p, 0);
  }

  lemma Written(ram: Ram, sp: Space, sp': Space, p: nat, w: nat)
    requires Shows(ram, sp) && p < NENTRIES * NENTRIES && p / NENTRIES in sp.tabs
    requires sp' == sp.(ptes := sp'.ptes) && TabEntry(sp', p) == w
    requires forall q: nat :: q != p ==> TabEntry(sp', q) == TabEntry(sp, q)
    requires forall q :: q in sp'.ptes ==> sp'.ptes[q] % 2 == 1 && q / NENTRIES in sp.tabs
    ensures var t := sp.tabs[p / NENTRIES]; t < NFRAMES && Shows(ram[t := ram[t][p % NENTRIES := w]], sp')
  {
    hide TabEntry, DirEntry;
    var t := sp.tabs[p / NENTRIES];
    assert TabShows(ram, sp, p / NENTRIES);
    var ram' := ram[t := ram[t][p % NENTRIES := w]];
    assert DirShows(ram', sp') by {
      hide TabShows;
      forall k | 0 <= k < NENTRIES ensures DirEntry(sp', k) == DirEntry(sp, k) { SameDir(sp, sp', k); }
    }
    forall k | k in sp'.tabs ensures TabShows(ram', sp', k) {
      hide TabShows;
      assert TabShows(ram, sp, k);
      WrittenTable(ram, sp, sp', p, w, k);
    }
    hide TabShows, DirShows;
  }

  lemma SameDir(sp: Space, sp': Space, k: nat)
    requires sp'.tabs == sp.tabs
    ensures DirEntry(sp', k) == DirEntry(sp, k)
  {}

  lemma WrittenTable(ram: Ram, sp: Space, sp': Space, p: nat, w: nat, k: nat)
    requires p / NENTRIES in sp.tabs && sp.tabs[p / NENTRIES] < NFRAMES && k in sp.tabs && TabShows(ram, sp, k)
    requires k != p / NENTRIES ==> sp.tabs[k] != sp.tabs[p / NENTRIES]
    requires sp' == sp.(ptes := sp'.ptes) && TabEntry(sp', p) == w
    requires forall q: nat :: q != p ==> TabEntry(sp', q) == TabEntry(sp, q)
    ensures var t := sp.tabs[p / NENTRIES]; TabShows(ram[t := ram[t][p % NENTRIES := w]], sp', k)
  {
    hide TabEntry;
    var t := sp.tabs[p / NENTRIES];
    var ram' := ram[t := ram[t][p % NENTRIES := w]];
    forall j | 0 <= j < NENTRIES ensures ram'[sp.tabs[k]][j] == TabEntry(sp', k * NENTRIES + j) {
      WordOf(p, k, j);
      assert ram[sp.tabs[k]][j] == TabEntry(sp, k * NENTRIES + j);
    }
  }

  lemma WordOf(p: nat, k: nat, j: nat)
    requires j < NENTRIES
    ensures k * NENTRIES + j == p <==> k == p / NENTRIES && j == p % NENTRIES
  {}

  // ---------- frames of a range of user pages ----------

  /** The frames of the present pages from lo to hi, in page order. */
  function UserList(ptes: map<nat, nat>, lo: nat, hi: nat): seq<nat> {
    if hi <= lo then []
    else UserList(ptes, lo, hi - 1) + if hi - 1 in ptes then [FrameOf(ptes[hi - 1])] else []
  }

  /** The same frames as a set. */
  function RangeFrames(ptes: map<nat, nat>, lo: nat, hi: nat): set<nat> {
    set p | p in ptes && lo <= p < hi :: FrameOf(ptes[p])
  }

  function Reverse(s: seq<nat>): (r: seq<nat>)
    ensures |r| == |s|
  {
    if s == [] then [] else [s[|s|-1]] + Reverse(s[..|s|-1])
  }

  lemma {:induction false} ReverseElems(s: seq<nat>)
    ensures Elems(Reverse(s)) == Elems(s)
  {
    if s != [] {
      var t := s[..|s|-1];
      var r := Reverse(t);
      ReverseElems(t);
      assert s == t + [s[|s|-1]];
      assert forall x :: x in r <==> x in Elems(r);
      assert forall x :: x in t <==> x in Elems(t);
    }
  }

  lemma {:induction false} UserListElems(ptes: map<nat, nat>, lo: nat, hi: nat)
    ensures Elems(UserList(ptes, lo, hi)) == RangeFrames(ptes, lo, hi)
  {
    if lo < hi {
      UserListElems(ptes, lo, hi - 1);
      var s := UserList(ptes, lo, hi - 1);
      assert forall x :: x in s <==> x in Elems(s);
    }
  }
}
