/** The meaning of the user allocator's free list: which units are free, and why the list is
    determined by them.  (user/umalloc.c; Kernighan and Ritchie, 2nd ed., section 8.7) */
module FreeList {
  /** A run of units: a header and the space it heads. */
  datatype Blk = Blk(addr: nat, size: nat) {
    function End(): nat { addr + size }

    predicate Has(u: nat) { addr <= u < End() }
  }

  /** In address order, nonempty, and never adjacent. */
  ghost predicate Canonical(fl: seq<Blk>) {
    && (forall k :: 0 <= k < |fl| ==> fl[k].size > 0)
    && (forall j, k :: 0 <= j < k < |fl| ==> fl[j].End() < fl[k].addr)
  }

  ghost predicate Covers(fl: seq<Blk>, u: nat) {
    exists k :: 0 <= k < |fl| && fl[k].Has(u)
  }

  ghost predicate SameUnits(f: seq<Blk>, h: seq<Blk>) {
    forall u: nat :: Covers(f, u) <==> Covers(h, u)
  }

  /** Two canonical lists that cover the same units are the same list. */
  lemma {:induction false} CanonicalUnique(f: seq<Blk>, h: seq<Blk>)
    requires Canonical(f) && Canonical(h) && SameUnits(f, h)
    ensures f == h
  {
    if f == [] || h == [] {
      if f != [] { assert f[0].Has(f[0].addr); assert Covers(f, f[0].addr); }
      if h != [] { assert h[0].Has(h[0].addr); assert Covers(h, h[0].addr); }
    } else {
      HeadUnique(f, h);
      HeadUnique(h, f);
      forall u: nat
        ensures Covers(f[1..], u) <==> Covers(h[1..], u)
      {
        TailCovers(f, u);
        TailCovers(h, u);
      }
      CanonicalUnique(f[1..], h[1..]);
      assert f == [f[0]] + f[1..] && h == [h[0]] + h[1..];
    }
  }

  lemma HeadUnique(f: seq<Blk>, h: seq<Blk>)
    requires Canonical(f) && Canonical(h) && SameUnits(f, h) && f != [] && h != []
    ensures f[0].addr >= h[0].addr && f[0].addr == h[0].addr ==> f[0].size <= h[0].size
    ensures f[0].addr >= h[0].addr
  {
    assert f[0].Has(f[0].addr);
    assert Covers(f, f[0].addr);
    if f[0].addr == h[0].addr && f[0].size > h[0].size {
      assert f[0].Has(h[0].End());
      assert Covers(f, h[0].End());
    }
  }

  lemma TailCovers(f: seq<Blk>, u: nat)
    requires Canonical(f) && f != []
    ensures Covers(f[1..], u) <==> Covers(f, u) && u >= f[0].End()
  {
    if Covers(f[1..], u) {
      var k :| 0 <= k < |f[1..]| && f[1..][k].Has(u);
      assert f[k + 1].Has(u);
    }
    if Covers(f, u) && u >= f[0].End() {
      var k :| 0 <= k < |f| && f[k].Has(u);
      assert f[1..][k - 1].Has(u);
    }
  }

  // ---------- free ----------

  /** b shares no unit with the list. */
  ghost predicate Apart(fl: seq<Blk>, b: Blk) {
    forall k :: 0 <= k < |fl| ==> fl[k].End() <= b.addr || b.End() <= fl[k].addr
  }

  /** How many blocks of the list lie below b. */
  function Position(fl: seq<Blk>, b: Blk): (j: nat)
    ensures j <= |fl|
  {
    if fl == [] || b.addr < fl[0].addr then 0 else 1 + Position(fl[1..], b)
  }

  lemma {:induction false} PositionSplits(fl: seq<Blk>, b: Blk)
    requires Canonical(fl)
    ensures forall k :: 0 <= k < Position(fl, b) ==> fl[k].addr <= b.addr
    ensures forall k :: Position(fl, b) <= k < |fl| ==> b.addr < fl[k].addr
  {
    if fl != [] && b.addr >= fl[0].addr {
      PositionSplits(fl[1..], b);
      forall k | 0 <= k < |fl|
        ensures if k < Position(fl, b) then fl[k].addr <= b.addr else b.addr < fl[k].addr
      {
        if k > 0 { assert fl[k] == fl[1..][k - 1]; }
      }
    }
  }

  function Insert(fl: seq<Blk>, j: nat, b: Blk): seq<Blk>
    requires j <= |fl|
  {
    fl[..j] + [b] + fl[j..]
  }

  /** Blocks k and k + 1 merged if they touch. */
  function MergeAt(f: seq<Blk>, k: int): seq<Blk> {
    if 0 <= k && k + 1 < |f| && f[k].End() == f[k + 1].addr
    then f[..k] + [Blk(f[k].addr, f[k].size + f[k + 1].size)] + f[k + 2..]
    else f
  }

  /** b put between fl[j-1] and fl[j], merged with the next block and then with the previous one when they touch. */
  function Coalesce(fl: seq<Blk>, j: nat, b: Blk): seq<Blk>
    requires j <= |fl|
  {
    MergeAt(MergeAt(Insert(fl, j, b), j), j - 1)
  }

  /** What free does to the list. */
  function Freed(fl: seq<Blk>, b: Blk): seq<Blk> {
    Coalesce(fl, Position(fl, b), b)
  }

  /** In order, with blocks k and k + 1 allowed to touch only for lo <= k <= hi. */
  ghost predicate Loose(f: seq<Blk>, lo: int, hi: int) {
    && (forall k :: 0 <= k < |f| ==> f[k].size > 0)
    && (forall j, k :: 0 <= j < k < |f| ==> f[j].End() < f[k].addr || (f[j].End() == f[k].addr && k == j + 1 && lo <= j <= hi))
  }

  lemma InsertLoose(fl: seq<Blk>, j: nat, b: Blk)
    requires Canonical(fl) && Apart(fl, b) && b.size > 0 && j <= |fl|
    requires forall k :: 0 <= k < j ==> fl[k].addr <= b.addr
    requires forall k :: j <= k < |fl| ==> b.addr < fl[k].addr
    ensures Loose(Insert(fl, j, b), j - 1, j)
  {
    hide Blk.Has, Insert;
    var f := Insert(fl, j, b);
    Inserted(fl, j, b, j);
    forall i | 0 <= i < |f| ensures f[i].size > 0 { Inserted(fl, j, b, i); }
    forall i, k | 0 <= i < k < |f|
      ensures f[i].End() < f[k].addr || (f[i].End() == f[k].addr && k == i + 1 && j - 1 <= i <= j)
    {
      var i', k' := if i < j then i else i - 1, if k < j then k else k - 1;
      Inserted(fl, j, b, i);
      Inserted(fl, j, b, k);
      if k == j {
        assert fl[i].addr <= b.addr && fl[i].End() <= b.addr;
        if i < j - 1 { assert fl[i].End() < fl[j - 1].addr; }
      } else if i == j {
        assert b.addr < fl[k'].addr && b.End() <= fl[k'].addr;
        if j < k' { assert fl[j].End() < fl[k'].addr; }
      } else {
        assert f[i] == fl[i'] && f[k] == fl[k'] && fl[i'].End() < fl[k'].addr;
      }
    }
  }

  lemma Inserted(fl: seq<Blk>, j: nat, b: Blk, i: nat)
    requires j <= |fl| && i <= |fl|
    ensures |Insert(fl, j, b)| == |fl| + 1
    ensures Insert(fl, j, b)[i] == if i < j then fl[i] else if i == j then b else fl[i - 1]
  {}

  lemma MergeLoose(f: seq<Blk>, lo: int, k: int)
    requires Loose(f, lo, k)
    ensures Loose(MergeAt(f, k), lo, k - 1)
  {
    hide Blk.Has, MergeAt, Blk.End;
    var r := MergeAt(f, k);
    MergedSize(f, k);
    if r != f {
      forall i | 0 <= i < |r| ensures r[i].size > 0 { Merged(f, k, i); }
      forall i, m | 0 <= i < m < |r|
        ensures r[i].End() < r[m].addr || (r[i].End() == r[m].addr && m == i + 1 && lo <= i <= k - 1)
      {
        Merged(f, k, i);
        Merged(f, k, m);
        // the blocks of f that end r[i] and start r[m]
        var i', m' := if i < k then i else i + 1, if m <= k then m else m + 1;
        InLoose(f, lo, k, i', m');
      }
    }
  }

  lemma InLoose(f: seq<Blk>, lo: int, hi: int, j: nat, k: nat)
    requires Loose(f, lo, hi) && j < k < |f|
    ensures f[j].End() < f[k].addr || (f[j].End() == f[k].addr && k == j + 1 && lo <= j <= hi)
  {}

  lemma MergedSize(f: seq<Blk>, k: int)
    ensures var r := MergeAt(f, k); r == f || (0 <= k < |r| == |f| - 1 && f[k].End() == f[k + 1].addr)
    ensures MergeAt(f, k) == f ==> !(0 <= k && k + 1 < |f| && f[k].End() == f[k + 1].addr)
  {}

  /** A block of the merged list starts and ends where blocks of f do. */
  lemma Merged(f: seq<Blk>, k: nat, i: nat)
    requires k + 1 < |f| && f[k].End() == f[k + 1].addr && i < |f| - 1
    ensures var r := MergeAt(f, k);
            && |r| == |f| - 1 && r[i].addr == f[if i <= k then i else i + 1].addr
            && r[i].End() == f[if i < k then i else i + 1].End()
            && r[i].size == if i < k then f[i].size else if i == k then f[i].size + f[i + 1].size else f[i + 1].size
  {}

  lemma InsertCovers(fl: seq<Blk>, j: nat, b: Blk, u: nat)
    requires j <= |fl|
    ensures Covers(Insert(fl, j, b), u) <==> Covers(fl, u) || b.Has(u)
  {
    var f := Insert(fl, j, b);
    assert f[j] == b;
    if Covers(f, u) && !b.Has(u) {
      var k :| 0 <= k < |f| && f[k].Has(u);
      assert fl[if k < j then k else k - 1].Has(u);
    }
    if Covers(fl, u) {
      var k :| 0 <= k < |fl| && fl[k].Has(u);
      assert f[if k < j then k else k + 1].Has(u);
    }
  }

  lemma MergeCovers(f: seq<Blk>, m: int, u: nat)
    ensures Covers(MergeAt(f, m), u) <==> Covers(f, u)
  {
    var r := MergeAt(f, m);
    if r != f {
      if Covers(r, u) {
        var k :| 0 <= k < |r| && r[k].Has(u);
        assert f[if k < m then k else if k > m then k + 1 else if f[m].Has(u) then m else m + 1].Has(u);
      }
      if Covers(f, u) {
        var k :| 0 <= k < |f| && f[k].Has(u);
        assert r[if k <= m then k else k - 1].Has(u);
      }
    }
  }

  /** free keeps the list canonical and adds exactly the units of the block. */
  lemma FreedUnits(fl: seq<Blk>, b: Blk)
    requires Canonical(fl) && Apart(fl, b) && b.size > 0
    ensures Canonical(Freed(fl, b))
    ensures forall u: nat :: Covers(Freed(fl, b), u) <==> Covers(fl, u) || b.Has(u)
  {
    hide Insert, MergeAt, Position, Covers;
    var j: int := Position(fl, b);
    PositionSplits(fl, b);
    var f1 := Insert(fl, j, b);
    var f2 := MergeAt(f1, j);
    InsertLoose(fl, j, b);
    MergeLoose(f1, j - 1, j);
    MergeLoose(f2, j - 1, j - 1);
    forall u: nat
      ensures Covers(Freed(fl, b), u) <==> Covers(fl, u) || b.Has(u)
    {
      InsertCovers(fl, j, b, u);
      MergeCovers(f1, j, u);
      MergeCovers(f2, j - 1, u);
    }
  }

  /** The order of two frees does not matter. */
  lemma FreesCommute(fl: seq<Blk>, a: Blk, b: Blk)
    requires Canonical(fl) && Apart(fl, a) && Apart(fl, b) && a.size > 0 && b.size > 0
    requires a.End() <= b.addr || b.End() <= a.addr
    ensures Freed(Freed(fl, a), b) == Freed(Freed(fl, b), a)
  {
    FreedTwice(fl, a, b);
    FreedTwice(fl, b, a);
    CanonicalUnique(Freed(Freed(fl, a), b), Freed(Freed(fl, b), a));
  }

  lemma FreedTwice(fl: seq<Blk>, a: Blk, b: Blk)
    requires Canonical(fl) && Apart(fl, a) && Apart(fl, b) && a.size > 0 && b.size > 0
    requires a.End() <= b.addr || b.End() <= a.addr
    ensures Canonical(Freed(Freed(fl, a), b))
    ensures forall u: nat :: Covers(Freed(Freed(fl, a), b), u) <==> Covers(fl, u) || a.Has(u) || b.Has(u)
  {
    FreedUnits(fl, a);
    ApartByUnits(Freed(fl, a), b);
    FreedUnits(Freed(fl, a), b);
  }

  lemma ApartByUnits(fl: seq<Blk>, b: Blk)
    requires Canonical(fl) && forall u: nat :: Covers(fl, u) ==> !b.Has(u)
    ensures b.size > 0 ==> Apart(fl, b)
  {
    if b.size > 0 {
      forall k | 0 <= k < |fl|
        ensures fl[k].End() <= b.addr || b.End() <= fl[k].addr
      {
        var u := if b.addr < fl[k].addr then fl[k].addr else b.addr;
        if fl[k].Has(u) { assert Covers(fl, u); }
      }
    }
  }

  // ---------- malloc ----------

  /** The block malloc carves off block q: all of it when it fits exactly, its tail otherwise. */
  function Taken(fl: seq<Blk>, q: nat, n: nat): Blk
    requires q < |fl| && 0 < n <= fl[q].size
  {
    Blk(fl[q].addr + (fl[q].size - n), n)
  }

  /** The list without it. */
  function Carved(fl: seq<Blk>, q: nat, n: nat): seq<Blk>
    requires q < |fl| && 0 < n <= fl[q].size
  {
    if fl[q].size == n then fl[..q] + fl[q + 1..] else fl[q := Blk(fl[q].addr, fl[q].size - n)]
  }

  lemma CarvedUnits(fl: seq<Blk>, q: nat, n: nat)
    requires Canonical(fl) && q < |fl| && 0 < n <= fl[q].size
    ensures Canonical(Carved(fl, q, n)) && Apart(Carved(fl, q, n), Taken(fl, q, n))
    ensures forall u: nat :: Covers(fl, u) <==> Covers(Carved(fl, q, n), u) || Taken(fl, q, n).Has(u)
  {
    CarvedOrder(fl, q, n);
    hide Canonical, Apart, Carved, Taken, Covers;
    forall u: nat
      ensures Covers(fl, u) <==> Covers(Carved(fl, q, n), u) || Taken(fl, q, n).Has(u)
    {
      CarvedCovers(fl, q, n, u);
    }
  }

  lemma CarvedOrder(fl: seq<Blk>, q: nat, n: nat)
    requires Canonical(fl) && q < |fl| && 0 < n <= fl[q].size
    ensures Canonical(Carved(fl, q, n)) && Apart(Carved(fl, q, n), Taken(fl, q, n))
  {
    hide Blk.Has;
    var r, b := Carved(fl, q, n), Taken(fl, q, n);
    var cut := if fl[q].size == n then 1 else 0;
    assert |r| == |fl| - cut;
    forall k | 0 <= k < |r|
      ensures r[k].addr == fl[if k < q then k else k + cut].addr && 0 < r[k].size <= fl[if k < q then k else k + cut].size
    {}
    hide Carved;
  }

  lemma CarvedCovers(fl: seq<Blk>, q: nat, n: nat, u: nat)
    requires q < |fl| && 0 < n <= fl[q].size
    ensures Covers(fl, u) <==> Covers(Carved(fl, q, n), u) || Taken(fl, q, n).Has(u)
  {
    var r, b := Carved(fl, q, n), Taken(fl, q, n);
    var cut := if fl[q].size == n then 1 else 0;
    if Covers(fl, u) && !b.Has(u) {
      var k :| 0 <= k < |fl| && fl[k].Has(u);
      assert r[if k > q then k - cut else k].Has(u);
    }
    if Covers(r, u) {
      var k :| 0 <= k < |r| && r[k].Has(u);
      assert fl[if k < q then k else k + cut].Has(u);
    }
    if b.Has(u) { assert fl[q].Has(u); }
  }

  /** Freeing what malloc carved off, with no morecore in between, restores the free list. */
  lemma MallocThenFree(fl: seq<Blk>, q: nat, n: nat)
    requires Canonical(fl) && q < |fl| && 0 < n <= fl[q].size
    ensures Freed(Carved(fl, q, n), Taken(fl, q, n)) == fl
  {
    CarvedUnits(fl, q, n);
    FreedUnits(Carved(fl, q, n), Taken(fl, q, n));
    CanonicalUnique(Freed(Carved(fl, q, n), Taken(fl, q, n)), fl);
  }
}
