/** The buffer cache and the disk queue: each method is one critical section, so that any interleaving of
    the processes and the disk interrupt is a run of these methods. (kernel/bio.c, ide.c) */
module Bcache {
  import opened DiskLayout
  import opened Ring

  const NBUF: nat := 10
  const HEAD: nat := NBUF        // the ring's head
  const NONE := -1          // no buffer
  const NODEV := 0xFFFF_FFFF  // binit's device -1 as an unsigned number

  datatype Buf = Buf(busy: bool, valid: bool, dirty: bool, dev: nat, sector: nat, data: Block)

  type Key = (nat, nat)

  function KeyOf(b: Buf): Key { (b.dev, b.sector) }

  /** The contents of a sector; sectors that were never written are zero. */
  function At(disk: map<Key, Block>, k: Key): Block { if k in disk then disk[k] else ZeroBlock() }

  // ---------- the invariant ----------

  /** No two buffers that were ever assigned hold the same sector. */
  ghost predicate Unique(bufs: seq<Buf>) {
    forall a, b :: 0 <= a < b < |bufs| && bufs[a].dev != NODEV ==> KeyOf(bufs[a]) != KeyOf(bufs[b])
  }

  /** The disk queue: busy buffers that wait for the disk, linked through qnext. */
  ghost predicate Queue(bufs: seq<Buf>, qnext: seq<int>, idequeue: int, q: seq<nat>) {
    && |bufs| == |qnext| == NBUF
    && (forall i :: 0 <= i < |q| ==> q[i] < NBUF)
    && (forall i, j :: 0 <= i < j < |q| ==> q[i] != q[j])
    && (forall i :: 0 <= i < |q| ==> Pending(bufs[q[i]]))
    && idequeue == (if q == [] then NONE else q[0])
    && (forall i :: 0 <= i < |q| ==> QLink(qnext, q, i))
  }

  ghost predicate QLink(qnext: seq<int>, q: seq<nat>, i: nat)
    requires i < |q|
  {
    q[i] < |qnext| && qnext[q[i]] == if i + 1 < |q| then q[i + 1] else NONE
  }

  /** Waiting for the disk: busy, and not (valid and clean). */
  predicate Pending(b: Buf) { b.busy && b.dev != NODEV && !(b.valid && !b.dirty) }

  /** What a buffer that is not queued or is queued holds, against the last data written to its sector. */
  ghost predicate Coherent(b: Buf, queued: bool, store: map<Key, Block>) {
    && (!queued ==> !b.dirty)
    && (b.dirty ==> b.data == At(store, KeyOf(b)))
    && (b.valid && !b.busy ==> b.data == At(store, KeyOf(b)) && b.dev != NODEV)
  }

  /** The disk has the last data of every sector, except those of buffers still to be written, all behind
      the head of the queue. */
  ghost predicate OnDisk(bufs: seq<Buf>, q: seq<nat>, disk: map<Key, Block>, store: map<Key, Block>)
    requires forall i :: 0 <= i < |q| ==> q[i] < |bufs|
  {
    forall k: Key :: At(disk, k) == At(store, k) || exists i :: 0 < i < |q| && bufs[q[i]].dirty && KeyOf(bufs[q[i]]) == k
  }

  /** bget's results: a buffer for the caller, one to sleep on, or no buffer at all (it panics). */
  datatype Got = Buffer(b: nat) | Wait(b: nat) | Panic

  /** The disk after the request for b was handed to it: a write takes the data at once. */
  function Started(disk: map<Key, Block>, b: Buf): map<Key, Block> {
    if b.dirty then disk[KeyOf(b) := b.data] else disk
  }

  /** Every buffer is in the ring, once. */
  ghost predicate Everyone(order: seq<nat>) { |order| == NBUF && forall b: nat :: b < NBUF ==> b in order }

  /** The ring runs from the most to the least recently released buffer. */
  ghost predicate Ordered(order: seq<nat>, stamp: seq<nat>, clock: nat) {
    && |stamp| == NBUF && (forall b :: 0 <= b < NBUF ==> stamp[b] < clock)
    && (forall i :: 0 <= i < |order| ==> order[i] < NBUF)
    && forall i, j :: 0 <= i < j < |order| ==> stamp[order[i]] > stamp[order[j]]
  }

  ghost predicate AllCoherent(bufs: seq<Buf>, q: seq<nat>, store: map<Key, Block>) {
    |bufs| == NBUF && forall c: nat :: c < NBUF ==> Coherent(bufs[c], c in q, store)
  }

  class Cache {
    const havedisk1: bool
    const bufs: array<Buf>
    const next: array<nat>
    const prev: array<nat>
    const qnext: array<int>
    var idequeue: int
    var disk: map<Key, Block>
    ghost var order: seq<nat>            // the ring from the head on
    ghost var stamp: seq<nat>            // when each buffer was last released
    ghost var clock: nat
    ghost var q: seq<nat>                // the disk queue
    ghost var store: map<Key, Block>     // the last data given to bwrite, by sector
    ghost var asked: seq<nat>            // every request so far
    ghost var served: seq<nat>           // every completed request

    ghost predicate Lists()
      reads this, bufs, next, prev, qnext
    {
      && bufs.Length == qnext.Length == NBUF && next.Length == prev.Length == NBUF + 1 && next != prev
      && Linked(next[..], prev[..], order, NBUF) && Everyone(order)
      && Queue(bufs[..], qnext[..], idequeue, q) && asked == served + q
    }

    ghost predicate Recency()
      reads this
    {
      Ordered(order, stamp, clock)
    }

    ghost predicate Valid()
      reads this, bufs, next, prev, qnext
    {
      && Lists() && Recency() && Unique(bufs[..]) && AllCoherent(bufs[..], q, store) && OnDisk(bufs[..], q, disk, store)
    }

    /** binit */
    constructor (disk: map<Key, Block>, havedisk1: bool)
      ensures Valid() && this.disk == store == disk && q == [] && order == seq(NBUF, i requires 0 <= i < NBUF => NBUF - 1 - i)
      ensures fresh(bufs) && fresh(next) && fresh(prev) && fresh(qnext) && asked == served == []
      ensures forall b :: 0 <= b < NBUF ==> !bufs[b].busy && !bufs[b].valid && !bufs[b].dirty && bufs[b].dev == NODEV
    {
      hide Linked, Queue, Unique, OnDisk, AllCoherent, Ordered, Everyone;
      var empty := Buf(false, false, false, NODEV, 0, ZeroBlock());
      bufs := new Buf[NBUF](_ => empty);
      next := new nat[NBUF + 1](_ => HEAD);
      prev := new nat[NBUF + 1](_ => HEAD);
      qnext := new int[NBUF](_ => NONE);
      idequeue, q, asked, served := NONE, [], [], [];
      this.disk, store, this.havedisk1 := disk, disk, havedisk1;
      order := [];
      stamp, clock := seq(NBUF, i requires 0 <= i < NBUF => i), NBUF;
      new;
      Empty(next[..], prev[..], NBUF);
      var b: nat := 0;
      while b < NBUF
        invariant b <= NBUF && Links() && |order| == b && forall i :: 0 <= i < b ==> order[i] == b - 1 - i
        modifies this`order, next, prev
      {
        InsertFirst(b);
        b := b + 1;
      }
      AllThere(order);
      BootOrder(order, stamp, clock);
      Blank(this.bufs[..], qnext[..], disk);
    }

    ghost predicate Links()
      reads this, next, prev
    {
      next.Length == prev.Length == NBUF + 1 && next != prev && Linked(next[..], prev[..], order, NBUF)
    }

    /** Put a slot right after the head. */
    method InsertFirst(b: nat)
      requires Links() && b < NBUF && |order| < NBUF && forall i :: 0 <= i < |order| ==> order[i] != b
      modifies this`order, next, prev
      ensures Links() && order == [b] + old(order)
    {
      hide Linked;
      PutFirst(next[..], prev[..], order, NBUF, b);
      ghost var n0: seq<nat>, p0: seq<nat> := next[..], prev[..];
      next[b] := next[HEAD];
      prev[b] := HEAD;
      prev[next[HEAD]] := b;
      next[HEAD] := b;
      assert next[..] == n0[b := n0[HEAD]][HEAD := b] && prev[..] == p0[b := HEAD][n0[HEAD] := b];
      order := [b] + order;
    }

    /** Take the slot at position p out of the ring. */
    method Unlink(b: nat, ghost p: nat)
      requires Links() && p < |order| && order[p] == b && b < NBUF
      modifies this`order, next, prev
      ensures Links() && order == Without(old(order), p) && forall i :: 0 <= i < |order| ==> order[i] != b
    {
      hide Linked;
      Unlinked(next[..], prev[..], order, NBUF, p);
      ghost var n0: seq<nat>, p0: seq<nat> := next[..], prev[..];
      assert next[b] == n0[b] && prev[b] == p0[b];
      prev[next[b]] := prev[b];
      next[prev[b]] := next[b];
      assert next[..] == n0[p0[b] := n0[b]] && prev[..] == p0[n0[b] := p0[b]];
      order := Without(order, p);
    }

    /** bget's first loop: the buffer that holds the sector. */
    method Find(dev: nat, sector: nat) returns (b: nat)
      requires Valid()
      ensures b <= NBUF && (b < NBUF ==> KeyOf(bufs[b]) == (dev, sector))
      ensures b == NBUF ==> forall c: nat :: c < NBUF ==> KeyOf(bufs[c]) != (dev, sector)
    {
      hide Linked, Queue, AllCoherent, OnDisk, Unique;
      ghost var i: nat := 1;
      Walk(next[..], prev[..], order, NBUF, 0);
      b := next[HEAD];
      while b != HEAD
        invariant 1 <= i <= |order| + 1 && b == Stop(order, NBUF, i) && b <= NBUF && (b == HEAD ==> i == |order| + 1)
        invariant forall j :: 0 <= j < i - 1 ==> KeyOf(bufs[order[j]]) != (dev, sector)
        decreases |order| + 1 - i
      {
        if bufs[b].dev == dev && bufs[b].sector == sector { return; }
        Walk(next[..], prev[..], order, NBUF, i);
        if i < |order| { Walk(next[..], prev[..], order, NBUF, i + 1); }
        b := next[b];
        i := i + 1;
      }
      forall c: nat | c < NBUF ensures KeyOf(bufs[c]) != (dev, sector) { assert c in order; }
    }

    /** bget's second loop, from the other end: the idle buffer released longest ago. */
    method Victim() returns (b: nat)
      requires Valid()
      ensures b <= NBUF && (b < NBUF ==> !bufs[b].busy)
      ensures b < NBUF ==> forall c: nat :: c < NBUF && !bufs[c].busy ==> stamp[b] <= stamp[c]
      ensures b == NBUF ==> forall c: nat :: c < NBUF ==> bufs[c].busy
    {
      hide Linked, Queue, AllCoherent, OnDisk, Unique;
      ghost var i: nat := |order|;
      Walk(next[..], prev[..], order, NBUF, |order|);
      b := prev[HEAD];
      while b != HEAD
        invariant 0 <= i <= |order| && b == Stop(order, NBUF, i) && b <= NBUF && (b == HEAD ==> i == 0)
        invariant forall j :: i <= j < |order| ==> bufs[order[j]].busy
        decreases i
      {
        if !bufs[b].busy {
          Oldest(order, stamp, bufs[..], i - 1);
          return;
        }
        Walk(next[..], prev[..], order, NBUF, i - 1);
        b := prev[b];
        i := i - 1;
      }
      forall c: nat | c < NBUF ensures bufs[c].busy { assert c in order; }
    }

    /** A pass of bget over the cache. */
    method Bget(dev: nat, sector: nat) returns (g: Got)
      requires Valid() && dev != NODEV
      modifies bufs
      ensures Valid()
      ensures Chosen(old(bufs[..]), bufs[..], stamp, dev, sector, g)
      ensures g.Buffer? ==> g.b < NBUF && bufs[g.b].busy && g.b !in q && KeyOf(bufs[g.b]) == (dev, sector)
      ensures g.Buffer? && bufs[g.b].valid ==> bufs[g.b].data == At(store, (dev, sector))
    {
      hide Linked, Queue, AllCoherent, OnDisk, Unique, Ordered, Everyone;
      ghost var bs := bufs[..];
      StampSize(order, stamp, clock);
      var b := Find(dev, sector);
      if b < NBUF {
        if bufs[b].busy { return Wait(b); }
        IdleIsClean(bs, qnext[..], idequeue, q, store, b);
        Claimed(bs, qnext[..], idequeue, q, disk, store, b, bs[b].(busy := true));
        bufs[b] := bufs[b].(busy := true);
        assert bufs[..] == bs[b := bufs[b]];
        return Buffer(b);
      }
      b := Victim();
      if b == NBUF { return Panic; }
      Claimed(bs, qnext[..], idequeue, q, disk, store, b, Buf(true, false, false, dev, sector, bs[b].data));
      bufs[b] := Buf(true, false, false, dev, sector, bufs[b].data);
      assert bufs[..] == bs[b := bufs[b]];
      return Buffer(b);
    }

    /** iderw's append and start; the buffer is not in the queue yet. */
    method Enqueue(b: nat)
      requires Lists() && b < NBUF && b !in q
      requires Pending(bufs[b])          // otherwise it panics: not busy, or nothing to do
      requires bufs[b].dev == 0 || havedisk1      // otherwise it panics: disk 1 not present
      modifies this`idequeue, this`q, this`asked, this`disk, qnext
      ensures Lists() && q == old(q) + [b] && disk == if old(q) == [] then Started(old(disk), bufs[b]) else old(disk)
    {
      hide Linked, Queue, Everyone, Pending, Started;
      ghost var bs, l0, iq := bufs[..], qnext[..], idequeue;
      HeadOf(bs, l0, iq, q);
      qnext[b] := NONE;
      if idequeue == NONE {
        idequeue := b;
      } else {
        var p := idequeue;
        ghost var i := 0;
        QueueLink(bs, l0, iq, q, 0);
        while qnext[p] != NONE
          invariant 0 <= i < |q| && q[i] == p && p < NBUF && qnext[..] == l0[b := NONE]
          modifies {}
          decreases |q| - i
        {
          QueueLink(bs, l0, iq, q, i);
          if i + 1 < |q| { QueueLink(bs, l0, iq, q, i + 1); }
          p := qnext[p];
          i := i + 1;
        }
        QueueLink(bs, l0, iq, q, i);
        qnext[p] := b;
      }
      Appended(bs, l0, qnext[..], iq, q, b);
      q := q + [b];
      asked := asked + [b];
      if idequeue == b { Idestart(b); }
    }

    /** The transfer of the request at the head of the queue. */
    method Idestart(b: nat)
      requires b < bufs.Length
      modifies this`disk
      ensures disk == Started(old(disk), bufs[b])
    {
      if bufs[b].dirty { disk := disk[KeyOf(bufs[b]) := bufs[b].data]; }
    }

    /** The owner of a buffer without data asks for its sector (bread). */
    method ReadRequest(b: nat)
      requires Valid() && b < NBUF && bufs[b].busy && !bufs[b].valid && b !in q && bufs[b].dev != NODEV
      requires bufs[b].dev == 0 || havedisk1
      modifies this`idequeue, this`q, this`asked, this`disk, qnext
      ensures Valid() && q == old(q) + [b]
    {
      hide Linked, Unique, Queue, OnDisk, AllCoherent, Ordered, Everyone;
      QueueBounds(bufs[..], qnext[..], idequeue, q);
      CoherentAt(bufs[..], q, store, b);
      Enqueue(b);
      ReadQueued(bufs[..], old(q), disk, store, b);
    }

    /** bread up to its wait, if it has one: a valid buffer has the last data given to bwrite for the sector;
        any other is now last in the disk queue. */
    method Bread(dev: nat, sector: nat) returns (g: Got, waits: bool)
      requires Valid() && dev != NODEV && (dev == 0 || havedisk1)
      modifies this`idequeue, this`q, this`asked, this`disk, bufs, qnext
      ensures Valid() && Chosen(old(bufs[..]), bufs[..], stamp, dev, sector, g) && (waits ==> g.Buffer?)
      ensures g.Buffer? && !waits ==> bufs[g.b].valid && bufs[g.b].data == At(store, (dev, sector)) && q == old(q)
      ensures g.Buffer? && waits ==> !bufs[g.b].valid && q == old(q) + [g.b]
    {
      hide Linked, Queue, Unique, OnDisk, AllCoherent, Chosen, Ordered, Everyone;
      g := Bget(dev, sector);
      waits := g.Buffer? && !bufs[g.b].valid;
      if waits { ReadRequest(g.b); }
    }

    /** The owner changes the contents of its buffer. */
    method Store(b: nat, data: Block)
      requires Valid() && b < NBUF && bufs[b].busy && b !in q
      modifies bufs
      ensures Valid() && bufs[..] == old(bufs[..])[b := old(bufs[b]).(data := data)]
    {
      hide Linked, Queue, Unique, OnDisk, AllCoherent, Ordered, Everyone;
      ghost var bs := bufs[..];
      CoherentAt(bs, q, store, b);
      bufs[b] := bufs[b].(data := data);
      assert bufs[..] == bs[b := bufs[b]];
      Edited(bs, qnext[..], idequeue, q, disk, store, b, bufs[b]);
    }

    /** bwrite up to the wait. */
    method Bwrite(b: nat)
      requires Valid() && b < NBUF && b !in q && bufs[b].dev != NODEV
      requires bufs[b].busy         // otherwise it panics
      requires bufs[b].dev == 0 || havedisk1
      modifies this`idequeue, this`q, this`asked, this`disk, this`store, bufs, qnext
      ensures Valid() && q == old(q) + [b] && store == old(store)[KeyOf(old(bufs[b])) := old(bufs[b].data)]
      ensures bufs[..] == old(bufs[..])[b := old(bufs[b]).(dirty := true)]
    {
      hide Linked, Queue, Unique, OnDisk, AllCoherent, Ordered, Everyone;
      ghost var bs := bufs[..];
      QueueBounds(bs, qnext[..], idequeue, q);
      bufs[b] := bufs[b].(dirty := true);
      assert bufs[..] == bs[b := bufs[b]];
      Marked(bs, qnext[..], idequeue, q, b, bufs[b]);
      store := store[KeyOf(bufs[b]) := bufs[b].data];
      Enqueue(b);
      WriteQueued(bs, old(q), old(disk), old(store), b, disk, store, bufs[..]);
    }

    /** The disk interrupt: the request at the head is done, and the next one starts. */
    method Ideintr() returns (b: int)
      requires Valid()
      modifies this`idequeue, this`q, this`served, this`disk, bufs
      ensures Valid()
      ensures old(q) == [] ==> b == NONE && q == [] && bufs[..] == old(bufs[..]) && disk == old(disk) && served == old(served)
      ensures old(q) != [] ==> b == old(q)[0] && q == old(q)[1..] && served == old(served) + [old(q)[0]]
      ensures old(q) != [] ==> Completed(old(bufs[..]), bufs[..], store, old(q)[0])
    {
      hide Linked, Queue, Unique, OnDisk, AllCoherent, At, KeyOf, Started, Ordered, Everyone;
      b := idequeue;
      HeadOf(bufs[..], qnext[..], idequeue, q);
      if b == NONE { return; }
      ghost var bs := bufs[..];
      ServedData(bs, qnext[..], idequeue, q, disk, store);
      idequeue := qnext[b];
      CoherentAt(bs, q, store, b);
      SameData(bs[b], b as nat in q, store);
      var data := if bufs[b].dirty then bufs[b].data else At(disk, KeyOf(bufs[b]));
      bufs[b] := bufs[b].(valid := true, dirty := false, data := data);
      assert bufs[..] == bs[b := bufs[b]];
      Dequeued(bs, qnext[..], old(idequeue), q, disk, store, bufs[..]);
      HeadOf(bufs[..], qnext[..], idequeue, q[1..]);
      ServedNext(asked, served, q);
      served, q := served + [q[0]], q[1..];
      if idequeue != NONE { Idestart(idequeue); }
    }

    /** brelse's relinking. */
    method ToFront(b: nat)
      requires Links() && Recency() && b < NBUF && b in order
      modifies this`order, this`stamp, this`clock, next, prev
      ensures Links() && Recency() && |order| == |old(order)| && (forall c :: c in old(order) ==> c in order)
      ensures order[0] == b && stamp == old(stamp)[b := old(clock)] && clock == old(clock) + 1
    {
      hide Linked, Ordered;
      ghost var p :| 0 <= p < |order| && order[p] == b;
      InOrder(next[..], prev[..], order);
      MovedFirst(order, NBUF, p);
      Restamped(order, p, stamp, clock);
      hide Order, From;
      Unlink(b, p);
      InsertFirst(b);
      stamp, clock := stamp[b := clock], clock + 1;
    }

    /** brelse: the owner has written the buffer through. */
    method Brelse(b: nat)
      requires Valid() && b < NBUF && b !in q
      requires bufs[b].busy         // otherwise it panics
      requires bufs[b].valid ==> bufs[b].data == At(store, KeyOf(bufs[b])) && bufs[b].dev != NODEV
      modifies this`order, this`stamp, this`clock, bufs, next, prev
      ensures Valid() && bufs[..] == old(bufs[..])[b := old(bufs[b]).(busy := false)]
      ensures order[0] == b && stamp == old(stamp)[b := old(clock)] && clock == old(clock) + 1
    {
      hide Linked, Unique, OnDisk, Queue, AllCoherent, Ordered;
      ghost var bs := bufs[..];
      assert b in order;
      CoherentAt(bs, q, store, b);
      ToFront(b);
      bufs[b] := bufs[b].(busy := false);
      assert bufs[..] == bs[b := bufs[b]];
      Edited(bs, qnext[..], idequeue, q, disk, store, b, bufs[b]);
    }
  }

  /** The buffer has the last data of its sector, valid and clean; the others are as before. */
  ghost predicate Completed(bufs: seq<Buf>, bufs': seq<Buf>, store: map<Key, Block>, b: nat) {
    && b < |bufs|
    && bufs' == bufs[b := bufs[b].(valid := true, dirty := false, data := At(store, KeyOf(bufs[b])))]
  }

  lemma ServedNext(asked: seq<nat>, served: seq<nat>, q: seq<nat>)
    requires asked == served + q && q != []
    ensures asked == served + [q[0]] + q[1..]
  {
    assert q == [q[0]] + q[1..];
  }

  lemma QueueBounds(bufs: seq<Buf>, qnext: seq<int>, idequeue: int, q: seq<nat>)
    requires Queue(bufs, qnext, idequeue, q)
    ensures |bufs| == NBUF && forall i :: 0 <= i < |q| ==> q[i] < NBUF
  {}

  lemma HeadOf(bufs: seq<Buf>, qnext: seq<int>, idequeue: int, q: seq<nat>)
    requires Queue(bufs, qnext, idequeue, q)
    ensures if q == [] then idequeue == NONE else
              idequeue == q[0] && q[0] < NBUF && qnext[q[0]] == if |q| > 1 then q[1] else NONE
  {
    if q != [] { assert QLink(qnext, q, 0); }
  }

  lemma SameData(b: Buf, queued: bool, store: map<Key, Block>)
    requires Coherent(b, queued, store)
    ensures b.dirty ==> b.data == At(store, KeyOf(b))
  {}

  lemma CoherentAt(bufs: seq<Buf>, q: seq<nat>, store: map<Key, Block>, b: nat)
    requires AllCoherent(bufs, q, store) && b < NBUF
    ensures |bufs| == NBUF && Coherent(bufs[b], b in q, store)
  {}

  lemma IdleIsClean(bufs: seq<Buf>, qnext: seq<int>, idequeue: int, q: seq<nat>, store: map<Key, Block>, b: nat)
    requires Queue(bufs, qnext, idequeue, q) && AllCoherent(bufs, q, store) && b < NBUF && !bufs[b].busy
    ensures b !in q && Coherent(bufs[b], false, store)
  {
    hide Coherent;
    assert forall i :: 0 <= i < |q| ==> Pending(bufs[q[i]]);
    assert Coherent(bufs[b], b in q, store);
  }

  lemma QueueLink(bufs: seq<Buf>, qnext: seq<int>, idequeue: int, q: seq<nat>, i: nat)
    requires Queue(bufs, qnext, idequeue, q) && i < |q|
    ensures q[i] < NBUF && QLink(qnext, q, i)
  {}

  /** A buffer that is not queued changes, but not its sector. */
  lemma Edited(bufs: seq<Buf>, qnext: seq<int>, idequeue: int, q: seq<nat>, disk: map<Key, Block>, store: map<Key, Block>,
               b: nat, x: Buf)
    requires Queue(bufs, qnext, idequeue, q) && Unique(bufs) && OnDisk(bufs, q, disk, store) && b < NBUF && b !in q
    requires KeyOf(x) == KeyOf(bufs[b]) && AllCoherent(bufs, q, store) && Coherent(x, false, store)
    ensures Queue(bufs[b := x], qnext, idequeue, q) && Unique(bufs[b := x]) && OnDisk(bufs[b := x], q, disk, store)
    ensures AllCoherent(bufs[b := x], q, store)
  {
    var bs := bufs[b := x];
    assert forall i :: 0 <= i < |q| ==> q[i] in q && bs[q[i]] == bufs[q[i]];
    forall k: Key | At(disk, k) != At(store, k) ensures exists i :: 0 < i < |q| && bs[q[i]].dirty && KeyOf(bs[q[i]]) == k {
      var i :| 0 < i < |q| && bufs[q[i]].dirty && KeyOf(bufs[q[i]]) == k;
      assert bs[q[i]] == bufs[q[i]];
    }
  }

  lemma Marked(bufs: seq<Buf>, qnext: seq<int>, idequeue: int, q: seq<nat>, b: nat, x: Buf)
    requires Queue(bufs, qnext, idequeue, q) && b < NBUF && b !in q
    ensures Queue(bufs[b := x], qnext, idequeue, q)
  {
    assert forall i :: 0 <= i < |q| ==> q[i] in q && Pending(bufs[q[i]]);
  }

  lemma ReadQueued(bufs: seq<Buf>, q: seq<nat>, disk: map<Key, Block>, store: map<Key, Block>, b: nat)
    requires (forall i :: 0 <= i < |q| ==> q[i] < |bufs|) && b < |bufs| && OnDisk(bufs, q, disk, store)
    requires AllCoherent(bufs, q, store) && b !in q
    ensures OnDisk(bufs, q + [b], disk, store) && AllCoherent(bufs, q + [b], store)
  {
    var r := q + [b];
    forall k: Key | At(disk, k) != At(store, k) ensures exists i :: 0 < i < |r| && bufs[r[i]].dirty && KeyOf(bufs[r[i]]) == k {
      var i :| 0 < i < |q| && bufs[q[i]].dirty && KeyOf(bufs[q[i]]) == k;
      assert r[i] == q[i];
    }
  }

  lemma WriteQueued(bufs: seq<Buf>, q: seq<nat>, disk: map<Key, Block>, store: map<Key, Block>, b: nat,
                    disk': map<Key, Block>, store': map<Key, Block>, bufs': seq<Buf>)
    requires |bufs| == NBUF && b < NBUF && b !in q && bufs' == bufs[b := bufs[b].(dirty := true)] && Unique(bufs)
    requires (forall i :: 0 <= i < |q| ==> q[i] < NBUF) && bufs[b].dev != NODEV && OnDisk(bufs, q, disk, store)
    requires store' == store[KeyOf(bufs[b]) := bufs[b].data]
    requires disk' == if q == [] then Started(disk, bufs'[b]) else disk
    requires AllCoherent(bufs, q, store)
    ensures Unique(bufs') && OnDisk(bufs', q + [b], disk', store')
    ensures AllCoherent(bufs', q + [b], store')
  {
    var r, key := q + [b], KeyOf(bufs[b]);
    assert bufs'[b].data == bufs[b].data && KeyOf(bufs'[b]) == key;
    forall k: Key | At(disk', k) != At(store', k) ensures exists i :: 0 < i < |r| && bufs'[r[i]].dirty && KeyOf(bufs'[r[i]]) == k {
      if k == key {
        assert q != [] && r[|q|] == b && bufs'[b].dirty;
      } else {
        assert At(disk', k) == At(disk, k) && At(store', k) == At(store, k);
        var i :| 0 < i < |q| && bufs[q[i]].dirty && KeyOf(bufs[q[i]]) == k;
        assert q[i] in q && r[i] == q[i];
      }
    }
    forall c: nat | c < NBUF ensures Coherent(bufs'[c], c in r, store') {
      assert c in r <==> c in q || c == b;
      assert c != b ==> bufs[c].dev == NODEV || KeyOf(bufs[c]) != key;
    }
  }

  /** The disk holds the last data of the sector that the head of the queue reads. */
  lemma ServedData(bufs: seq<Buf>, qnext: seq<int>, idequeue: int, q: seq<nat>, disk: map<Key, Block>, store: map<Key, Block>)
    requires Queue(bufs, qnext, idequeue, q) && Unique(bufs) && OnDisk(bufs, q, disk, store) && q != []
    ensures var k := KeyOf(bufs[q[0]]); At(disk, k) == At(store, k)
  {
    var k := KeyOf(bufs[q[0]]);
    assert Pending(bufs[q[0]]);
    forall i | 0 < i < |q| ensures KeyOf(bufs[q[i]]) != k { assert Pending(bufs[q[i]]); }
  }

  lemma Dequeued(bufs: seq<Buf>, qnext: seq<int>, idequeue: int, q: seq<nat>, disk: map<Key, Block>, store: map<Key, Block>,
                 bufs': seq<Buf>)
    requires Queue(bufs, qnext, idequeue, q) && Unique(bufs) && OnDisk(bufs, q, disk, store) && q != []
    requires AllCoherent(bufs, q, store)
    requires bufs' == bufs[q[0] := bufs[q[0]].(valid := true, dirty := false, data := At(store, KeyOf(bufs[q[0]])))]
    ensures var r := q[1..];
            && Queue(bufs', qnext, if r == [] then NONE else r[0], r) && Unique(bufs')
            && OnDisk(bufs', r, if r == [] then disk else Started(disk, bufs'[r[0]]), store)
            && AllCoherent(bufs', r, store)
  {
    hide OnDisk, Coherent, At, QLink, Started;
    assert Pending(bufs[q[0]]);
    DequeuedLinks(bufs, qnext, idequeue, q, bufs');
    SameSectors(bufs, bufs', q[0]);
    hide Unique;
    assert forall i :: 0 <= i < |q| ==> q[i] < NBUF;
    assert forall i :: 0 < i < |q| ==> q[i] != q[0];
    hide Queue;
    DequeuedDisk(bufs, q, disk, store, bufs');
    DequeuedData(bufs, q, store, bufs');
    assert |q| > 1 ==> q[1..][0] == q[1];
  }

  lemma SameSectors(bufs: seq<Buf>, bufs': seq<Buf>, b: nat)
    requires Unique(bufs) && |bufs| == |bufs'| && b < |bufs| && bufs' == bufs[b := bufs'[b]]
    requires KeyOf(bufs'[b]) == KeyOf(bufs[b]) && bufs'[b].dev == bufs[b].dev
    ensures Unique(bufs')
  {
    hide KeyOf;
  }

  lemma DequeuedLinks(bufs: seq<Buf>, qnext: seq<int>, idequeue: int, q: seq<nat>, bufs': seq<Buf>)
    requires Queue(bufs, qnext, idequeue, q) && q != []
    requires |bufs'| == NBUF && bufs' == bufs[q[0] := bufs'[q[0]]]
    ensures var r := q[1..]; Queue(bufs', qnext, if r == [] then NONE else r[0], r)
  {
    var b, r := q[0], q[1..];
    forall i | 0 <= i < |r| ensures QLink(qnext, r, i) && Pending(bufs'[r[i]]) && r[i] != b {
      hide Pending;
      assert QLink(qnext, q, i + 1) && r[i] == q[i + 1] && Pending(bufs[q[i + 1]]);
    }
    hide QLink, Pending;
  }

  lemma DequeuedData(bufs: seq<Buf>, q: seq<nat>, store: map<Key, Block>, bufs': seq<Buf>)
    requires |bufs| == NBUF && q != [] && q[0] < NBUF && bufs[q[0]].dev != NODEV
    requires AllCoherent(bufs, q, store)
    requires bufs' == bufs[q[0] := bufs[q[0]].(valid := true, dirty := false, data := At(store, KeyOf(bufs[q[0]])))]
    ensures AllCoherent(bufs', q[1..], store)
  {
    var b, r := q[0], q[1..];
    assert q == [b] + r;
    forall c: nat | c < NBUF ensures Coherent(bufs'[c], c in r, store) {
      assert Coherent(bufs[c], c in q, store) && (c in q <==> c == b || c in r);
    }
  }

  lemma DequeuedDisk(bufs: seq<Buf>, q: seq<nat>, disk: map<Key, Block>, store: map<Key, Block>, bufs': seq<Buf>)
    requires |bufs| == NBUF && q != [] && (forall i :: 0 <= i < |q| ==> q[i] < NBUF) && OnDisk(bufs, q, disk, store)
    requires forall i :: 0 < i < |q| ==> q[i] != q[0]
    requires AllCoherent(bufs, q, store)
    requires |bufs'| == NBUF && bufs' == bufs[q[0] := bufs'[q[0]]]
    ensures OnDisk(bufs', q[1..], if |q| == 1 then disk else Started(disk, bufs'[q[1]]), store)
  {
    var r := q[1..];
    assert |q| > 1 ==> Coherent(bufs[q[1]], q[1] in q, store);
    var disk' := if |q| == 1 then disk else Started(disk, bufs'[q[1]]);
    forall k: Key | At(disk', k) != At(store, k) ensures exists i :: 0 < i < |r| && bufs'[r[i]].dirty && KeyOf(bufs'[r[i]]) == k {
      var i :| 0 < i < |q| && bufs[q[i]].dirty && KeyOf(bufs[q[i]]) == k;
      assert r[i - 1] == q[i];
    }
  }

  lemma InOrder(next: seq<nat>, prev: seq<nat>, order: seq<nat>)
    requires Linked(next, prev, order, NBUF)
    ensures Order(order, NBUF)
  {}

  /** A buffer moved to the front and stamped with the clock keeps the ring in order of release. */
  lemma Restamped(order: seq<nat>, p: nat, stamp: seq<nat>, clock: nat)
    requires Order(order, NBUF) && p < |order| && Ordered(order, stamp, clock)
    ensures |stamp| == NBUF && Ordered([order[p]] + Without(order, p), stamp[order[p] := clock], clock + 1)
  {
    MovedFirst(order, NBUF, p);
    var w, t := [order[p]] + Without(order, p), stamp[order[p] := clock];
    hide Without;
    forall i, j | 0 <= i < j < |w| ensures t[w[i]] > t[w[j]] {
      assert w[i] == order[From(p, i)] && w[j] == order[From(p, j)];
    }
  }

  /** The queue with one more request at its end. */
  lemma Appended(bufs: seq<Buf>, l0: seq<int>, l1: seq<int>, idequeue: int, q: seq<nat>, b: nat)
    requires Queue(bufs, l0, idequeue, q) && b < NBUF && b !in q && Pending(bufs[b])
    requires if q == [] then l1 == l0[b := NONE] else l1 == l0[b := NONE][q[|q|-1] := b]
    ensures Queue(bufs, l1, if q == [] then b else idequeue, q + [b])
  {
    var r := q + [b];
    forall i | 0 <= i < |r| ensures QLink(l1, r, i) && Pending(bufs[r[i]]) {
      if i < |q| { assert QLink(l0, q, i) && r[i] == q[i] && q[i] in q && Pending(bufs[q[i]]); }
    }
  }

  /** Some buffer holds the sector. */
  ghost predicate Held(bufs: seq<Buf>, dev: nat, sector: nat) {
    exists c :: 0 <= c < |bufs| && KeyOf(bufs[c]) == (dev, sector)
  }

  /** What bget answers: the buffer of the sector if there is one, now busy, or one to wait for; else the
      idle buffer released longest ago, now assigned and empty; a panic only if all are busy. */
  ghost predicate Chosen(bufs: seq<Buf>, bufs': seq<Buf>, stamp: seq<nat>, dev: nat, sector: nat, g: Got) {
    && |bufs| == |stamp| == NBUF
    && match g
       case Panic => !Held(bufs, dev, sector) && bufs' == bufs && forall c :: 0 <= c < NBUF ==> bufs[c].busy
       case Wait(b) => b < NBUF && bufs[b].busy && KeyOf(bufs[b]) == (dev, sector) && bufs' == bufs
       case Buffer(b) =>
         && b < NBUF && !bufs[b].busy
         && (Held(bufs, dev, sector) ==> KeyOf(bufs[b]) == (dev, sector) && bufs' == bufs[b := bufs[b].(busy := true)])
         && (!Held(bufs, dev, sector) ==> bufs' == bufs[b := Buf(true, false, false, dev, sector, bufs[b].data)])
         && (!Held(bufs, dev, sector) ==> forall c :: 0 <= c < NBUF && !bufs[c].busy ==> stamp[b] <= stamp[c])
  }

  lemma Oldest(order: seq<nat>, stamp: seq<nat>, bufs: seq<Buf>, i: nat)
    requires |stamp| == |bufs| == NBUF && i < |order| && (forall b: nat :: b < NBUF ==> b in order)
    requires forall j :: 0 <= j < |order| ==> order[j] < NBUF
    requires forall j, k :: 0 <= j < k < |order| ==> stamp[order[j]] > stamp[order[k]]
    requires forall j :: i < j < |order| ==> bufs[order[j]].busy
    ensures forall c: nat :: c < NBUF && !bufs[c].busy ==> stamp[order[i]] <= stamp[c]
  {
    forall c: nat | c < NBUF && !bufs[c].busy ensures stamp[order[i]] <= stamp[c] {
      assert c in order;
      var j :| 0 <= j < |order| && order[j] == c;
    }
  }

  /** An idle buffer is taken, for its own sector or a new one that nobody holds. */
  lemma Claimed(bufs: seq<Buf>, qnext: seq<int>, idequeue: int, q: seq<nat>, disk: map<Key, Block>, store: map<Key, Block>,
                b: nat, x: Buf)
    requires Queue(bufs, qnext, idequeue, q) && Unique(bufs) && OnDisk(bufs, q, disk, store) && b < NBUF && !bufs[b].busy
    requires x.busy && !x.dirty && (KeyOf(x) == KeyOf(bufs[b]) || forall c :: 0 <= c < NBUF ==> KeyOf(bufs[c]) != KeyOf(x))
    requires AllCoherent(bufs, q, store) && (x.valid ==> x.data == At(store, KeyOf(x)))
    ensures b !in q && Queue(bufs[b := x], qnext, idequeue, q) && Unique(bufs[b := x]) && OnDisk(bufs[b := x], q, disk, store)
    ensures AllCoherent(bufs[b := x], q, store)
  {
    assert forall i :: 0 <= i < |q| ==> Pending(bufs[q[i]]) && q[i] != b;
    var bs := bufs[b := x];
    forall k: Key | At(disk, k) != At(store, k) ensures exists i :: 0 < i < |q| && bs[q[i]].dirty && KeyOf(bs[q[i]]) == k {
      var i :| 0 < i < |q| && bufs[q[i]].dirty && KeyOf(bufs[q[i]]) == k;
      assert bs[q[i]] == bufs[q[i]];
    }
  }

  lemma Blank(bufs: seq<Buf>, qnext: seq<int>, disk: map<Key, Block>)
    requires |bufs| == |qnext| == NBUF
    requires forall b :: 0 <= b < NBUF ==> !bufs[b].valid && !bufs[b].dirty && bufs[b].dev == NODEV
    ensures Queue(bufs, qnext, NONE, []) && Unique(bufs) && OnDisk(bufs, [], disk, disk)
    ensures AllCoherent(bufs, [], disk)
  {}

  lemma StampSize(order: seq<nat>, stamp: seq<nat>, clock: nat)
    requires Ordered(order, stamp, clock)
    ensures |stamp| == NBUF
  {}

  lemma BootOrder(order: seq<nat>, stamp: seq<nat>, clock: nat)
    requires |order| == NBUF && forall i :: 0 <= i < NBUF ==> order[i] == NBUF - 1 - i
    requires stamp == seq(NBUF, i requires 0 <= i < NBUF => i) && clock == NBUF
    ensures Ordered(order, stamp, clock)
  {}

  lemma AllThere(order: seq<nat>)
    requires |order| == NBUF && forall i :: 0 <= i < NBUF ==> order[i] == NBUF - 1 - i
    ensures Everyone(order)
    ensures order == seq(NBUF, i requires 0 <= i < NBUF => NBUF - 1 - i)
  {
    forall b: nat | b < NBUF ensures b in order { assert order[NBUF - 1 - b] == b; }
  }
}
