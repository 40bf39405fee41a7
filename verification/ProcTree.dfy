/** The process tree: fork, exit, wait, sleep, wakeup and kill, each method one stretch under the table's
    lock, for any number of processors. (kernel/proc.c) */
module ProcTree {
  const NPROC := 64
  const NOBODY := -1

  datatype State = UNUSED | EMBRYO | SLEEPING | RUNNABLE | RUNNING | ZOMBIE

  /** A sleep channel: the address of a table slot, which only wait uses, or any other address. */
  datatype Chan = OfProc(slot: int) | Other(address: nat)

  datatype Proc = Proc(state: State, pid: nat, parent: int, chan: Chan, killed: bool) {
    /** Neither UNUSED nor ZOMBIE, and past fork. */
    predicate Present() { state == RUNNABLE || state == RUNNING || state == SLEEPING }

    predicate Living() { Present() || state == ZOMBIE }
  }

  // ---------- the invariants ----------

  /** Every process but init has a parent that is there to wait for it. */
  ghost predicate Tree(ps: seq<Proc>, init: int) {
    && |ps| == NPROC && 0 <= init < NPROC && ps[init].Present()
    && (forall i :: 0 <= i < NPROC && ps[i].Living() && i != init ==> HasParent(ps, i))
    && (forall i :: 0 <= i < NPROC && !ps[i].Living() ==> ps[i].parent == NOBODY)
  }

  ghost predicate HasParent(ps: seq<Proc>, i: nat)
    requires i < |ps|
  {
    0 <= ps[i].parent < |ps| && ps[i].parent != i && ps[ps[i].parent].Present()
  }

  /** Nobody sleeps in wait with a zombie child. */
  ghost predicate NobodyWaits(ps: seq<Proc>) {
    forall p, c :: 0 <= p < |ps| && 0 <= c < |ps| && ps[c].state == ZOMBIE && ps[c].parent == p ==> !InWait(ps[p], p)
  }

  predicate InWait(p: Proc, slot: int) { p.state == SLEEPING && p.chan == OfProc(slot) }

  /** Live pids are distinct and below the next one. */
  ghost predicate Pids(ps: seq<Proc>, nextpid: nat) {
    && (forall i :: 0 <= i < |ps| && ps[i].state != UNUSED ==> 0 < ps[i].pid < nextpid)
    && (forall i, j :: 0 <= i < j < |ps| && ps[i].state != UNUSED && ps[j].state != UNUSED ==> ps[i].pid != ps[j].pid)
  }

  ghost predicate Distinct(s: seq<nat>) { forall i, j :: 0 <= i < j < |s| ==> s[i] != s[j] }

  /** Every exited process is a zombie or was returned by wait, once, and nobody else was returned. */
  ghost predicate Reaping(ps: seq<Proc>, nextpid: nat, exited: seq<nat>, returned: seq<nat>) {
    && Distinct(exited) && Distinct(returned)
    && (forall x :: x in exited ==> x < nextpid)
    && (forall x :: x in returned ==> x in exited)
    && (forall i :: 0 <= i < |ps| && ps[i].state != UNUSED ==> (ps[i].pid in exited <==> ps[i].state == ZOMBIE))
    && (forall i :: 0 <= i < |ps| && ps[i].state != UNUSED ==> ps[i].pid !in returned)
    && (forall x :: x in exited && x !in returned ==> exists i :: 0 <= i < |ps| && ps[i].state == ZOMBIE && ps[i].pid == x)
  }

  // ---------- what the operations do to a slot ----------

  function Woken(p: Proc, chan: Chan): Proc {
    if p.state == SLEEPING && p.chan == chan then p.(state := RUNNABLE) else p
  }

  /** A zombie that the exiting process leaves to init. */
  predicate Orphan(ps: seq<Proc>, cur: int, k: nat)
    requires k < |ps|
  {
    ps[k].parent == cur && ps[k].state == ZOMBIE
  }

  /** A slot inside exit: the parent's wakeup is done, init's too once an orphan was seen, and the sweep
      has passed the slot or not. */
  function Handed(ps: seq<Proc>, cur: nat, init: int, woke: bool, passed: bool, k: nat): Proc
    requires cur < |ps| && k < |ps|
  {
    var p := Woken(ps[k], OfProc(ps[cur].parent));
    var p := if woke then Woken(p, OfProc(init)) else p;
    if passed && p.parent == cur then p.(parent := init) else p
  }

  /** The table after exit. */
  ghost predicate Exited(ps: seq<Proc>, ps': seq<Proc>, cur: nat, init: int)
    requires cur < |ps|
  {
    var woke := exists k: nat :: k < |ps| && Orphan(ps, cur, k);
    && |ps'| == |ps|
    && forall k: nat :: k < |ps| ==>
         ps'[k] == if k == cur then Handed(ps, cur, init, woke, true, k).(state := ZOMBIE) else Handed(ps, cur, init, woke, true, k)
  }

  /** A slot keeps its identity: pid, parent and whether it is unused, embryo, present or zombie. */
  predicate SameKind(p: Proc, q: Proc) {
    && q.pid == p.pid && q.parent == p.parent && (q.state == ZOMBIE <==> p.state == ZOMBIE)
    && (q.Present() <==> p.Present()) && (q.state == UNUSED <==> p.state == UNUSED)
  }

  lemma KindKeeps(ps: seq<Proc>, ps': seq<Proc>, init: int, nextpid: nat, exited: seq<nat>, returned: seq<nat>)
    requires Tree(ps, init) && NobodyWaits(ps) && Pids(ps, nextpid) && Reaping(ps, nextpid, exited, returned)
    requires |ps'| == |ps| && forall k: nat :: k < |ps| ==> SameKind(ps[k], ps'[k])
    requires forall k: nat :: k < |ps| && InWait(ps'[k], k) ==>
      InWait(ps[k], k) || forall c :: 0 <= c < |ps| && ps[c].parent == k ==> ps[c].state != ZOMBIE
    ensures Tree(ps', init) && NobodyWaits(ps') && Pids(ps', nextpid) && Reaping(ps', nextpid, exited, returned)
  {
    forall i: nat | i < |ps| ensures SameKind(ps[i], ps'[i]) {}
    forall i | 0 <= i < NPROC && ps'[i].Living() && i != init ensures HasParent(ps', i) { assert HasParent(ps, i); }
    forall x | x in exited && x !in returned ensures exists i :: 0 <= i < |ps'| && ps'[i].state == ZOMBIE && ps'[i].pid == x {
      var i :| 0 <= i < |ps| && ps[i].state == ZOMBIE && ps[i].pid == x;
      assert SameKind(ps[i], ps'[i]);
    }
  }

  /** What exit does to slot k, as far as the invariants see it. */
  ghost predicate Left(ps: seq<Proc>, ps': seq<Proc>, cur: nat, init: int, k: nat)
    requires cur < |ps| == |ps'| && k < |ps|
  {
    && ps'[k].pid == ps[k].pid && (ps'[k].state == ZOMBIE <==> ps[k].state == ZOMBIE || k == cur)
    && (ps'[k].Present() <==> ps[k].Present() && k != cur) && (ps'[k].state == UNUSED <==> ps[k].state == UNUSED)
    && ps'[k].parent == (if ps[k].parent == cur then init else ps[k].parent)
    && (InWait(ps'[k], k) ==> InWait(ps[k], k) && k != ps[cur].parent)
    && (k == init && InWait(ps'[k], k) ==> forall c: nat :: c < |ps| ==> !Orphan(ps, cur, c))
  }

  lemma NextOrphan(ps: seq<Proc>, cur: int, i: nat)
    requires i < |ps|
    ensures (exists k: nat :: k < i + 1 && Orphan(ps, cur, k)) <==> (exists k: nat :: k < i && Orphan(ps, cur, k)) || Orphan(ps, cur, i)
  {
    hide Orphan;
  }

  lemma ExitedFrom(ps: seq<Proc>, ps': seq<Proc>, cur: nat, init: int, woke: bool)
    requires cur < |ps| == |ps'| && (woke <==> exists k: nat :: k < |ps| && Orphan(ps, cur, k))
    requires forall k: nat :: k < |ps| ==>
      ps'[k] == if k == cur then Handed(ps, cur, init, woke, true, k).(state := ZOMBIE) else Handed(ps, cur, init, woke, true, k)
    ensures Exited(ps, ps', cur, init)
  {
    hide Handed, Orphan;
  }

  /** What exit does to every slot, field by field. */
  lemma ExitFields(ps: seq<Proc>, ps': seq<Proc>, cur: nat, init: int)
    requires cur < |ps| && ps[cur].state == RUNNING && Exited(ps, ps', cur, init)
    ensures |ps'| == |ps|
    ensures var orphaned := exists k :: 0 <= k < |ps| && ps[k].parent == cur && ps[k].state == ZOMBIE;
      forall k :: 0 <= k < |ps| ==>
        var p := ps[k];
        var wakes := p.state == SLEEPING && (p.chan == OfProc(ps[cur].parent) || (orphaned && p.chan == OfProc(init)));
        ps'[k] == p.(state := if k == cur then ZOMBIE else if wakes then RUNNABLE else p.state,
                     parent := if p.parent == cur then init else p.parent)
  {
    var woke := exists k: nat :: k < |ps| && Orphan(ps, cur, k);
    assert woke <==> exists k :: 0 <= k < |ps| && ps[k].parent == cur && ps[k].state == ZOMBIE by {
      if woke { var k: nat :| k < |ps| && Orphan(ps, cur, k); }
      if k :| 0 <= k < |ps| && ps[k].parent == cur && ps[k].state == ZOMBIE { assert Orphan(ps, cur, k); }
    }
  }

  lemma ExitLeft(ps: seq<Proc>, ps': seq<Proc>, cur: nat, init: int)
    requires cur < |ps| && ps[cur].state == RUNNING && Exited(ps, ps', cur, init)
    ensures |ps'| == |ps| && forall k: nat :: k < |ps| ==> Left(ps, ps', cur, init, k)
  {}

  lemma ExitTree(ps: seq<Proc>, ps': seq<Proc>, cur: nat, init: int)
    requires Tree(ps, init) && NobodyWaits(ps) && cur < NPROC && ps[cur].state == RUNNING && cur != init
    requires |ps'| == |ps| && forall k: nat :: k < |ps| ==> Left(ps, ps', cur, init, k)
    ensures Tree(ps', init) && NobodyWaits(ps')
  {
    hide InWait, Orphan;
    assert HasParent(ps, cur);
    forall i | 0 <= i < NPROC ensures ps'[i].Living() && i != init ==> HasParent(ps', i) {
      assert Left(ps, ps', cur, init, i);
      if ps'[i].Living() && i != init {
        assert HasParent(ps, i);
        assert Left(ps, ps', cur, init, ps'[i].parent);
      }
    }
    forall i | 0 <= i < NPROC ensures !ps'[i].Living() ==> ps'[i].parent == NOBODY { assert Left(ps, ps', cur, init, i); }
    assert Left(ps, ps', cur, init, init);
    forall p, c | 0 <= p < NPROC && 0 <= c < NPROC && ps'[c].state == ZOMBIE && ps'[c].parent == p ensures !InWait(ps'[p], p) {
      assert Left(ps, ps', cur, init, c) && Left(ps, ps', cur, init, p);
      LeftWaiting(ps, ps', cur, init, p, c);
    }
  }

  lemma LeftWaiting(ps: seq<Proc>, ps': seq<Proc>, cur: nat, init: int, p: nat, c: nat)
    requires NobodyWaits(ps) && cur < |ps| == |ps'| && p < |ps| && c < |ps| && ps[cur].state == RUNNING && cur != init
    requires ps[cur].parent != cur
    requires Left(ps, ps', cur, init, c) && Left(ps, ps', cur, init, p) && ps'[c].state == ZOMBIE && ps'[c].parent == p
    ensures !InWait(ps'[p], p)
  {
    if c != cur && ps[c].parent == cur { assert Orphan(ps, cur, c); }
  }

  lemma ExitReaping(ps: seq<Proc>, ps': seq<Proc>, cur: nat, init: int, nextpid: nat, exited: seq<nat>, returned: seq<nat>)
    requires Pids(ps, nextpid) && Reaping(ps, nextpid, exited, returned) && cur < |ps| && ps[cur].state == RUNNING
    requires |ps'| == |ps| && forall k: nat :: k < |ps| ==> Left(ps, ps', cur, init, k)
    ensures Pids(ps', nextpid) && Reaping(ps', nextpid, exited + [ps[cur].pid], returned)
  {
    hide InWait, Orphan, Proc.Present;
    forall k: nat | k < |ps| ensures ps'[k].pid == ps[k].pid && (ps'[k].state == UNUSED <==> ps[k].state == UNUSED)
                                  && (ps'[k].state == ZOMBIE <==> ps[k].state == ZOMBIE || k == cur) {
      assert Left(ps, ps', cur, init, k);
    }
    hide Left;
    ExitPids(ps, ps', cur, nextpid, exited, returned);
  }

  lemma ExitPids(ps: seq<Proc>, ps': seq<Proc>, cur: nat, nextpid: nat, exited: seq<nat>, returned: seq<nat>)
    requires Pids(ps, nextpid) && Reaping(ps, nextpid, exited, returned) && cur < |ps| == |ps'| && ps[cur].state == RUNNING
    requires forall k :: 0 <= k < |ps| ==> ps'[k].pid == ps[k].pid
    requires forall k :: 0 <= k < |ps| ==> (ps'[k].state == UNUSED <==> ps[k].state == UNUSED)
    requires forall k :: 0 <= k < |ps| ==> (ps'[k].state == ZOMBIE <==> ps[k].state == ZOMBIE || k == cur)
    ensures Pids(ps', nextpid) && Reaping(ps', nextpid, exited + [ps[cur].pid], returned)
  {
    var pid := ps[cur].pid;
    var e := exited + [pid];
    assert pid !in exited && pid !in returned;
    assert forall x :: x in e <==> x in exited || x == pid;
    forall i | 0 <= i < |ps| && ps[i].state != UNUSED
      ensures (ps'[i].pid in e <==> ps'[i].state == ZOMBIE) && ps'[i].pid !in returned {
      assert i != cur ==> ps[i].pid != pid;
    }
    forall x | x in e && x !in returned ensures exists i :: 0 <= i < |ps'| && ps'[i].state == ZOMBIE && ps'[i].pid == x {
      var i := if x == pid then cur else Zombie(ps, exited, returned, x);
      assert ps'[i].state == ZOMBIE && ps'[i].pid == x;
    }
  }

  /** The zombie that an exited process nobody was told of still is. */
  ghost function Zombie(ps: seq<Proc>, exited: seq<nat>, returned: seq<nat>, x: nat): (i: nat)
    requires exists i :: 0 <= i < |ps| && ps[i].state == ZOMBIE && ps[i].pid == x
    ensures i < |ps| && ps[i].state == ZOMBIE && ps[i].pid == x
  {
    var i :| 0 <= i < |ps| && ps[i].state == ZOMBIE && ps[i].pid == x;
    i
  }

  lemma ReapKeeps(ps: seq<Proc>, j: nat, q: Proc, init: int, nextpid: nat, exited: seq<nat>, returned: seq<nat>)
    requires Tree(ps, init) && NobodyWaits(ps) && Pids(ps, nextpid) && Reaping(ps, nextpid, exited, returned)
    requires j < NPROC && ps[j].state == ZOMBIE && q.state == UNUSED && q.parent == NOBODY
    ensures var ps' := ps[j := q];
            && Tree(ps', init) && NobodyWaits(ps') && Pids(ps', nextpid)
            && Reaping(ps', nextpid, exited, returned + [ps[j].pid])
  {
    ReapTree(ps, j, q, init);
    ReapPids(ps, j, q, nextpid, exited, returned);
  }

  lemma ReapTree(ps: seq<Proc>, j: nat, q: Proc, init: int)
    requires Tree(ps, init) && NobodyWaits(ps) && j < NPROC && ps[j].state == ZOMBIE && q.state == UNUSED && q.parent == NOBODY
    ensures Tree(ps[j := q], init) && NobodyWaits(ps[j := q])
  {
    var ps' := ps[j := q];
    forall i | 0 <= i < NPROC && ps'[i].Living() && i != init ensures HasParent(ps', i) { assert HasParent(ps, i); }
  }

  lemma ReapPids(ps: seq<Proc>, j: nat, q: Proc, nextpid: nat, exited: seq<nat>, returned: seq<nat>)
    requires Pids(ps, nextpid) && Reaping(ps, nextpid, exited, returned) && j < |ps| && ps[j].state == ZOMBIE && q.state == UNUSED
    ensures Pids(ps[j := q], nextpid) && Reaping(ps[j := q], nextpid, exited, returned + [ps[j].pid])
  {
    var ps', pid := ps[j := q], ps[j].pid;
    var r := returned + [pid];
    assert pid in exited && pid !in returned;
    assert forall x :: x in r <==> x in returned || x == pid;
    forall i | 0 <= i < |ps| && ps'[i].state != UNUSED ensures ps'[i].pid !in r { assert ps[i].pid != pid; }
    forall x | x in exited && x !in r ensures exists i :: 0 <= i < |ps'| && ps'[i].state == ZOMBIE && ps'[i].pid == x {
      var i := Zombie(ps, exited, returned, x);
      assert i != j && ps'[i] == ps[i];
    }
  }

  /** A slot that was unused becomes an embryo with a new pid, or an embryo is given up or born. */
  predicate Step(ps: seq<Proc>, j: nat, q: Proc, nextpid: nat, n': nat)
    requires j < |ps|
  {
    match ps[j].state
    case UNUSED => q.state == EMBRYO && q.pid == nextpid && n' == nextpid + 1 && q.parent == ps[j].parent && 0 < nextpid
    case EMBRYO =>
      && n' == nextpid
      && (q.state == UNUSED ==> q.parent == ps[j].parent)
      && (q.state != UNUSED ==> q.state == RUNNABLE && q.pid == ps[j].pid && 0 <= q.parent < |ps| && ps[q.parent].Present())
    case _ => false
  }

  lemma ForkKeeps(ps: seq<Proc>, j: nat, q: Proc, init: int, nextpid: nat, n': nat, exited: seq<nat>, returned: seq<nat>)
    requires Tree(ps, init) && NobodyWaits(ps) && Pids(ps, nextpid) && Reaping(ps, nextpid, exited, returned) && j < NPROC
    requires Step(ps, j, q, nextpid, n')
    ensures var ps' := ps[j := q];
            Tree(ps', init) && NobodyWaits(ps') && Pids(ps', n') && Reaping(ps', n', exited, returned)
  {
    ForkTree(ps, j, q, init, nextpid, n');
    ForkPids(ps, j, q, nextpid, n', exited, returned);
  }

  lemma ForkTree(ps: seq<Proc>, j: nat, q: Proc, init: int, nextpid: nat, n': nat)
    requires Tree(ps, init) && NobodyWaits(ps) && j < NPROC && Step(ps, j, q, nextpid, n')
    ensures Tree(ps[j := q], init) && NobodyWaits(ps[j := q])
  {
    var ps' := ps[j := q];
    forall i | 0 <= i < NPROC && ps'[i].Living() && i != init ensures HasParent(ps', i) {
      if i != j { assert HasParent(ps, i); }
    }
  }

  lemma ForkPids(ps: seq<Proc>, j: nat, q: Proc, nextpid: nat, n': nat, exited: seq<nat>, returned: seq<nat>)
    requires Pids(ps, nextpid) && Reaping(ps, nextpid, exited, returned) && j < |ps| && Step(ps, j, q, nextpid, n')
    ensures Pids(ps[j := q], n') && Reaping(ps[j := q], n', exited, returned)
  {
    var ps' := ps[j := q];
    assert nextpid !in exited && nextpid !in returned;
    forall x | x in exited && x !in returned ensures exists i :: 0 <= i < |ps'| && ps'[i].state == ZOMBIE && ps'[i].pid == x {
      var i := Zombie(ps, exited, returned, x);
      assert ps'[i] == ps[i];
    }
  }

  class Table {
    const procs: array<Proc>
    var initproc: int
    var nextpid: nat
    ghost var exited: seq<nat>       // pids, in the order of exit
    ghost var returned: seq<nat>     // pids that wait returned

    ghost predicate Valid()
      reads this, procs
    {
      && procs.Length == NPROC && 0 < nextpid
      && Tree(procs[..], initproc) && NobodyWaits(procs[..]) && Pids(procs[..], nextpid)
      && Reaping(procs[..], nextpid, exited, returned)
    }

    /** Boot: init in slot 0. */
    constructor ()
      ensures Valid() && initproc == 0 && nextpid == 2 && exited == returned == [] && fresh(procs)
      ensures forall i :: 0 <= i < NPROC ==>
        procs[i] == if i == 0 then Proc(RUNNABLE, 1, NOBODY, Other(0), false) else Proc(UNUSED, 0, NOBODY, Other(0), false)
    {
      procs := new Proc[NPROC](_ => Proc(UNUSED, 0, NOBODY, Other(0), false));
      initproc, nextpid, exited, returned := 0, 2, [], [];
      new;
      procs[0] := Proc(RUNNABLE, 1, NOBODY, Other(0), false);
    }

    /** allocproc: the value is the slot, or NOBODY; stack says whether its kernel stack could be had. */
    method Allocproc(stack: bool) returns (j: int)
      requires Valid()
      modifies this`nextpid, procs
      ensures Valid() && (j == NOBODY <==> !stack || forall i :: 0 <= i < NPROC ==> old(procs[i].state) != UNUSED)
      ensures j != NOBODY ==> 0 <= j < NPROC && old(procs[j].state) == UNUSED && nextpid == old(nextpid) + 1
      ensures j != NOBODY ==> procs[..] == old(procs[..])[j := old(procs[j]).(state := EMBRYO, pid := old(nextpid))]
      ensures j != NOBODY ==> forall i :: 0 <= i < j ==> old(procs[i].state) != UNUSED
      ensures j == NOBODY ==> forall i :: 0 <= i < NPROC ==>
        if old(procs[i].state) != UNUSED then procs[i] == old(procs[i]) else procs[i].state == UNUSED
      ensures nextpid == old(nextpid) + if exists i :: 0 <= i < NPROC && old(procs[i].state) == UNUSED then 1 else 0
    {
      hide Tree, NobodyWaits, Pids, Reaping;
      var i := 0;
      while i < NPROC && procs[i].state != UNUSED
        invariant i <= NPROC && forall k :: 0 <= k < i ==> procs[k].state != UNUSED
      {
        i := i + 1;
      }
      if i == NPROC { return NOBODY; }
      ghost var ps := procs[..];
      var pid := nextpid;
      nextpid := nextpid + 1;
      procs[i] := procs[i].(state := EMBRYO, pid := pid);
      assert procs[..] == ps[i := procs[i]];
      ForkKeeps(ps, i, procs[i], initproc, pid, nextpid, exited, returned);
      if !stack {
        GiveUp(i);
        return NOBODY;
      }
      return i;
    }

    /** A fork that fails puts the slot back. */
    method GiveUp(j: nat)
      requires Valid() && j < NPROC && procs[j].state == EMBRYO
      modifies procs
      ensures Valid() && procs[..] == old(procs[..])[j := old(procs[j]).(state := UNUSED)]
    {
      hide Tree, NobodyWaits, Pids, Reaping;
      ghost var ps := procs[..];
      procs[j] := procs[j].(state := UNUSED);
      assert procs[..] == ps[j := procs[j]];
      ForkKeeps(ps, j, procs[j], initproc, nextpid, nextpid, exited, returned);
    }

    /** fork's last step for the child in slot j; other stretches may have run since allocproc. */
    method Born(cur: nat, j: nat) returns (pid: nat)
      requires Valid() && cur < NPROC && procs[cur].state == RUNNING && j < NPROC && procs[j].state == EMBRYO
      modifies procs
      ensures Valid() && pid == old(procs[j].pid)
      ensures procs[..] == old(procs[..])[j := old(procs[j]).(parent := cur, state := RUNNABLE)]
    {
      hide Tree, NobodyWaits, Pids, Reaping;
      ghost var ps := procs[..];
      assert ps[cur].Present();
      pid := procs[j].pid;
      procs[j] := procs[j].(parent := cur, state := RUNNABLE);
      assert procs[..] == ps[j := procs[j]];
      ForkKeeps(ps, j, procs[j], initproc, nextpid, nextpid, exited, returned);
    }

    method Wakeup1(chan: Chan)
      requires procs.Length == NPROC
      modifies procs
      ensures forall k :: 0 <= k < NPROC ==> procs[k] == Woken(old(procs[k]), chan)
      ensures forall k :: 0 <= k < NPROC ==>
        procs[k] == old(procs[k]).(state := if old(procs[k].state) == SLEEPING && old(procs[k].chan) == chan then RUNNABLE
                                            else old(procs[k].state))
    {
      var i := 0;
      while i < NPROC
        invariant i <= NPROC
        invariant forall k :: 0 <= k < NPROC ==> procs[k] == if k < i then Woken(old(procs[k]), chan) else old(procs[k])
      {
        if procs[i].state == SLEEPING && procs[i].chan == chan { procs[i] := procs[i].(state := RUNNABLE); }
        i := i + 1;
      }
    }

    method Wakeup(chan: Chan)
      requires Valid()
      modifies procs
      ensures Valid()
      ensures forall k :: 0 <= k < NPROC ==>
        procs[k] == old(procs[k]).(state := if old(procs[k].state) == SLEEPING && old(procs[k].chan) == chan then RUNNABLE
                                            else old(procs[k].state))
    {
      hide Tree, NobodyWaits, Pids, Reaping;
      ghost var ps := procs[..];
      Wakeup1(chan);
      KindKeeps(ps, procs[..], initproc, nextpid, exited, returned);
    }

    method Exit(cur: nat)
      requires Valid() && cur < NPROC && procs[cur].state == RUNNING
      requires cur != initproc          // otherwise it panics
      modifies this`exited, procs
      ensures Valid() && exited == old(exited) + [old(procs[cur].pid)] && procs[cur].state == ZOMBIE
      ensures Exited(old(procs[..]), procs[..], cur, initproc)
      ensures var orphaned := exists k :: 0 <= k < NPROC && old(procs[k].parent) == cur && old(procs[k].state) == ZOMBIE;
        forall k :: 0 <= k < NPROC ==>
          var p := old(procs[k]);
          var wakes := p.state == SLEEPING && (p.chan == OfProc(old(procs[cur].parent)) || (orphaned && p.chan == OfProc(initproc)));
          procs[k] == p.(state := if k == cur then ZOMBIE else if wakes then RUNNABLE else p.state,
                         parent := if p.parent == cur then initproc else p.parent)
    {
      hide Tree, NobodyWaits, Pids, Reaping, Woken, Handed, Exited, Orphan;
      ghost var ps := procs[..];
      SweepFacts(ps, cur, initproc);
      Wakeup1(OfProc(procs[cur].parent));
      var i := 0;
      ghost var woke := false;
      while i < NPROC
        invariant i <= NPROC && (woke <==> exists k: nat :: k < i && Orphan(ps, cur, k)) && exited == old(exited)
        invariant forall k: nat :: k < NPROC ==> procs[k] == Handed(ps, cur, initproc, woke, k < i, k)
      {
        Sweep(ps, cur, initproc, woke, i);
        NextOrphan(ps, cur, i);
        if procs[i].parent == cur {
          procs[i] := procs[i].(parent := initproc);
          if procs[i].state == ZOMBIE {
            Wakeup1(OfProc(initproc));
            woke := true;
          }
        }
        i := i + 1;
      }
      procs[cur] := procs[cur].(state := ZOMBIE);
      ExitedFrom(ps, procs[..], cur, initproc, woke);
      ExitFields(ps, procs[..], cur, initproc);
      ExitLeft(ps, procs[..], cur, initproc);
      ExitTree(ps, procs[..], cur, initproc);
      ExitReaping(ps, procs[..], cur, initproc, nextpid, exited, returned);
      exited := exited + [ps[cur].pid];
    }

    /** One pass of wait's loop: a zombie child's pid, -1 without children or when killed, or sleep. */
    method Wait(cur: nat) returns (r: int, slept: bool)
      requires Valid() && cur < NPROC && procs[cur].state == RUNNING
      modifies this`returned, procs
      ensures Valid()
      ensures !slept && r != -1 ==> exists j: nat :: j < NPROC && ReapedBy(old(procs[..]), procs[..], cur, j, r)
                                                   && forall i :: 0 <= i < j && old(procs[i].parent) == cur ==> old(procs[i].state) != ZOMBIE
      ensures !slept && r != -1 ==> returned == old(returned) + [r as nat] && r as nat in exited && r as nat !in old(returned)
      ensures !slept && r == -1 ==> procs[..] == old(procs[..]) && returned == old(returned)
      ensures !slept && r == -1 ==> old(procs[cur].killed) || forall i :: 0 <= i < NPROC ==> old(procs[i].parent) != cur
      ensures (forall j :: 0 <= j < NPROC && old(procs[j].parent) == cur ==> old(procs[j].state) != ZOMBIE) <==> slept || r == -1
      ensures slept ==> !old(procs[cur].killed) && exists i :: 0 <= i < NPROC && old(procs[i].parent) == cur
      ensures slept ==> returned == old(returned)
      ensures slept ==> procs[..] == old(procs[..])[cur := old(procs[cur]).(state := SLEEPING, chan := OfProc(cur))]
    {
      hide Tree, NobodyWaits, Reaping, Pids;
      ghost var ps := procs[..];
      var havekids := false;
      var i := 0;
      while i < NPROC
        invariant i <= NPROC && procs[..] == ps && Valid() && returned == old(returned)
        invariant havekids <==> exists k :: 0 <= k < i && ps[k].parent == cur
        invariant forall k :: 0 <= k < i && ps[k].parent == cur ==> ps[k].state != ZOMBIE
      {
        if procs[i].parent == cur {
          havekids := true;
          if procs[i].state == ZOMBIE {
            var pid := procs[i].pid;
            ReapFacts(ps, nextpid, exited, returned, i);
            procs[i] := procs[i].(state := UNUSED, pid := 0, parent := NOBODY, killed := false);
            assert procs[..] == ps[i := procs[i]];
            ReapKeeps(ps, i, procs[i], initproc, nextpid, exited, returned);
            returned := returned + [pid];
            assert ReapedBy(ps, procs[..], cur, i, pid);
            return pid, false;
          }
        }
        i := i + 1;
      }
      if !havekids || procs[cur].killed { return -1, false; }
      procs[cur] := procs[cur].(chan := OfProc(cur), state := SLEEPING);
      assert procs[..] == ps[cur := procs[cur]];
      KindKeeps(ps, procs[..], initproc, nextpid, exited, returned);
      return 0, true;
    }

    /** sleep on anything that is not a slot of the table. */
    method Sleep(cur: nat, address: nat)
      requires Valid() && cur < NPROC && procs[cur].state == RUNNING
      modifies procs
      ensures Valid() && procs[..] == old(procs[..])[cur := old(procs[cur]).(state := SLEEPING, chan := Other(address))]
    {
      hide Tree, NobodyWaits, Pids, Reaping;
      ghost var ps := procs[..];
      procs[cur] := procs[cur].(chan := Other(address), state := SLEEPING);
      assert procs[..] == ps[cur := procs[cur]];
      KindKeeps(ps, procs[..], initproc, nextpid, exited, returned);
    }

    /** yield, and the scheduler's pick. */
    method Switch(cur: nat, run: bool)
      requires Valid() && cur < NPROC && procs[cur].state == if run then RUNNABLE else RUNNING
      modifies procs
      ensures Valid() && procs[..] == old(procs[..])[cur := old(procs[cur]).(state := if run then RUNNING else RUNNABLE)]
    {
      hide Tree, NobodyWaits, Pids, Reaping;
      ghost var ps := procs[..];
      procs[cur] := procs[cur].(state := if run then RUNNING else RUNNABLE);
      assert procs[..] == ps[cur := procs[cur]];
      KindKeeps(ps, procs[..], initproc, nextpid, exited, returned);
    }

    method Kill(pid: nat) returns (r: int)
      requires Valid()
      modifies procs
      ensures Valid() && r == if exists i :: 0 <= i < NPROC && old(procs[i].pid) == pid then 0 else -1
      ensures r == -1 ==> procs[..] == old(procs[..])
      ensures r == 0 ==> exists i: nat :: i < NPROC && Killed(old(procs[..]), procs[..], i, pid)
    {
      hide Tree, NobodyWaits, Pids, Reaping;
      ghost var ps := procs[..];
      var i := 0;
      while i < NPROC && procs[i].pid != pid
        invariant i <= NPROC && forall k :: 0 <= k < i ==> procs[k].pid != pid
      {
        i := i + 1;
      }
      if i == NPROC { return -1; }
      procs[i] := procs[i].(killed := true);
      if procs[i].state == SLEEPING { procs[i] := procs[i].(state := RUNNABLE); }
      assert procs[..] == ps[i := procs[i]];
      assert Killed(ps, procs[..], i, pid);
      KindKeeps(ps, procs[..], initproc, nextpid, exited, returned);
      return 0;
    }
  }

  /** Slot j was a zombie child of cur with this pid and is free now. */
  ghost predicate ReapedBy(ps: seq<Proc>, ps': seq<Proc>, cur: nat, j: nat, pid: int)
    requires j < |ps|
  {
    && ps[j].state == ZOMBIE && ps[j].parent == cur && ps[j].pid == pid
    && ps' == ps[j := Proc(UNUSED, 0, NOBODY, ps[j].chan, false)]
  }

  /** The first slot with the pid is marked, and runnable if it slept. */
  ghost predicate Killed(ps: seq<Proc>, ps': seq<Proc>, i: nat, pid: nat)
    requires i < |ps|
  {
    && ps[i].pid == pid && (forall k :: 0 <= k < i ==> ps[k].pid != pid)
    && ps' == ps[i := ps[i].(killed := true, state := if ps[i].state == SLEEPING then RUNNABLE else ps[i].state)]
  }

  lemma ReapFacts(ps: seq<Proc>, nextpid: nat, exited: seq<nat>, returned: seq<nat>, j: nat)
    requires Reaping(ps, nextpid, exited, returned) && j < |ps| && ps[j].state == ZOMBIE
    ensures ps[j].pid in exited && ps[j].pid !in returned
  {}

  lemma SweepFacts(ps: seq<Proc>, cur: nat, init: int)
    requires cur < |ps|
    ensures forall k: nat :: k < |ps| ==> Handed(ps, cur, init, false, false, k) == Woken(ps[k], OfProc(ps[cur].parent))
    ensures forall k: nat, b: bool :: k < |ps| ==>
      Woken(Handed(ps, cur, init, false, b, k), OfProc(init)) == Handed(ps, cur, init, true, b, k)
    ensures forall k: nat, b: bool :: k < |ps| ==>
      Woken(Handed(ps, cur, init, true, b, k), OfProc(init)) == Handed(ps, cur, init, true, b, k)
  {}

  lemma Sweep(ps: seq<Proc>, cur: nat, init: int, woke: bool, k: nat)
    requires cur < |ps| && k < |ps|
    ensures var p := Handed(ps, cur, init, woke, false, k);
            && (Orphan(ps, cur, k) <==> p.parent == cur && p.state == ZOMBIE)
            && Handed(ps, cur, init, woke, true, k) == if p.parent == cur then p.(parent := init) else p
  {}
}
