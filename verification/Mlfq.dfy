/** The process table, its per-level counters and the scheduler's scan, as the kernel updates them in
    place; every operation is one step of MlfqSpec. (p2b kernel/proc.c) */
module Mlfq {
  import opened MlfqSpec

  // ---------- the counters ----------

  /** ninlevel agrees with the process table. */
  ghost predicate Tracks(ps: seq<Proc>, n: seq<int>) {
    |n| == NLAYER && forall k :: 0 <= k < NLAYER ==> n[k] == Count(ps, k)
  }

  lemma TracksUpdate(ps: seq<Proc>, n: seq<int>, i: nat, p: Proc, n': seq<int>)
    requires Tracks(ps, n) && i < |ps| && |n'| == NLAYER
    requires forall k: nat :: k < NLAYER ==> n'[k] == n[k] - One(ps[i], k) + One(p, k)
    ensures Tracks(ps[i := p], n')
  {
    forall k: nat | k < NLAYER ensures n'[k] == Count(ps[i := p], k) { CountUpdate(ps, i, p, k); }
  }

  /** In a table of unused slots every counter is 0. */
  lemma NoneCounted(ps: seq<Proc>, n: seq<int>)
    requires |n| == NLAYER && (forall k :: 0 <= k < NLAYER ==> n[k] == 0) && forall i :: 0 <= i < |ps| ==> ps[i].state == UNUSED
    ensures Tracks(ps, n)
  {
    hide Count;
    forall k | 0 <= k < NLAYER ensures n[k] == Count(ps, k) { CountZero(ps, k); }
  }

  lemma BootOk(s: Sys)
    requires |s.procs| == |s.last| == NPROC && s.curr == NOBODY && s.init == 0
    requires forall i :: 0 <= i < NPROC ==> s.procs[i].Ok() && |s.last[i].ticks| == NLAYER && s.procs[i].state != RUNNING
    ensures Ok(s)
  {}

  /** The first process is runnable at level 0. */
  lemma FirstCounted(ps: seq<Proc>, n: seq<int>, p: Proc, n': seq<int>)
    requires Tracks(ps, n) && ps != [] && ps[0].state == UNUSED && p.state == RUNNABLE && p.level == 0
    requires n' == n[0 := n[0] + 1]
    ensures Tracks(ps[0 := p], n')
  {
    hide Count;
    TracksUpdate(ps, n, 0, p, n');
  }

  /** A slot that is counted as before leaves the counters right. */
  lemma TracksSame(ps: seq<Proc>, n: seq<int>, i: nat, p: Proc)
    requires Tracks(ps, n) && i < |ps| && p.Counted() == ps[i].Counted() && (p.Counted() ==> p.level == ps[i].level)
    ensures Tracks(ps[i := p], n)
  {
    TracksUpdate(ps, n, i, p, n);
  }

  /** The first level with anything to run, the last level if the counters are all zero before it. */
  function Highest(n: seq<int>, k: nat): (h: nat)
    requires |n| == NLAYER && k < NLAYER
    ensures k <= h < NLAYER && (forall j :: k <= j < h ==> n[j] == 0) && (h < NLAYER - 1 ==> n[h] != 0)
    decreases NLAYER - k
  {
    if k < NLAYER - 1 && n[k] == 0 then Highest(n, k + 1) else k
  }

  /** With nobody on the CPU the first non-empty counter is the lowest level of a runnable process. */
  lemma HighestIsMinimal(ps: seq<Proc>, n: seq<int>)
    requires Tracks(ps, n) && forall i :: 0 <= i < |ps| ==> ps[i].Ok() && ps[i].state != RUNNING
    ensures forall i :: 0 <= i < |ps| && ps[i].state == RUNNABLE ==> Highest(n, 0) <= ps[i].level
    ensures (exists i :: 0 <= i < |ps| && ps[i].state == RUNNABLE)
        ==> exists i :: 0 <= i < |ps| && ps[i].state == RUNNABLE && ps[i].level == Highest(n, 0)
  {
    var h := Highest(n, 0);
    forall i | 0 <= i < |ps| && ps[i].state == RUNNABLE ensures h <= ps[i].level {
      CountZero(ps, ps[i].level);
      assert One(ps[i], ps[i].level) == 1;
    }
    if h < NLAYER - 1 {
      CountZero(ps, h);
      var i :| 0 <= i < |ps| && One(ps[i], h) != 0;
      assert ps[i].state == RUNNABLE && ps[i].level == h;
    }
  }

  /** The first runnable slot at the level from i on, |ps| if there is none. */
  function FirstAt(ps: seq<Proc>, level: nat, i: nat): (r: nat)
    requires i <= |ps|
    ensures i <= r <= |ps| && (r < |ps| ==> ps[r].state == RUNNABLE && ps[r].level == level)
    ensures forall k :: i <= k < r ==> !(ps[k].state == RUNNABLE && ps[k].level == level)
    decreases |ps| - i
  {
    if i == |ps| || (ps[i].state == RUNNABLE && ps[i].level == level) then i else FirstAt(ps, level, i + 1)
  }

  /** The slot the scan picks from level ii and slot p: the next one at the highest level in slot order,
      from the start of the table if the scan is at another level or past the last such slot. */
  function Target(ps: seq<Proc>, high: nat, ii: nat, p: nat): nat
    requires p <= |ps|
  {
    if ii == high && FirstAt(ps, high, p) < |ps| then FirstAt(ps, high, p) else FirstAt(ps, high, 0)
  }

  /** The scan from (ii, p) ends its round without a dispatch: nothing can run, or it is in its last pass
      and nothing it has yet to visit can run. */
  ghost predicate Fruitless(ps: seq<Proc>, ii: nat, p: nat) {
    forall i :: 0 <= i < |ps| && (ii == NLAYER - 1 ==> p <= i) ==> ps[i].state != RUNNABLE
  }

  class Kernel {
    const procs: array<Proc>
    const ninlevel: array<int>
    const last: array<Last>
    var curr: int
    var nextpid: nat
    var initproc: int

    /** The abstract state. */
    ghost function View(): Sys
      reads this, procs, last
    {
      Sys(procs[..], last[..], curr, nextpid, initproc)
    }

    ghost predicate Valid()
      reads this, procs, ninlevel, last
    {
      Ok(View()) && Tracks(procs[..], ninlevel[..])
    }

    /** Boot: an empty table, then userinit's first process in slot 0. */
    constructor ()
      ensures Valid() && fresh(procs) && fresh(ninlevel) && fresh(last)
      ensures curr == NOBODY && initproc == 0 && nextpid == 2
      ensures forall i :: 0 <= i < NPROC ==>
        procs[i] == if i == 0 then Proc(RUNNABLE, 1, 0, [0, 0, 0, 0], 0, false, NOBODY) else Proc(UNUSED, 0, 0, [0, 0, 0, 0], 0, false, NOBODY)
      ensures forall i :: 0 <= i < NPROC ==> last[i] == Last(0, [0, 0, 0, 0])
    {
      var empty := Proc(UNUSED, 0, 0, [0, 0, 0, 0], 0, false, NOBODY);
      procs := new Proc[NPROC](_ => empty);
      ninlevel := new int[NLAYER](_ => 0);
      last := new Last[NPROC](_ => Last(0, [0, 0, 0, 0]));
      curr, nextpid, initproc := NOBODY, 2, 0;
      new;
      hide Count, One, Tracks;
      ghost var ps, n := procs[..], ninlevel[..];
      NoneCounted(ps, n);
      procs[0] := empty.(state := RUNNABLE, pid := 1);
      ninlevel[procs[0].level] := ninlevel[procs[0].level] + 1;
      FirstCounted(ps, n, procs[0], ninlevel[..]);
      assert procs[..] == ps[0 := procs[0]];
      BootOk(View());
      hide MlfqSpec.Ok;
    }

    /** One slot's write that does not change how it is counted. */
    method Store(i: nat, p: Proc)
      requires procs.Length == NPROC && Tracks(procs[..], ninlevel[..]) && i < NPROC
      requires p.Counted() == procs[i].Counted() && (p.Counted() ==> p.level == procs[i].level)
      modifies procs
      ensures procs[..] == old(procs[..])[i := p] && Tracks(procs[..], ninlevel[..])
    {
      TracksSame(procs[..], ninlevel[..], i, p);
      procs[i] := p;
      assert procs[..] == old(procs[..])[i := p];
    }

    /** The process leaves the counted states, and its level's counter goes down. */
    method Leave(i: nat, p: Proc)
      requires procs.Length == NPROC && Tracks(procs[..], ninlevel[..]) && i < NPROC
      requires p.level == procs[i].level < NLAYER && procs[i].Counted() && !p.Counted()
      modifies procs, ninlevel
      ensures procs[..] == old(procs[..])[i := p] && Tracks(procs[..], ninlevel[..])
    {
      ghost var n := ninlevel[..];
      procs[i] := p;
      ninlevel[p.level] := ninlevel[p.level] - 1;
      TracksUpdate(old(procs[..]), n, i, p, ninlevel[..]);
      assert procs[..] == old(procs[..])[i := p];
    }

    /** The process joins them, and the counter goes up. */
    method Join(i: nat, p: Proc)
      requires procs.Length == NPROC && Tracks(procs[..], ninlevel[..]) && i < NPROC
      requires p.level < NLAYER && !procs[i].Counted() && p.Counted()
      modifies procs, ninlevel
      ensures procs[..] == old(procs[..])[i := p] && Tracks(procs[..], ninlevel[..])
    {
      ghost var n := ninlevel[..];
      procs[i] := p;
      ninlevel[p.level] := ninlevel[p.level] + 1;
      TracksUpdate(old(procs[..]), n, i, p, ninlevel[..]);
      assert procs[..] == old(procs[..])[i := p];
    }

    /** The process moves from one level's counter to another's. */
    method Move(i: nat, p: Proc)
      requires procs.Length == NPROC && Tracks(procs[..], ninlevel[..]) && i < NPROC
      requires p.level < NLAYER && procs[i].level < NLAYER && procs[i].Counted() && p.Counted()
      modifies procs, ninlevel
      ensures procs[..] == old(procs[..])[i := p] && Tracks(procs[..], ninlevel[..])
    {
      ghost var n := ninlevel[..];
      ninlevel[procs[i].level] := ninlevel[procs[i].level] - 1;
      procs[i] := p;
      ninlevel[procs[i].level] := ninlevel[procs[i].level] + 1;
      TracksUpdate(old(procs[..]), n, i, p, ninlevel[..]);
      assert procs[..] == old(procs[..])[i := p];
    }

    /** allocproc's search and first writes; ok says whether the kernel stack can be allocated. */
    method Allocproc(ok: bool) returns (j: int)
      requires Valid()
      modifies this`nextpid, procs
      ensures Tracks(procs[..], ninlevel[..])
      ensures var f := FirstUnused(old(procs[..]), 0);
              if f == NPROC then j == NOBODY && View() == old(View())
              else
                var p := Allocated(old(procs[f]), old(nextpid));
                && j == (if ok then f else NOBODY) && nextpid == old(nextpid) + 1
                && procs[..] == old(procs[..])[f := if ok then p else p.(state := UNUSED)]
    {
      var i := 0;
      while i < NPROC && procs[i].state != UNUSED
        invariant i <= NPROC && FirstUnused(procs[..], 0) == FirstUnused(procs[..], i)
      {
        i := i + 1;
      }
      if i == NPROC { return NOBODY; }
      ghost var before := procs[..];
      var pid := nextpid;
      nextpid := nextpid + 1;
      Store(i, Allocated(procs[i], pid));
      if !ok {
        Store(i, procs[i].(state := UNUSED));
        assert procs[..] == before[i := Allocated(before[i], pid).(state := UNUSED)];
        return NOBODY;
      }
      return i;
    }

    /** fork; stack and memory say whether kalloc and copyuvm succeed. */
    method Fork(stack: bool, memory: bool) returns (pid: int)
      requires Valid() && Enabled(View(), MlfqSpec.Fork(stack && memory))
      modifies this`nextpid, procs, ninlevel
      ensures Valid() && View() == Step(old(View()), MlfqSpec.Fork(stack && memory))
      ensures pid == if stack && memory && FirstUnused(old(procs[..]), 0) < NPROC then old(nextpid) else -1
    {
      StepOk(View(), MlfqSpec.Fork(stack && memory));
      ghost var before := procs[..];
      var j := Allocproc(stack);
      if j == NOBODY { return -1; }
      if !memory {
        Store(j, procs[j].(state := UNUSED));
        assert procs[..] == before[j := procs[j]];
        return -1;
      }
      pid := procs[j].pid;
      Join(j, procs[j].(parent := curr, state := RUNNABLE));
      assert procs[..] == before[j := procs[j]];
    }

    /** wakeup1 */
    method Wakeup1(chan: nat)
      requires procs.Length == NPROC && Tracks(procs[..], ninlevel[..])
      requires forall i :: 0 <= i < NPROC ==> procs[i].Ok()
      modifies procs, ninlevel
      ensures Tracks(procs[..], ninlevel[..]) && AfterWakeup(old(procs[..]), procs[..], chan)
    {
      var i := 0;
      while i < NPROC
        invariant i <= NPROC && Tracks(procs[..], ninlevel[..])
        invariant forall k :: 0 <= k < NPROC ==> procs[k] == if k < i then Woken(old(procs[k]), chan) else old(procs[k])
      {
        if procs[i].state == SLEEPING && procs[i].chan == chan {
          Join(i, procs[i].(state := RUNNABLE));
        }
        i := i + 1;
      }
    }

    method Wakeup(chan: nat)
      requires Valid()
      modifies procs, ninlevel
      ensures Valid() && View() == Step(old(View()), MlfqSpec.Wakeup(chan))
    {
      StepOk(View(), MlfqSpec.Wakeup(chan));
      Wakeup1(chan);
      assert procs[..] == Step(old(View()), MlfqSpec.Wakeup(chan)).procs;
    }

    method Yield()
      requires Valid() && curr != NOBODY
      modifies this`curr, procs
      ensures Valid() && View() == Step(old(View()), MlfqSpec.Yield)
    {
      StepOk(View(), MlfqSpec.Yield);
      Store(curr, procs[curr].(state := RUNNABLE));
      curr := NOBODY;
    }

    method Sleep(chan: nat)
      requires Valid() && curr != NOBODY
      modifies this`curr, procs, ninlevel
      ensures Valid() && View() == Step(old(View()), MlfqSpec.Sleep(chan))
    {
      StepOk(View(), MlfqSpec.Sleep(chan));
      Leave(curr, procs[curr].(chan := chan, state := SLEEPING));
      curr := NOBODY;
    }

    method Kill(pid: nat) returns (r: int)
      requires Valid()
      modifies procs, ninlevel
      ensures Valid() && View() == Step(old(View()), MlfqSpec.Kill(pid))
      ensures r == if exists i :: 0 <= i < NPROC && old(procs[i].pid) == pid then 0 else -1
    {
      StepOk(View(), MlfqSpec.Kill(pid));
      var i := 0;
      while i < NPROC && procs[i].pid != pid
        invariant i <= NPROC && FirstPid(procs[..], pid, 0) == FirstPid(procs[..], pid, i)
        invariant forall k :: 0 <= k < i ==> procs[k].pid != pid
      {
        i := i + 1;
      }
      if i == NPROC { return -1; }
      ghost var before := procs[..];
      Store(i, procs[i].(killed := true));
      if procs[i].state == SLEEPING {
        Join(i, procs[i].(state := RUNNABLE));
      }
      assert procs[..] == before[i := procs[i]];
      return 0;
    }

    /** exit's loop: the children go to init, which is woken if one of them is a zombie. */
    method HandOn(ghost s: Sys)
      requires Ok(s) && s.curr == curr != NOBODY && s.init == initproc
      requires procs.Length == NPROC && Tracks(procs[..], ninlevel[..])
      requires forall k :: 0 <= k < NPROC ==> procs[k] == Handed(s, k, false, false)
      modifies procs, ninlevel
      ensures Tracks(procs[..], ninlevel[..])
      ensures var woke := exists k :: 0 <= k < NPROC && Orphan(s, k);
              forall k :: 0 <= k < NPROC ==> procs[k] == Handed(s, k, woke, true)
    {
      hide Tracks, Ok, Woken, Reparented, Handed;
      HandedFacts(s);
      var i := 0;
      ghost var woke := false;
      while i < NPROC
        invariant i <= NPROC && Tracks(procs[..], ninlevel[..])
        invariant woke <==> exists k :: 0 <= k < i && Orphan(s, k)
        invariant forall k :: 0 <= k < NPROC ==> procs[k] == Handed(s, k, woke, k < i)
      {
        HandedParent(s, i, woke);
        if procs[i].parent == curr {
          Store(i, procs[i].(parent := initproc));
          if procs[i].state == ZOMBIE {
            HandedWoken(s, woke, i);
            Wakeup1(Chan(initproc));
            woke := true;
          }
        }
        i := i + 1;
      }
    }

    /** exit: wake the waiting parent, hand the children to init (waking it for a zombie), leave a zombie. */
    method Exit()
      requires Valid() && Enabled(View(), MlfqSpec.Exit)
      modifies this`curr, procs, ninlevel
      ensures Valid() && View() == Step(old(View()), MlfqSpec.Exit)
    {
      hide Tracks, Ok, ExitProcs, Woken, Reparented, Handed, Orphan;
      ghost var s := View();
      ghost var woke := exists k :: 0 <= k < NPROC && Orphan(s, k);
      StepOk(s, MlfqSpec.Exit);
      HandedFacts(s);
      Wakeup1(Chan(procs[curr].parent));
      HandOn(s);
      HandedAll(s, procs[..], woke);
      Leave(curr, procs[curr].(state := ZOMBIE));
      curr := NOBODY;
    }

    /** One pass of wait: a zombie child is freed and its pid returned; without children, or when killed,
        -1; else the process sleeps on its own slot. */
    method Wait() returns (r: int, slept: bool)
      requires Valid() && curr != NOBODY
      modifies this`curr, procs, ninlevel
      ensures Valid()
      ensures var s := old(View()); var j := FirstZombieChild(s.procs, s.curr, 0);
              var childless := forall i :: 0 <= i < NPROC ==> s.procs[i].parent != s.curr;
              && (j < NPROC ==> r == s.procs[j].pid && !slept && View() == Step(s, Reap))
              && (j == NPROC && (childless || s.procs[s.curr].killed) ==> r == -1 && !slept && View() == s)
              && (j == NPROC && !childless && !s.procs[s.curr].killed
                  ==> slept && View() == Step(s, MlfqSpec.Sleep(Chan(s.curr))))
    {
      StepOk(View(), Reap);
      var havekids := false;
      var i := 0;
      while i < NPROC
        invariant i <= NPROC && FirstZombieChild(procs[..], curr, 0) == FirstZombieChild(procs[..], curr, i)
        invariant havekids <==> exists k :: 0 <= k < i && procs[k].parent == curr
        invariant View() == old(View()) && Valid()
      {
        if procs[i].parent == curr {
          havekids := true;
          if procs[i].state == ZOMBIE {
            var pid := procs[i].pid;
            Store(i, procs[i].(state := UNUSED, pid := 0, parent := NOBODY, killed := false));
            return pid, false;
          }
        }
        i := i + 1;
      }
      if !havekids || procs[curr].killed { return -1, false; }
      Sleep(Chan(curr));
      return 0, true;
    }

    /** check_starve_and_boost */
    method CheckStarveAndBoost()
      requires Valid()
      modifies procs, ninlevel, last
      ensures Valid() && View() == Step(old(View()), Boost)
    {
      StepOk(View(), Boost);
      ghost var s := View();
      var i := 0;
      while i < NPROC
        invariant i <= NPROC && Tracks(procs[..], ninlevel[..])
        invariant forall k :: 0 <= k < NPROC ==>
          && procs[k] == (if k < i then Boosted(s.procs[k], s.last[k]) else s.procs[k])
          && last[k] == (if k < i then Recorded(Boosted(s.procs[k], s.last[k]), s.last[k]) else s.last[k])
      {
        var p := procs[i];
        if p.state == RUNNABLE {
          if p.level != 0 && p.level == last[i].level && p.ticks[p.level] == last[i].ticks[p.level] {
            Move(i, p.(level := p.level - 1, ticks := p.ticks[p.level - 1 := Slice(p.level - 1)]));
          }
          p := procs[i];
          last[i] := Last(p.level, last[i].ticks[p.level := p.ticks[p.level]]);
        }
        i := i + 1;
      }
      assert procs[..] == BoostProcs(s) && last[..] == BoostLast(s);
    }

    /** The loop over the counters. */
    method HighestLevel() returns (h: nat)
      requires ninlevel.Length == NLAYER
      ensures h == Highest(ninlevel[..], 0)
    {
      h := 0;
      while h < NLAYER - 1 && ninlevel[h] == 0
        invariant h < NLAYER && Highest(ninlevel[..], 0) == Highest(ninlevel[..], h)
        decreases NLAYER - h
      {
        h := h + 1;
      }
    }

    /** What the scheduler does to the process it has picked; keep says whether it stays on its slot. */
    method Pick(q: nat) returns (keep: bool)
      requires Valid() && Enabled(View(), Dispatch(q))
      modifies this`curr, procs, ninlevel
      ensures Valid() && View() == Step(old(View()), Dispatch(q))
      ensures var p := old(procs[q]); keep == ((p.ticks[p.level] + 1) % Slice(p.level) != 0)
    {
      StepOk(View(), Dispatch(q));
      ghost var before := procs[..];
      curr := q;
      var p := procs[q];
      var n := p.ticks[p.level] + 1;
      Store(q, p.(state := RUNNING, ticks := p.ticks[p.level := n]));
      p := procs[q];
      keep := true;
      if n % Slice(p.level) != 0 {
      } else {
        keep := false;
        if p.level != NLAYER - 1 {
          Move(q, p.(level := p.level + 1));
        }
      }
      assert procs[..] == before[q := procs[q]];
    }

    /** The inner loop: one pass over the slots from p0 at level ii, up to a process to dispatch (p is a
        slot and rewind is false), a reason to start again at the highest level, or the end (p is NPROC). */
    method Pass(ii: nat, p0: nat) returns (p: nat, rewind: bool)
      requires procs.Length == NPROC && ninlevel.Length == NLAYER && p0 <= NPROC
      ensures p0 <= p <= NPROC && Passed(procs[..], Highest(ninlevel[..], 0), ii, p0, p)
      ensures p < NPROC ==> procs[p].state == RUNNABLE && (!rewind ==> procs[p].level == ii)
      ensures p < NPROC ==> rewind == (ii != Highest(ninlevel[..], 0))
    {
      p, rewind := p0, false;
      while p < NPROC
        invariant p0 <= p <= NPROC && Passed(procs[..], Highest(ninlevel[..], 0), ii, p0, p)
      {
        if procs[p].state != RUNNABLE {
          p := p + 1;
          continue;
        }
        var h := HighestLevel();
        if ii != h { return p, true; }
        if procs[p].level != ii {
          p := p + 1;
          continue;
        }
        return p, false;
      }
    }

    /** The scheduler's loops from level ii0 and slot p0 up to the next process to dispatch, or to the end
        of the round (q is NOBODY). slots counts the table entries looked at and restarts the rewinds. */
    method Scan(ii0: nat, p0: nat) returns (q: int, ii: int, ghost slots: nat, ghost restarts: nat)
      requires Valid() && curr == NOBODY && ii0 < NLAYER && p0 <= NPROC
      ensures q == NOBODY <==> Fruitless(procs[..], ii0, p0)
      ensures q != NOBODY ==> Chosen(procs[..], Highest(ninlevel[..], 0), ii0, p0, q) && ii == Highest(ninlevel[..], 0)
      ensures restarts <= 1 && (q != NOBODY ==> slots <= if p0 == 0 then 2 * NPROC else 3 * NPROC - p0)
    {
      ghost var ps, high := procs[..], Highest(ninlevel[..], 0);
      Idle(View());
      HighestIsMinimal(ps, ninlevel[..]);
      hide Ok, Tracks, Rewound, Fruitless, Chosen;
      ii := ii0;
      var p := p0;
      slots, restarts := 0, 0;
      ghost var first := true;     // in the pass it began with
      ghost var some := exists i :: 0 <= i < NPROC && ps[i].state == RUNNABLE;
      while ii < NLAYER
        invariant 0 <= ii <= NLAYER && restarts <= 1
        invariant if first then ii == ii0 && p == p0 && restarts == 0 && slots == 0 else p == 0
        invariant !first && restarts == 0 ==> Passed(ps, high, ii0, p0, NPROC)
        invariant !first && restarts == 0 && some ==> ii == ii0 + 1 && slots == NPROC - p0
        invariant restarts == 1 ==> !first && ii == high && some && Rewound(ps, high, ii0, p0, slots)
        decreases 1 - restarts, NLAYER - ii
      {
        ghost var from, seen := p, slots;
        var rewind;
        p, rewind := Pass(ii, p);
        slots := seen + p - from + if p < NPROC then 1 else 0;
        if p < NPROC {
          if restarts == 0 { StillFruitful(ps, ii0, p0, p, first); } else { RewoundBound(ps, high, ii0, p0, seen); }
          if !rewind {
            ChosenHere(ps, high, ii0, p0, p, seen, first, restarts == 1);
            return p, ii, slots, restarts;
          }
          RewindOk(ps, high, ii0, p0, p, slots, first);
          restarts := restarts + 1;
          ii := HighestLevel();
          ii := ii - 1;
        }
        ii := ii + 1;
        p := 0;
        first := false;
      }
      NothingLeft(ps, high, ii0, p0, some);
      return NOBODY, ii, slots, restarts;
    }

    /** From one dispatch to the next; (ii, next) is where the scan goes on after the dispatched process
        gives the CPU back. */
    method Schedule(ii0: nat, p0: nat) returns (q: int, ii: int, next: int)
      requires Valid() && curr == NOBODY && ii0 < NLAYER && p0 <= NPROC
      modifies this`curr, procs, ninlevel
      ensures Valid() && (q == NOBODY <==> Fruitless(old(procs[..]), ii0, p0))
      ensures q == NOBODY ==> View() == old(View())
      ensures var s, high := old(View()), Highest(old(ninlevel[..]), 0);
              q != NOBODY ==>
                && 0 <= q < NPROC && q == Target(s.procs, high, ii0, p0) && Enabled(s, Dispatch(q))
                && View() == Step(s, Dispatch(q)) && ii == s.procs[q].level == high
                && next == if (s.procs[q].ticks[ii] + 1) % Slice(ii) != 0 then q else q + 1
      ensures q != NOBODY ==>
                && 0 <= q < NPROC && old(procs[q].state) == RUNNABLE && InTurn(old(procs[..]), ii0, p0, q)
                && forall i :: 0 <= i < NPROC && old(procs[i].state) == RUNNABLE ==> old(procs[q].level) <= old(procs[i].level)
    {
      ghost var slots, restarts;
      ghost var ps := procs[..];
      q, ii, slots, restarts := Scan(ii0, p0);
      if q == NOBODY { return q, ii, p0; }
      TargetInTurn(ps, Highest(ninlevel[..], 0), ii0, p0);
      var keep := Pick(q);
      next := if keep then q else q + 1;
    }
  }

  /** Of the runnable slots at its level, q is the first at or after p0, or the first of all if none is or if
      the scan came from another level. */
  ghost predicate InTurn(ps: seq<Proc>, ii0: nat, p0: nat, q: nat)
    requires q < |ps|
  {
    forall i :: 0 <= i < |ps| && ps[i].state == RUNNABLE && ps[i].level == ps[q].level ==>
      if ii0 == ps[q].level && p0 <= i then p0 <= q <= i else q <= i || (ii0 == ps[q].level && p0 <= q)
  }

  lemma TargetInTurn(ps: seq<Proc>, high: nat, ii0: nat, p0: nat)
    requires p0 <= |ps| && Target(ps, high, ii0, p0) < |ps|
    ensures ps[Target(ps, high, ii0, p0)].state == RUNNABLE && ps[Target(ps, high, ii0, p0)].level == high
    ensures InTurn(ps, ii0, p0, Target(ps, high, ii0, p0))
  {}

  // ---------- round robin ----------

  /** Slots from p on to i, going round. */
  function Ahead(p: nat, i: nat): nat
    requires p <= NPROC && i < NPROC
  {
    if p <= i then i - p else i + NPROC - p
  }

  /** One dispatch at a level: the table and the slot the scan began with, the slot dispatched, and whether
      that completed its slice. */
  datatype Turn = Turn(ps: seq<Proc>, from: nat, q: nat, done: bool)

  /** Dispatches one after the other at one level, with process i runnable at that level and not dispatched. */
  ghost predicate Waiting(ts: seq<Turn>, level: nat, i: nat) {
    && i < NPROC
    && (forall k :: 0 <= k < |ts| ==> WaitsIn(ts[k], level, i))
    && forall k :: 0 < k < |ts| ==> ts[k].from == ts[k - 1].q + if ts[k - 1].done then 1 else 0
  }

  ghost predicate WaitsIn(t: Turn, level: nat, i: nat)
    requires i < NPROC
  {
    && |t.ps| == NPROC && t.from <= NPROC && t.q < NPROC && t.q != i && t.ps[i].state == RUNNABLE && t.ps[i].level == level
    && t.ps[t.q].level == level && InTurn(t.ps, level, t.from, t.q)
  }

  function Done(ts: seq<Turn>): nat {
    if ts == [] then 0 else Done(ts[..|ts|-1]) + if ts[|ts|-1].done then 1 else 0
  }

  /** Round robin: a process runnable at the level in use is dispatched before as many slices have been
      completed as there are slots from the scan's place to its own, so before NPROC of them. */
  lemma {:induction false} RoundRobin(ts: seq<Turn>, level: nat, i: nat)
    requires ts != [] && Waiting(ts, level, i)
    ensures var last := ts[|ts|-1];
            && last.q + (if last.done then 1 else 0) <= NPROC
            && Done(ts) + Ahead(last.q + if last.done then 1 else 0, i) <= Ahead(ts[0].from, i)
    ensures Done(ts) < NPROC
  {
    var n := |ts| - 1;
    Nearer(ts[n], level, i);
    if n > 0 {
      RoundRobin(ts[..n], level, i);
    } else {
      assert ts[..0] == [] && Done([]) == 0;
    }
  }

  lemma Nearer(t: Turn, level: nat, i: nat)
    requires i < NPROC && WaitsIn(t, level, i)
    ensures Ahead(t.q, i) <= Ahead(t.from, i) && Ahead(t.q, i) > 0 && Ahead(t.q + 1, i) == Ahead(t.q, i) - 1
  {}

  /** The slot the scan dispatches: at the highest level, and the one Target names. */
  ghost predicate Chosen(ps: seq<Proc>, high: nat, ii0: nat, p0: nat, q: int) {
    && p0 <= |ps| && 0 <= q < |ps| && ps[q].state == RUNNABLE && ps[q].level == high && Minimal(ps, q)
    && q == Target(ps, high, ii0, p0)
  }

  /** A pass at level ii over the slots from a to b found nothing to do. */
  ghost predicate Passed(ps: seq<Proc>, high: nat, ii: int, a: nat, b: nat) {
    forall k :: a <= k < b && k < |ps| && ps[k].state == RUNNABLE ==> ii == high && ps[k].level != high
  }

  /** Where the scan stands after its one rewind. */
  ghost predicate Rewound(ps: seq<Proc>, high: nat, ii0: nat, p0: nat, slots: nat) {
    && p0 <= NPROC == |ps| && !(ii0 == high && FirstAt(ps, high, p0) < NPROC) && !Fruitless(ps, ii0, p0)
    && slots <= 2 * NPROC - p0 && (p0 == 0 ==> slots <= NPROC)
  }

  /** A runnable slot met before any rewind shows the round is not fruitless. */
  lemma StillFruitful(ps: seq<Proc>, ii0: nat, p0: nat, p: nat, first: bool)
    requires p < |ps| && ps[p].state == RUNNABLE && (if first then p0 <= p else ii0 + 1 < NLAYER)
    ensures !Fruitless(ps, ii0, p0)
  {}

  lemma RewindOk(ps: seq<Proc>, high: nat, ii0: nat, p0: nat, p: nat, slots: nat, first: bool)
    requires |ps| == NPROC && p0 <= NPROC && p < NPROC && !Fruitless(ps, ii0, p0)
    requires exists i :: 0 <= i < NPROC && ps[i].state == RUNNABLE && ps[i].level == high
    requires if first then p0 <= p && slots == p - p0 + 1 && ii0 != high
             else Passed(ps, high, ii0, p0, NPROC) && slots == NPROC - p0 + p + 1
    ensures Rewound(ps, high, ii0, p0, slots)
  {}

  lemma ChosenHere(ps: seq<Proc>, high: nat, ii0: nat, p0: nat, p: nat, seen: nat, first: bool, rewound: bool)
    requires |ps| == NPROC && p0 <= NPROC && p < NPROC && ps[p].state == RUNNABLE && ps[p].level == high
    requires forall i :: 0 <= i < NPROC && ps[i].state == RUNNABLE ==> high <= ps[i].level
    requires Passed(ps, high, high, if first then p0 else 0, p)
    requires if first then p0 <= p && ii0 == high
             else if rewound then Rewound(ps, high, ii0, p0, seen) else Passed(ps, high, ii0, p0, NPROC)
    ensures Chosen(ps, high, ii0, p0, p)
  {}

  lemma RewoundBound(ps: seq<Proc>, high: nat, ii0: nat, p0: nat, seen: nat)
    requires Rewound(ps, high, ii0, p0, seen)
    ensures seen <= 2 * NPROC - p0 && (p0 == 0 ==> seen <= NPROC) && !Fruitless(ps, ii0, p0)
  {}

  lemma NothingLeft(ps: seq<Proc>, high: nat, ii0: nat, p0: nat, some: bool)
    requires some == exists i :: 0 <= i < |ps| && ps[i].state == RUNNABLE
    requires forall i :: 0 <= i < |ps| ==> ps[i].level < NLAYER
    requires forall i :: 0 <= i < |ps| && ps[i].state == RUNNABLE ==> high <= ps[i].level
    requires some ==> ii0 == NLAYER - 1 && Passed(ps, high, ii0, p0, |ps|)
    ensures Fruitless(ps, ii0, p0)
  {}

  /** An abandoned zombie: init must hear of it. */
  ghost predicate Orphan(s: Sys, k: nat)
    requires Ok(s) && k < NPROC
  {
    s.procs[k].parent == s.curr && s.procs[k].state == ZOMBIE
  }

  /** A slot inside exit: the parent's wakeup is done, init's too once an orphan was seen, and the
      sweep has passed the slot or not. */
  ghost function Handed(s: Sys, k: nat, woke: bool, passed: bool): Proc
    requires Ok(s) && s.curr != NOBODY && k < NPROC
  {
    var p := Woken(s.procs[k], Chan(s.procs[s.curr].parent));
    var p := if woke then Woken(p, Chan(s.init)) else p;
    if passed then Reparented(p, s.curr, s.init) else p
  }

  lemma HandedFacts(s: Sys)
    requires Ok(s) && s.curr != NOBODY
    ensures |s.procs| == NPROC && 0 <= s.curr < NPROC && forall k :: 0 <= k < NPROC ==> s.procs[k].Ok()
    ensures forall k :: 0 <= k < NPROC ==> Handed(s, k, false, false) == Woken(s.procs[k], Chan(s.procs[s.curr].parent))
    ensures forall k, w, b :: 0 <= k < NPROC ==> Handed(s, k, w, b).Ok() && (Handed(s, k, w, b).state == RUNNING <==> k == s.curr)
  {}

  lemma HandedParent(s: Sys, k: nat, woke: bool)
    requires Ok(s) && s.curr != NOBODY && k < NPROC
    ensures var p := Handed(s, k, woke, false);
            && (Orphan(s, k) <==> p.parent == s.curr && p.state == ZOMBIE)
            && Handed(s, k, woke, true) == if p.parent == s.curr then p.(parent := s.init) else p
  {}

  lemma HandedWoken(s: Sys, woke: bool, i: nat)
    requires Ok(s) && s.curr != NOBODY
    ensures forall k, b :: 0 <= k < NPROC ==> Woken(Handed(s, k, woke, b), Chan(s.init)) == Handed(s, k, true, b)
  {}

  lemma HandedAll(s: Sys, ps: seq<Proc>, woke: bool)
    requires Ok(s) && s.curr != NOBODY && (woke <==> exists k :: 0 <= k < NPROC && Orphan(s, k))
    requires |ps| == NPROC && forall k :: 0 <= k < NPROC ==> ps[k] == Handed(s, k, woke, true)
    ensures ps[s.curr := ps[s.curr].(state := ZOMBIE)] == ExitProcs(s)
    ensures ps[s.curr].state == RUNNING && ps[s.curr].Ok()
  {
    assert forall k :: 0 <= k < NPROC ==> (Orphan(s, k) <==> s.procs[k].parent == s.curr && s.procs[k].state == ZOMBIE);
  }

  lemma Idle(s: Sys)
    requires Ok(s) && s.curr == NOBODY
    ensures |s.procs| == NPROC && forall i :: 0 <= i < NPROC ==> s.procs[i].Ok() && s.procs[i].state != RUNNING
  {}
}
