/** The multi-level feedback scheduler as a transition system, and what holds over its runs.
    (p2b kernel/proc.c) */
module MlfqSpec {
  const NPROC := 64
  const NLAYER := 4

  /** mlpq_timeticks: dispatches in a time slice of each level. */
  function Slice(level: nat): nat {
    if level == 0 then 5 else if level == 1 then 5 else if level == 2 then 10 else 20
  }

  datatype State = UNUSED | EMBRYO | SLEEPING | RUNNABLE | RUNNING | ZOMBIE

  datatype Proc = Proc(state: State, pid: nat, level: nat, ticks: seq<nat>, chan: nat, killed: bool, parent: int) {
    predicate Ok() { level < NLAYER && |ticks| == NLAYER }

    /** Counted in ninlevel. */
    predicate Counted() { state == RUNNABLE || state == RUNNING }
  }

  /** laststate's entry for one slot. */
  datatype Last = Last(level: nat, ticks: seq<nat>)

  const NOBODY := -1

  /** The process table, laststate, the process on the CPU (NOBODY in the scheduler) and the next pid. */
  datatype Sys = Sys(procs: seq<Proc>, last: seq<Last>, curr: int, nextpid: nat, init: int)

  ghost predicate Ok(s: Sys) {
    && |s.procs| == |s.last| == NPROC && NOBODY <= s.curr < NPROC && 0 <= s.init < NPROC
    && (forall i :: 0 <= i < NPROC ==> s.procs[i].Ok() && |s.last[i].ticks| == NLAYER)
    && (forall i :: 0 <= i < NPROC ==> (s.procs[i].state == RUNNING <==> i == s.curr))
  }

  // ---------- the operations ----------

  datatype Action =
    | Fork(ok: bool)          // ok: allocproc's kalloc and copyuvm succeed
    | Exit
    | Reap                    // wait takes a zombie child
    | Yield
    | Sleep(chan: nat)
    | Wakeup(chan: nat)
    | Kill(pid: nat)
    | Dispatch(q: nat)
    | Boost                   // check_starve_and_boost

  /** The first unused slot from i on, |ps| if there is none. */
  function FirstUnused(ps: seq<Proc>, i: nat): (r: nat)
    requires i <= |ps|
    ensures i <= r <= |ps| && (r < |ps| ==> ps[r].state == UNUSED)
    ensures forall k :: i <= k < r ==> ps[k].state != UNUSED
    decreases |ps| - i
  {
    if i == |ps| || ps[i].state == UNUSED then i else FirstUnused(ps, i + 1)
  }

  function FirstZombieChild(ps: seq<Proc>, parent: int, i: nat): (r: nat)
    requires i <= |ps|
    ensures i <= r <= |ps| && (r < |ps| ==> ps[r].state == ZOMBIE && ps[r].parent == parent)
    decreases |ps| - i
  {
    if i == |ps| || (ps[i].state == ZOMBIE && ps[i].parent == parent) then i else FirstZombieChild(ps, parent, i + 1)
  }

  function FirstPid(ps: seq<Proc>, pid: nat, i: nat): (r: nat)
    requires i <= |ps|
    ensures i <= r <= |ps| && (r < |ps| ==> ps[r].pid == pid)
    decreases |ps| - i
  {
    if i == |ps| || ps[i].pid == pid then i else FirstPid(ps, pid, i + 1)
  }

  /** What allocproc stores in a slot. */
  function Allocated(p: Proc, pid: nat): Proc {
    p.(state := EMBRYO, pid := pid, level := 0, ticks := seq(NLAYER, _ => 0))
  }

  function Woken(p: Proc, chan: nat): Proc {
    if p.state == SLEEPING && p.chan == chan then p.(state := RUNNABLE) else p
  }

  /** What the scheduler does to the process it picks: one more tick at its level, and down a level
      at the end of a slice. */
  function Picked(p: Proc): Proc
    requires p.Ok()
  {
    var n := p.ticks[p.level] + 1;
    var p' := p.(state := RUNNING, ticks := p.ticks[p.level := n]);
    if n % Slice(p.level) == 0 && p.level != NLAYER - 1 then p'.(level := p.level + 1) else p'
  }

  /** The process has not moved since laststate recorded it. */
  predicate Stuck(p: Proc, l: Last)
    requires p.Ok() && |l.ticks| == NLAYER
  {
    p.level == l.level && p.ticks[p.level] == l.ticks[p.level]
  }

  function Boosted(p: Proc, l: Last): Proc
    requires p.Ok() && |l.ticks| == NLAYER
  {
    if p.state == RUNNABLE && p.level != 0 && Stuck(p, l)
    then p.(level := p.level - 1, ticks := p.ticks[p.level - 1 := Slice(p.level - 1)]) else p
  }

  /** laststate's entry after the sweep left p in the slot. */
  function Recorded(p: Proc, l: Last): Last
    requires p.Ok() && |l.ticks| == NLAYER
  {
    if p.state == RUNNABLE then Last(p.level, l.ticks[p.level := p.ticks[p.level]]) else l
  }

  /** exit hands the children of the process over to init. */
  function Reparented(p: Proc, from: int, init: int): Proc {
    if p.parent == from then p.(parent := init) else p
  }

  ghost predicate Enabled(s: Sys, a: Action)
    requires Ok(s)
  {
    match a
    case Fork(_) => s.curr != NOBODY
    case Exit => s.curr != NOBODY && s.curr != s.init
    case Reap => s.curr != NOBODY
    case Yield => s.curr != NOBODY
    case Sleep(_) => s.curr != NOBODY
    case Wakeup(_) => true
    case Kill(_) => true
    case Dispatch(q) => s.curr == NOBODY && q < NPROC && s.procs[q].state == RUNNABLE && Minimal(s.procs, q)
    case Boost => true
  }

  /** No runnable process is at a higher-priority level than q. */
  ghost predicate Minimal(ps: seq<Proc>, q: nat)
    requires q < |ps|
  {
    forall i :: 0 <= i < |ps| && ps[i].state == RUNNABLE ==> ps[q].level <= ps[i].level
  }

  /** The process table after a wakeup on chan. */
  ghost predicate AfterWakeup(ps: seq<Proc>, ps': seq<Proc>, chan: nat) {
    |ps'| == |ps| && forall i :: 0 <= i < |ps| ==> ps'[i] == Woken(ps[i], chan)
  }

  /** exit wakes those who wait for the parent (and init, if it inherits a zombie), hands on the
      children and leaves a zombie. */
  function ExitProcs(s: Sys): (r: seq<Proc>)
    requires Ok(s) && s.curr != NOBODY
    ensures |r| == NPROC
  {
    var inherits := exists i :: 0 <= i < NPROC && s.procs[i].parent == s.curr && s.procs[i].state == ZOMBIE;
    seq(NPROC, i requires 0 <= i < NPROC =>
      var p := Woken(s.procs[i], Chan(s.procs[s.curr].parent));
      var p := if inherits then Woken(p, Chan(s.init)) else p;
      var p := Reparented(p, s.curr, s.init);
      if i == s.curr then p.(state := ZOMBIE) else p)
  }

  /** wait sleeps on the address of the waiting process. */
  function Chan(slot: int): nat { if slot < 0 then 0 else slot + 1 }

  function Step(s: Sys, a: Action): Sys
    requires Ok(s) && Enabled(s, a)
  {
    match a
    case Fork(ok) =>
      var j := FirstUnused(s.procs, 0);
      if j == NPROC then s
      else
        var p := Allocated(s.procs[j], s.nextpid);
        var p := if ok then p.(state := RUNNABLE, parent := s.curr) else p.(state := UNUSED);
        s.(procs := s.procs[j := p], nextpid := s.nextpid + 1)
    case Exit => s.(procs := ExitProcs(s), curr := NOBODY)
    case Reap =>
      var j := FirstZombieChild(s.procs, s.curr, 0);
      if j == NPROC then s
      else s.(procs := s.procs[j := s.procs[j].(state := UNUSED, pid := 0, parent := NOBODY, killed := false)])
    case Yield => s.(procs := s.procs[s.curr := s.procs[s.curr].(state := RUNNABLE)], curr := NOBODY)
    case Sleep(chan) =>
      s.(procs := s.procs[s.curr := s.procs[s.curr].(state := SLEEPING, chan := chan)], curr := NOBODY)
    case Wakeup(chan) => s.(procs := seq(NPROC, i requires 0 <= i < NPROC => Woken(s.procs[i], chan)))
    case Kill(pid) =>
      var j := FirstPid(s.procs, pid, 0);
      if j == NPROC then s
      else
        var p := s.procs[j].(killed := true);
        s.(procs := s.procs[j := if p.state == SLEEPING then p.(state := RUNNABLE) else p])
    case Dispatch(q) => s.(procs := s.procs[q := Picked(s.procs[q])], curr := q)
    case Boost => s.(procs := BoostProcs(s), last := BoostLast(s))
  }

  function BoostProcs(s: Sys): (r: seq<Proc>)
    requires Ok(s)
    ensures |r| == NPROC && forall i :: 0 <= i < NPROC ==> r[i] == Boosted(s.procs[i], s.last[i])
  {
    seq(NPROC, i requires 0 <= i < NPROC => Boosted(s.procs[i], s.last[i]))
  }

  function BoostLast(s: Sys): (r: seq<Last>)
    requires Ok(s)
    ensures |r| == NPROC && forall i :: 0 <= i < NPROC ==> r[i] == Recorded(Boosted(s.procs[i], s.last[i]), s.last[i])
  {
    seq(NPROC, i requires 0 <= i < NPROC => Recorded(Boosted(s.procs[i], s.last[i]), s.last[i]))
  }

  // ---------- what every operation keeps ----------

  lemma StepOk(s: Sys, a: Action)
    requires Ok(s) && Enabled(s, a)
    ensures Ok(Step(s, a))
  {
    hide ExitProcs, Picked, BoostProcs, BoostLast;
    match a
    case Exit => ExitOk(s);
    case Boost =>
    case Dispatch(q) => PickedOk(s.procs[q]);
    case _ =>
  }

  lemma PickedOk(p: Proc)
    requires p.Ok()
    ensures Picked(p).Ok() && Picked(p).state == RUNNING
  {}

  lemma ExitOk(s: Sys)
    requires Ok(s) && s.curr != NOBODY
    ensures forall i :: 0 <= i < NPROC ==> ExitProcs(s)[i].Ok() && ExitProcs(s)[i].state != RUNNING
  {}

  // ---------- counting ----------

  function One(p: Proc, k: nat): nat { if p.Counted() && p.level == k then 1 else 0 }

  /** How many runnable or running processes are at level k. */
  function Count(ps: seq<Proc>, k: nat): nat {
    if ps == [] then 0 else Count(ps[..|ps|-1], k) + One(ps[|ps|-1], k)
  }

  lemma {:induction false} CountUpdate(ps: seq<Proc>, i: nat, p: Proc, k: nat)
    requires i < |ps|
    ensures Count(ps[i := p], k) == Count(ps, k) - One(ps[i], k) + One(p, k)
  {
    var n := |ps| - 1;
    if i == n {
      assert ps[i := p][..n] == ps[..n];
    } else {
      assert ps[i := p][..n] == ps[..n][i := p];
      CountUpdate(ps[..n], i, p, k);
    }
  }

  lemma {:induction false} CountZero(ps: seq<Proc>, k: nat)
    ensures Count(ps, k) == 0 <==> forall i :: 0 <= i < |ps| ==> One(ps[i], k) == 0
  {
    if ps != [] {
      CountZero(ps[..|ps|-1], k);
      assert forall i :: 0 <= i < |ps| - 1 ==> ps[..|ps|-1][i] == ps[i];
    }
  }

  // ---------- runs ----------

  ghost predicate Possible(s: Sys, acts: seq<Action>)
    decreases acts
  {
    Ok(s) && (acts == [] || (Enabled(s, acts[0]) && Possible(Step(s, acts[0]), acts[1..])))
  }

  ghost function Run(s: Sys, acts: seq<Action>): Sys
    requires Possible(s, acts)
    decreases acts
  {
    if acts == [] then s else Run(Step(s, acts[0]), acts[1..])
  }

  /** Process i is runnable, and so never dispatched, in every state of the run. */
  ghost predicate Starving(s: Sys, acts: seq<Action>, i: nat)
    requires Possible(s, acts) && i < NPROC
    decreases acts
  {
    s.procs[i].state == RUNNABLE && (acts == [] || Starving(Step(s, acts[0]), acts[1..], i))
  }

  function Boosts(acts: seq<Action>): nat {
    if acts == [] then 0 else (if acts[0] == Boost then 1 else 0) + Boosts(acts[1..])
  }

  /** A step during which i stays runnable moves it only if it is a sweep, and a sweep moves it up one
      level exactly when laststate shows it has not moved. */
  lemma StarvingStep(s: Sys, a: Action, i: nat)
    requires Ok(s) && Enabled(s, a) && i < NPROC
    requires s.procs[i].state == RUNNABLE && Step(s, a).procs[i].state == RUNNABLE
    ensures Ok(Step(s, a))
    ensures var p, p', l, l' := s.procs[i], Step(s, a).procs[i], s.last[i], Step(s, a).last[i];
            if a == Boost then Stuck(p', l') && p'.level == if Stuck(p, l) && p.level > 0 then p.level - 1 else p.level
            else p'.level == p.level && p'.ticks == p.ticks && l' == l
  {
    StepOk(s, a);
    hide Picked, Ok;
    if a != Boost { PlainStep(s, a, i); }
  }

  /** Only a sweep moves a process that stays runnable. */
  lemma PlainStep(s: Sys, a: Action, i: nat)
    requires Ok(s) && Enabled(s, a) && i < NPROC && a != Boost
    requires s.procs[i].state == RUNNABLE && Step(s, a).procs[i].state == RUNNABLE
    ensures var t := Step(s, a);
            && |t.procs| == |t.last| == NPROC
            && t.procs[i].level == s.procs[i].level && t.procs[i].ticks == s.procs[i].ticks && t.last[i] == s.last[i]
  {
    hide Picked, ExitProcs, FirstPid, FirstUnused, FirstZombieChild, Minimal;
    match a
    case Exit => ExitMoves(s, i);
    case Dispatch(q) => PickedRuns(s.procs[q]);
    case _ =>
  }

  lemma ExitMoves(s: Sys, i: nat)
    requires Ok(s) && s.curr != NOBODY && i < NPROC
    ensures ExitProcs(s)[i].level == s.procs[i].level && ExitProcs(s)[i].ticks == s.procs[i].ticks
  {}

  lemma PickedRuns(p: Proc)
    requires p.Ok()
    ensures Picked(p).state == RUNNING
  {}

  lemma {:induction false} TrackedRun(s: Sys, acts: seq<Action>, i: nat)
    requires Possible(s, acts) && i < NPROC && Starving(s, acts, i) && Stuck(s.procs[i], s.last[i])
    ensures Ok(Run(s, acts))
    ensures var L, k := s.procs[i].level, Boosts(acts);
            Run(s, acts).procs[i].level == if k < L then L - k else 0
    decreases acts
  {
    if acts != [] {
      StarvingStep(s, acts[0], i);
      hide Step, Enabled;
      TrackedRun(Step(s, acts[0]), acts[1..], i);
    }
  }

  /** A process that stays runnable and undispatched through k + 1 sweeps ends at level max(0, L - k),
      L being its level after the first of them, whatever else runs in between. */
  lemma AntiStarvation(s: Sys, acts: seq<Action>, i: nat)
    requires Possible(s, [Boost] + acts) && i < NPROC && Starving(s, [Boost] + acts, i)
    ensures Ok(Run(s, [Boost] + acts))
    ensures var L, k := Step(s, Boost).procs[i].level, Boosts(acts);
            Run(s, [Boost] + acts).procs[i].level == if k < L then L - k else 0
  {
    var all := [Boost] + acts;
    assert all[0] == Boost && all[1..] == acts;
    StarvingStep(s, Boost, i);
    hide Step, Enabled;
    TrackedRun(Step(s, Boost), acts, i);
  }

  // ---------- time slices ----------

  /** The action gives slot i a new process. */
  predicate Replaces(s: Sys, a: Action, i: nat)
    requires Ok(s)
  {
    a.Fork? && FirstUnused(s.procs, 0) == i
  }

  /** Dispatches of process i since it came to its present level, given there were n before the action. */
  function NextStay(s: Sys, a: Action, i: nat, n: nat): nat
    requires Ok(s) && Enabled(s, a) && i < NPROC
  {
    if Replaces(s, a, i) || Step(s, a).procs[i].level != s.procs[i].level then 0
    else if a == Dispatch(i) then n + 1 else n
  }

  ghost function Stay(s: Sys, acts: seq<Action>, i: nat, n: nat): nat
    requires Possible(s, acts) && i < NPROC
    decreases acts
  {
    if acts == [] then n else Stay(Step(s, acts[0]), acts[1..], i, NextStay(s, acts[0], i, n))
  }

  /** The present stay fits in the part of the slice already used. */
  predicate InSlice(p: Proc, n: nat)
    requires p.Ok()
  {
    p.level < NLAYER - 1 ==> n <= p.ticks[p.level] % Slice(p.level)
  }

  lemma PickedInSlice(p: Proc, n: nat)
    requires p.Ok() && InSlice(p, n) && Picked(p).level == p.level
    ensures InSlice(Picked(p), n + 1)
  {}

  lemma SliceStep(s: Sys, a: Action, i: nat, n: nat)
    requires Ok(s) && Enabled(s, a) && i < NPROC && InSlice(s.procs[i], n)
    ensures Ok(Step(s, a)) && InSlice(Step(s, a).procs[i], NextStay(s, a, i, n))
  {
    hide Step, Enabled, Picked, InSlice, Slice, Ok, Replaces;
    StepOk(s, a);
    OkAt(s, i);
    OkAt(Step(s, a), i);
    var p, p' := s.procs[i], Step(s, a).procs[i];
    if Replaces(s, a, i) || p'.level != p.level {
      NoDispatchYet(p');
    } else if a == Dispatch(i) {
      DispatchIs(s, i);
      PickedInSlice(p, n);
    } else {
      TicksStay(s, a, i);
      SameSlice(p, p', n);
    }
  }

  lemma OkAt(s: Sys, i: nat)
    requires Ok(s) && i < NPROC
    ensures |s.procs| == NPROC && s.procs[i].Ok()
  {}

  lemma NoDispatchYet(p: Proc)
    requires p.Ok()
    ensures InSlice(p, 0)
  {}

  lemma DispatchIs(s: Sys, i: nat)
    requires Ok(s) && Enabled(s, Dispatch(i)) && i < NPROC
    ensures Step(s, Dispatch(i)).procs[i] == Picked(s.procs[i])
  {}

  /** Only a dispatch or a move counts ticks. */
  lemma TicksStay(s: Sys, a: Action, i: nat)
    requires Ok(s) && Enabled(s, a) && i < NPROC && a != Dispatch(i) && !Replaces(s, a, i)
    requires Ok(Step(s, a)) && Step(s, a).procs[i].level == s.procs[i].level
    ensures Step(s, a).procs[i].ticks == s.procs[i].ticks
  {
    hide Picked, ExitProcs, BoostProcs, BoostLast, Ok, Minimal, FirstUnused, FirstZombieChild, FirstPid;
    OkAt(s, i);
    if a == Exit { ExitTicks(s, i); }
  }

  lemma ExitTicks(s: Sys, i: nat)
    requires Ok(s) && s.curr != NOBODY && i < NPROC
    ensures ExitProcs(s)[i].ticks == s.procs[i].ticks
  {}

  lemma SameSlice(p: Proc, p': Proc, n: nat)
    requires p.Ok() && InSlice(p, n) && p'.level == p.level && p'.ticks == p.ticks
    ensures InSlice(p', n)
  {}

  /** Over every run, boosts included, the dispatches of one stay at a level below the last number less
      than the level's slice, so the stay ends with at most a full slice. */
  lemma {:induction false} StayIsBounded(s: Sys, acts: seq<Action>, i: nat, n: nat)
    requires Possible(s, acts) && i < NPROC && InSlice(s.procs[i], n)
    ensures Ok(Run(s, acts)) && InSlice(Run(s, acts).procs[i], Stay(s, acts, i, n))
    ensures var p := Run(s, acts).procs[i]; p.level < NLAYER - 1 ==> Stay(s, acts, i, n) < Slice(p.level)
    decreases acts
  {
    if acts != [] {
      SliceStep(s, acts[0], i, n);
      hide Step, Enabled, NextStay, InSlice;
      StayIsBounded(Step(s, acts[0]), acts[1..], i, NextStay(s, acts[0], i, n));
    }
  }

  /** A dispatch in the last tick of the slice moves the process down. */
  lemma FullSliceDemotes(s: Sys, i: nat, n: nat)
    requires Ok(s) && Enabled(s, Dispatch(i)) && i < NPROC && InSlice(s.procs[i], n)
    requires s.procs[i].level < NLAYER - 1 && n + 1 == Slice(s.procs[i].level)
    ensures |Step(s, Dispatch(i)).procs| == NPROC && Step(s, Dispatch(i)).procs[i].level == s.procs[i].level + 1
  {
    hide Minimal;
  }

  /** The time slices of the levels. */
  lemma Slices()
    ensures Slice(0) == 5 && Slice(1) == 5 && Slice(2) == 10 && Slice(3) == 20
  {}

  /** One dispatch: a tick at the level it had, and a level down exactly if that tick completes a slice and
      there is a level below. Nothing else of the process changes, and no other process. */
  lemma DispatchEffect(s: Sys, q: nat)
    requires Ok(s) && Enabled(s, Dispatch(q)) && q < NPROC
    ensures var t := Step(s, Dispatch(q)); var p := s.procs[q];
            && t.last == s.last && t.nextpid == s.nextpid && t.init == s.init && t.curr == q
            && |t.procs| == NPROC && (forall i :: 0 <= i < NPROC && i != q ==> t.procs[i] == s.procs[i])
            && var p' := t.procs[q]; var n := p.ticks[p.level] + 1;
            && p' == p.(state := RUNNING, level := p'.level, ticks := p'.ticks) && |p'.ticks| == NLAYER
            && (forall k :: 0 <= k < NLAYER ==> p'.ticks[k] == if k == p.level then n else p.ticks[k])
            && (p.level == 0 ==> p'.level == if n % 5 == 0 then 1 else 0)
            && (p.level == 1 ==> p'.level == if n % 5 == 0 then 2 else 1)
            && (p.level == 2 ==> p'.level == if n % 10 == 0 then 3 else 2)
            && (p.level == 3 ==> p'.level == 3)
  {
    hide Minimal;
  }

  /** Process i keeps its level, and its slot is not given to another, in every step of the run. */
  ghost predicate Stays(s: Sys, acts: seq<Action>, i: nat)
    requires Possible(s, acts) && i < NPROC
    decreases acts
  {
    acts == [] || (!Replaces(s, acts[0], i) && Ok(Step(s, acts[0])) && Step(s, acts[0]).procs[i].level == s.procs[i].level
                   && Stays(Step(s, acts[0]), acts[1..], i))
  }

  function Dispatches(acts: seq<Action>, i: nat): nat {
    if acts == [] then 0 else (if acts[0] == Dispatch(i) then 1 else 0) + Dispatches(acts[1..], i)
  }

  /** How much of its present slice a process has used, at a level below the last. */
  function Used(p: Proc): nat
    requires p.Ok()
  {
    p.ticks[p.level] % Slice(p.level)
  }

  /** One step of a stay: a dispatch uses one tick of the slice and does not complete it. */
  lemma StayStep(s: Sys, a: Action, i: nat)
    requires Ok(s) && Enabled(s, a) && i < NPROC && Ok(Step(s, a)) && !Replaces(s, a, i)
    requires Step(s, a).procs[i].level == s.procs[i].level < NLAYER - 1
    ensures Used(Step(s, a).procs[i]) == Used(s.procs[i]) + if a == Dispatch(i) then 1 else 0
  {
    hide Step, Enabled, Ok, Replaces, Slice;
    OkAt(s, i);
    OkAt(Step(s, a), i);
    if a == Dispatch(i) {
      Slices();
      DispatchEffect(s, i);
      Tick(s.procs[i].ticks[s.procs[i].level], s.procs[i].level);
    } else {
      TicksStay(s, a, i);
    }
  }

  lemma Tick(c: nat, l: nat)
    ensures (c + 1) % Slice(l) == if c % Slice(l) + 1 == Slice(l) then 0 else c % Slice(l) + 1
  {
    TickOf5(c);
    TickOf10(c);
    TickOf20(c);
  }

  lemma TickOf5(c: nat)
    ensures (c + 1) % 5 == if c % 5 == 4 then 0 else c % 5 + 1
  {}

  lemma TickOf10(c: nat)
    ensures (c + 1) % 10 == if c % 10 == 9 then 0 else c % 10 + 1
  {}

  lemma TickOf20(c: nat)
    ensures (c + 1) % 20 == if c % 20 == 19 then 0 else c % 20 + 1
  {}

  /** Over a whole stay below the last level, whatever else runs: each dispatch used one tick of the slice. */
  lemma {:induction false} StayUses(s: Sys, acts: seq<Action>, i: nat)
    requires Possible(s, acts) && i < NPROC && Stays(s, acts, i) && s.procs[i].level < NLAYER - 1
    ensures Ok(Run(s, acts)) && Run(s, acts).procs[i].level == s.procs[i].level
    ensures Used(Run(s, acts).procs[i]) == Used(s.procs[i]) + Dispatches(acts, i)
    decreases acts
  {
    hide Used, Step, Enabled, Replaces;
    if acts != [] {
      StayStep(s, acts[0], i);
      StayUses(Step(s, acts[0]), acts[1..], i);
    }
  }

  /** A stay below the last level ends, if by a dispatch, at exactly the dispatch that fills the slice: the
      Slice(l)-th one if the process came with an unused slice. */
  lemma StayIsExact(s: Sys, acts: seq<Action>, i: nat)
    requires Possible(s, acts) && i < NPROC && Stays(s, acts, i) && s.procs[i].level < NLAYER - 1
    requires Ok(Run(s, acts)) && Enabled(Run(s, acts), Dispatch(i))
    ensures Ok(Step(Run(s, acts), Dispatch(i)))
    ensures var l, n := s.procs[i].level, Used(s.procs[i]) + Dispatches(acts, i) + 1;
            n <= Slice(l) && Step(Run(s, acts), Dispatch(i)).procs[i].level == if n == Slice(l) then l + 1 else l
  {
    hide Step, Enabled, Ok, Slice, Stays;
    StayUses(s, acts, i);
    var r := Run(s, acts);
    OkAt(s, i);
    OkAt(r, i);
    StepOk(r, Dispatch(i));
    Slices();
    DispatchEffect(r, i);
    Tick(r.procs[i].ticks[r.procs[i].level], r.procs[i].level);
  }

  /** No dispatch moves a process from the last level. */
  lemma LastLevelStays(s: Sys, q: nat)
    requires Ok(s) && Enabled(s, Dispatch(q)) && q < NPROC && s.procs[q].level == NLAYER - 1
    ensures Ok(Step(s, Dispatch(q))) && Step(s, Dispatch(q)).procs[q].level == NLAYER - 1
  {
    hide Minimal;
    StepOk(s, Dispatch(q));
  }

  /** A new process and a boosted one come with an unused slice. */
  lemma SliceIsUnused(s: Sys, i: nat)
    requires Ok(s) && i < NPROC
    ensures Ok(Step(s, Boost)) && (Step(s, Boost).procs[i].level != s.procs[i].level ==> Used(Step(s, Boost).procs[i]) == 0)
    ensures Enabled(s, Fork(true)) && Replaces(s, Fork(true), i) ==>
              Ok(Step(s, Fork(true))) && Step(s, Fork(true)).procs[i].level == 0 && Used(Step(s, Fork(true)).procs[i]) == 0
  {
    StepOk(s, Boost);
    if Enabled(s, Fork(true)) { StepOk(s, Fork(true)); }
  }

  // ---------- every step, field by field ----------

  /** Everything but the table is as before. */
  ghost predicate OnlyTable(s: Sys, t: Sys, curr: int) {
    t.last == s.last && t.nextpid == s.nextpid && t.init == s.init && t.curr == curr && |t.procs| == |s.procs|
  }

  /** fork takes the first unused slot: a new pid, level 0, no ticks; runnable with the caller as parent, or
      unused again if it failed. */
  lemma ForkEffect(s: Sys, ok: bool, j: nat)
    requires Ok(s) && Enabled(s, Fork(ok)) && j <= NPROC
    requires (forall i :: 0 <= i < j ==> s.procs[i].state != UNUSED) && (j < NPROC ==> s.procs[j].state == UNUSED)
    ensures j == NPROC ==> Step(s, Fork(ok)) == s
    ensures j < NPROC ==>
              var t, p := Step(s, Fork(ok)), s.procs[j];
              && t == s.(procs := t.procs, nextpid := s.nextpid + 1) && |t.procs| == NPROC
              && (forall i :: 0 <= i < NPROC && i != j ==> t.procs[i] == s.procs[i])
              && var q := t.procs[j];
              && q.pid == s.nextpid && q.level == 0 && |q.ticks| == NLAYER && (forall k :: 0 <= k < NLAYER ==> q.ticks[k] == 0)
              && q.state == (if ok then RUNNABLE else UNUSED) && q.parent == (if ok then s.curr else p.parent)
              && q.chan == p.chan && q.killed == p.killed
  {
    assert FirstUnused(s.procs, 0) == j;
  }

  /** exit wakes those who sleep for the parent, and for init if a zombie child is left behind; gives the
      children to init; and leaves a zombie. */
  lemma ExitEffect(s: Sys)
    requires Ok(s) && Enabled(s, Exit)
    ensures var t, c := Step(s, Exit), s.curr;
            && OnlyTable(s, t, NOBODY)
            && var orphaned := exists k :: 0 <= k < NPROC && s.procs[k].parent == c && s.procs[k].state == ZOMBIE;
            forall i :: 0 <= i < NPROC ==>
              var p := s.procs[i];
              var wakes := p.state == SLEEPING && (p.chan == Chan(s.procs[c].parent) || (orphaned && p.chan == Chan(s.init)));
              t.procs[i] == p.(state := if i == c then ZOMBIE else if wakes then RUNNABLE else p.state,
                               parent := if p.parent == c then s.init else p.parent)
  {}

  /** Slots have channels of their own. */
  lemma ChannelsDiffer(i: int, j: int)
    requires 0 <= i && 0 <= j && i != j
    ensures Chan(i) != Chan(j) && Chan(i) != Chan(NOBODY) && Chan(NOBODY) == 0
  {}

  /** wait frees the first zombie child it meets. */
  lemma ReapEffect(s: Sys)
    requires Ok(s) && Enabled(s, Reap)
    ensures var t, j := Step(s, Reap), FirstZombieChild(s.procs, s.curr, 0);
            && OnlyTable(s, t, s.curr) && (forall i :: 0 <= i < NPROC && i != j ==> t.procs[i] == s.procs[i])
            && (j == NPROC <==> forall i :: 0 <= i < NPROC && s.procs[i].parent == s.curr ==> s.procs[i].state != ZOMBIE)
            && (j < NPROC ==>
                  && s.procs[j].parent == s.curr && s.procs[j].state == ZOMBIE
                  && (forall i :: 0 <= i < j && s.procs[i].parent == s.curr ==> s.procs[i].state != ZOMBIE)
                  && t.procs[j] == s.procs[j].(state := UNUSED, pid := 0, parent := NOBODY, killed := false))
  {
    FirstIsFirst(s.procs, s.curr, 0);
  }

  lemma {:induction false} FirstIsFirst(ps: seq<Proc>, parent: int, i: nat)
    requires i <= |ps|
    ensures forall k :: i <= k < FirstZombieChild(ps, parent, i) && ps[k].parent == parent ==> ps[k].state != ZOMBIE
    decreases |ps| - i
  {
    if i < |ps| { FirstIsFirst(ps, parent, i + 1); }
  }

  /** yield and sleep change the process on the CPU and take it off. */
  lemma YieldEffect(s: Sys, chan: nat)
    requires Ok(s) && s.curr != NOBODY
    ensures OnlyTable(s, Step(s, Yield), NOBODY) && OnlyTable(s, Step(s, Sleep(chan)), NOBODY)
    ensures forall i :: 0 <= i < NPROC && i != s.curr ==>
              Step(s, Yield).procs[i] == s.procs[i] && Step(s, Sleep(chan)).procs[i] == s.procs[i]
    ensures var p := s.procs[s.curr];
            && Step(s, Yield).procs[s.curr] == p.(state := RUNNABLE)
            && Step(s, Sleep(chan)).procs[s.curr] == p.(state := SLEEPING, chan := chan)
  {}

  lemma WakeupEffect(s: Sys, chan: nat)
    requires Ok(s)
    ensures var t := Step(s, Wakeup(chan));
            && OnlyTable(s, t, s.curr)
            && forall i :: 0 <= i < NPROC ==>
                 t.procs[i] == if s.procs[i].state == SLEEPING && s.procs[i].chan == chan then s.procs[i].(state := RUNNABLE)
                               else s.procs[i]
  {}

  /** kill marks the first slot with the pid, and wakes it if it sleeps. */
  lemma KillEffect(s: Sys, pid: nat, j: nat)
    requires Ok(s) && j <= NPROC && (forall i :: 0 <= i < j ==> s.procs[i].pid != pid) && (j < NPROC ==> s.procs[j].pid == pid)
    ensures var t := Step(s, Kill(pid));
            && OnlyTable(s, t, s.curr) && (forall i :: 0 <= i < NPROC && i != j ==> t.procs[i] == s.procs[i])
            && (j < NPROC ==>
                  t.procs[j] == s.procs[j].(killed := true, state := if s.procs[j].state == SLEEPING then RUNNABLE else s.procs[j].state))
  {
    FirstPidIs(s.procs, pid, 0, j);
  }

  lemma {:induction false} FirstPidIs(ps: seq<Proc>, pid: nat, i: nat, j: nat)
    requires i <= j <= |ps| && (forall k :: i <= k < j ==> ps[k].pid != pid) && (j < |ps| ==> ps[j].pid == pid)
    ensures FirstPid(ps, pid, i) == j
    decreases |ps| - i
  {
    if i < j { FirstPidIs(ps, pid, i + 1, j); }
  }

  /** The sweep: a runnable process above level 0 that has the level and the ticks that were recorded moves up
      a level, to a full slice there; every runnable process is recorded as it then is. */
  lemma BoostEffect(s: Sys, i: nat)
    requires Ok(s) && i < NPROC
    ensures var t := Step(s, Boost); var p, l := s.procs[i], s.last[i];
            var stuck := p.state == RUNNABLE && p.level > 0 && l.level == p.level && l.ticks[p.level] == p.ticks[p.level];
            && t == s.(procs := t.procs, last := t.last) && |t.procs| == |t.last| == NPROC
            && var q, m := t.procs[i], t.last[i];
            && |q.ticks| == |m.ticks| == NLAYER && q == p.(level := q.level, ticks := q.ticks)
            && q.level == (if stuck then p.level - 1 else p.level)
            && (forall k :: 0 <= k < NLAYER ==>
                  q.ticks[k] == if stuck && k == q.level then [5, 5, 10][k] else p.ticks[k])
            && m.level == (if p.state == RUNNABLE then q.level else l.level)
            && (forall k :: 0 <= k < NLAYER ==>
                  m.ticks[k] == if p.state == RUNNABLE && k == q.level then q.ticks[k] else l.ticks[k])
  {}
}
