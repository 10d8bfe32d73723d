/** The process table of proc.c: fork, exit, wait, sleep, wakeup and kill as steps under ptable.lock. */
module Process {
  import opened Blocks

  datatype ProcState = UNUSED | EMBRYO | SLEEPING | RUNNABLE | RUNNING | ZOMBIE

  /** What a process can sleep on: a process (only wait() does that, on the caller itself) or any other
      kernel object. */
  datatype Chan = NoChan | ProcChan(p: nat) | OtherChan(id: nat)

  datatype Proc = Proc(state: ProcState, parent: Option<nat>, chan: Chan, killed: bool, pid: nat) {
    predicate Alive() { state.SLEEPING? || state.RUNNABLE? || state.RUNNING? }

    /** Past EMBRYO. */
    predicate Exists() { Alive() || state.ZOMBIE? }
  }

  type Table = seq<Proc>

  // ---------- table operations ----------

  function WakeOne(p: Proc, chan: Chan): Proc {
    if p.state.SLEEPING? && p.chan == chan then p.(state := RUNNABLE) else p
  }

  /** wakeup1 */
  function Wake(t: Table, chan: Chan): (r: Table)
    ensures |r| == |t| && forall i :: 0 <= i < |t| ==> r[i] == WakeOne(t[i], chan)
  {
    seq(|t|, i requires 0 <= i < |t| => WakeOne(t[i], chan))
  }

  function AdoptOne(p: Proc, cur: nat, init: nat): Proc {
    if p.parent == Some(cur) then p.(parent := Some(init)) else p
  }

  /** The first n entries have had their parent cur replaced by init. */
  function Adopt(t: Table, cur: nat, init: nat, n: nat): (r: Table)
    ensures |r| == |t|
    ensures forall i :: 0 <= i < |t| ==> r[i] == if i < n then AdoptOne(t[i], cur, init) else t[i]
  {
    seq(|t|, i requires 0 <= i < |t| => if i < n then AdoptOne(t[i], cur, init) else t[i])
  }

  predicate ZombieChild(t: Table, cur: nat, n: nat) {
    exists i :: 0 <= i < n && i < |t| && t[i].parent == Some(cur) && t[i].state.ZOMBIE?
  }

  /** The table when exit's loop has passed the first n entries. */
  function Abandon(t: Table, cur: nat, init: nat, n: nat): (r: Table)
    ensures |r| == |t|
  {
    var a := Adopt(t, cur, init, n);
    if ZombieChild(t, cur, n) then Wake(a, ProcChan(init)) else a
  }

  /** wakeup1(curproc->parent); a null parent wakes nobody. */
  function WakeParent(t: Table, cur: nat): (r: Table)
    requires cur < |t|
    ensures |r| == |t|
  {
    if t[cur].parent.Some? then Wake(t, ProcChan(t[cur].parent.value)) else t
  }

  /** exit, from acquiring ptable.lock to entering the scheduler. */
  function Exited(t: Table, cur: nat, init: nat): (r: Table)
    requires cur < |t|
    ensures |r| == |t|
  {
    var u := Abandon(WakeParent(t, cur), cur, init, |t|);
    u[cur := u[cur].(state := ZOMBIE)]
  }

  /** What one pass of wait() over the table decides. */
  datatype WaitResult = Reaped(child: nat, pid: nat) | NoChildren | MustSleep

  predicate HasChild(t: Table, cur: nat) {
    exists i :: 0 <= i < |t| && t[i].parent == Some(cur)
  }

  predicate IsReaped(t: Table, cur: nat, c: nat) {
    && c < |t| && t[c].parent == Some(cur) && t[c].state.ZOMBIE?
    && forall i :: 0 <= i < c ==> !(t[i].parent == Some(cur) && t[i].state.ZOMBIE?)
  }

  /** The entry wait() gives back. */
  function Cleared(p: Proc): Proc {
    Proc(UNUSED, None, p.chan, false, 0)
  }

  /** kill(pid) stops at entry p. */
  predicate Hits(t: Table, pid: nat, p: nat) {
    p < |t| && t[p].pid == pid && forall i :: 0 <= i < p ==> t[i].pid != pid
  }

  function KilledOne(p: Proc): Proc {
    p.(killed := true, state := if p.state == SLEEPING then RUNNABLE else p.state)
  }

  /** Somebody asleep on chan is woken when cur exits: its parent in wait(), or init if a zombie is passed to it. */
  predicate WokenByExit(t: Table, cur: nat, init: nat, chan: Chan)
    requires cur < |t|
  {
    chan.ProcChan? && (t[cur].parent == Some(chan.p) || (chan.p == init && ZombieChild(t, cur, |t|)))
  }

  /** What exit does to each entry. */
  lemma {:induction false} ExitedExact(t: Table, cur: nat, init: nat, i: nat)
    requires cur < |t| && i < |t|
    ensures var e, e' := t[i], Exited(t, cur, init)[i];
            && e'.chan == e.chan && e'.killed == e.killed && e'.pid == e.pid
            && e'.parent == (if e.parent == Some(cur) then Some(init) else e.parent)
            && e'.state == (if i == cur then ZOMBIE
                            else if e.state == SLEEPING && WokenByExit(t, cur, init, e.chan) then RUNNABLE else e.state)
  {
    var t1 := WakeParent(t, cur);
    assert ZombieChild(t1, cur, |t1|) <==> ZombieChild(t, cur, |t|) by {
      assert forall j :: 0 <= j < |t1| ==>
                 t1[j].parent == t[j].parent && (t1[j].state.ZOMBIE? <==> t[j].state.ZOMBIE?);
    }
  }

  // ---------- the code ----------

  class Ptable {
    const proc: array<Proc>
    const initproc: nat

    constructor (t: Table, init: nat)
      ensures proc[..] == t && initproc == init && fresh(proc)
    {
      proc := new Proc[|t|](i requires 0 <= i < |t| => t[i]);
      initproc := init;
    }

    method Wakeup1(chan: Chan)
      modifies proc
      ensures proc[..] == Wake(old(proc[..]), chan)
      ensures forall i :: 0 <= i < proc.Length ==>
                  && proc[i].parent == old(proc[i]).parent && proc[i].chan == old(proc[i]).chan
                  && proc[i].killed == old(proc[i]).killed && proc[i].pid == old(proc[i]).pid
                  && proc[i].state == if old(proc[i]).state == SLEEPING && old(proc[i]).chan == chan then RUNNABLE
                                      else old(proc[i]).state
    {
      var i := 0;
      while i < proc.Length
        invariant 0 <= i <= proc.Length
        invariant forall k :: 0 <= k < i ==> proc[k] == WakeOne(old(proc[k]), chan)
        invariant forall k :: i <= k < proc.Length ==> proc[k] == old(proc[k])
      {
        if proc[i].state == SLEEPING && proc[i].chan == chan {
          proc[i] := proc[i].(state := RUNNABLE);
        }
        i := i + 1;
      }
    }

    /** The reparenting loop of exit. */
    method PassToInit(cur: nat)
      modifies proc
      ensures proc[..] == Abandon(old(proc[..]), cur, initproc, proc.Length)
    {
      ghost var t := proc[..];
      var i := 0;
      assert Adopt(t, cur, initproc, 0) == t;
      while i < proc.Length
        invariant 0 <= i <= proc.Length && proc[..] == Abandon(t, cur, initproc, i)
      {
        AbandonStep(t, cur, initproc, i);
        if proc[i].parent == Some(cur) {
          proc[i] := proc[i].(parent := Some(initproc));
          if proc[i].state == ZOMBIE {
            Wakeup1(ProcChan(initproc));
          }
        }
        i := i + 1;
      }
    }

    /** exit, from acquiring ptable.lock to entering the scheduler. */
    method Exit(cur: nat)
      requires cur < proc.Length
      modifies proc
      ensures proc[..] == Exited(old(proc[..]), cur, initproc)
      ensures forall i :: 0 <= i < proc.Length ==>
                  && proc[i].chan == old(proc[i]).chan && proc[i].killed == old(proc[i]).killed
                  && proc[i].pid == old(proc[i]).pid
                  && proc[i].parent ==
                     (if old(proc[i]).parent == Some(cur) then Some(initproc) else old(proc[i]).parent)
                  && proc[i].state == (if i == cur then ZOMBIE
                                       else if old(proc[i]).state == SLEEPING
                                               && WokenByExit(old(proc[..]), cur, initproc, old(proc[i]).chan)
                                       then RUNNABLE else old(proc[i]).state)
    {
      ghost var t := proc[..];
      if proc[cur].parent.Some? {
        Wakeup1(ProcChan(proc[cur].parent.value));
      }
      PassToInit(cur);
      proc[cur] := proc[cur].(state := ZOMBIE);
      forall i | 0 <= i < proc.Length ensures proc[i] == Exited(t, cur, initproc)[i] {
        ExitedExact(t, cur, initproc, i);
      }
    }

    /** kill: 0, or -1 if no entry has the pid. */
    method Kill(pid: nat) returns (r: int, ghost hit: nat)
      modifies proc
      ensures r == 0 || r == -1
      ensures r == 0 <==> exists i :: 0 <= i < proc.Length && old(proc[i].pid) == pid
      ensures r == -1 ==> proc[..] == old(proc[..])
      ensures r == 0 ==>
                && Hits(old(proc[..]), pid, hit) && proc[..] == old(proc[..])[hit := KilledOne(old(proc[..])[hit])]
                && proc[hit].killed && proc[hit].pid == pid && proc[hit].parent == old(proc[..])[hit].parent
                && proc[hit].state != SLEEPING
                && proc[hit].state ==
                   if old(proc[..])[hit].state == SLEEPING then RUNNABLE else old(proc[..])[hit].state
    {
      ghost var t := proc[..];
      hit := 0;
      var p := 0;
      while p < proc.Length
        invariant 0 <= p <= proc.Length && proc[..] == t
        invariant forall i :: 0 <= i < p ==> t[i].pid != pid
      {
        if proc[p].pid == pid {
          assert t[p].pid == pid;
          proc[p] := proc[p].(killed := true);
          if proc[p].state == SLEEPING {
            proc[p] := proc[p].(state := RUNNABLE);
          }
          return 0, p;
        }
        p := p + 1;
      }
      return -1, hit;
    }

    /** One pass of wait(): reap the first zombie child, give up, or go to sleep. */
    method WaitPass(cur: nat) returns (r: WaitResult)
      requires cur < proc.Length
      modifies proc
      ensures r.Reaped? <==> ZombieChild(old(proc[..]), cur, proc.Length)
      ensures r.Reaped? ==> IsReaped(old(proc[..]), cur, r.child)
                            && proc[..] == old(proc[..])[r.child := Cleared(old(proc[..])[r.child])]
                            && r.pid == old(proc[..])[r.child].pid && proc[r.child].state == UNUSED
                            && proc[r.child].parent == None && proc[r.child].pid == 0 && !proc[r.child].killed
      ensures r.NoChildren? ==> proc[..] == old(proc[..]) && (!HasChild(proc[..], cur) || proc[cur].killed)
      ensures r.MustSleep? ==> HasChild(old(proc[..]), cur) && !old(proc[cur].killed)
                               && proc[..] ==
                                  old(proc[..])[cur := old(proc[cur]).(chan := ProcChan(cur), state := SLEEPING)]
    {
      ghost var t := proc[..];
      var havekids := false;
      var p := 0;
      while p < proc.Length
        invariant 0 <= p <= proc.Length && proc[..] == t
        invariant havekids <==> exists i :: 0 <= i < p && t[i].parent == Some(cur)
        invariant forall i :: 0 <= i < p ==> !(t[i].parent == Some(cur) && t[i].state.ZOMBIE?)
      {
        if proc[p].parent == Some(cur) {
          havekids := true;
          if proc[p].state == ZOMBIE {
            var pid := proc[p].pid;
            proc[p] := proc[p].(pid := 0, parent := None, killed := false, state := UNUSED);
            assert t[p].parent == Some(cur) && t[p].state.ZOMBIE?;
            return Reaped(p, pid);
          }
        }
        p := p + 1;
      }
      if !havekids || proc[cur].killed {
        return NoChildren;
      }
      proc[cur] := proc[cur].(chan := ProcChan(cur), state := SLEEPING);
      return MustSleep;
    }
  }

  /** One iteration of that loop, on tables. */
  lemma {:induction false} AbandonStep(t: Table, cur: nat, init: nat, i: nat)
    requires i < |t|
    ensures var u := Abandon(t, cur, init, i);
            && u[i].parent == t[i].parent && (u[i].state.ZOMBIE? <==> t[i].state.ZOMBIE?)
            && (t[i].parent != Some(cur) ==> Abandon(t, cur, init, i + 1) == u)
            && (t[i].parent == Some(cur) ==>
                  var v := u[i := u[i].(parent := Some(init))];
                  Abandon(t, cur, init, i + 1) == if t[i].state.ZOMBIE? then Wake(v, ProcChan(init)) else v)
  {
    var u := Abandon(t, cur, init, i);
    assert ZombieChild(t, cur, i + 1) <==> ZombieChild(t, cur, i) || (t[i].parent == Some(cur) && t[i].state.ZOMBIE?);
  }

  // ---------- all interleavings ----------

  /** The table, which process is init, the next pid, and for each EMBRYO the process that is building it in fork().
      A process in fork() does nothing else until the fork is done. */
  datatype State = State(t: Table, init: nat, nextpid: nat, maker: map<nat, nat>)

  datatype Step =
    | Alloc(p: nat, cur: nat)             // allocproc, called by fork in cur
    | AllocFails(p: nat)                  // fork gives up: kalloc, copyuvm or copy_maps failed
    | SetParent(p: nat)                   // np->parent = curproc
    | Start(p: nat)                       // np->state = RUNNABLE
    | Schedule(p: nat)
    | Yield(p: nat)
    | Sleep(p: nat, id: nat)              // sleep on some kernel object
    | Wakeup(id: nat)
    | Kill(pid: nat, p: nat)              // kill(pid) has found its pid at p
    | ExitStep(p: nat)
    | WaitReap(p: nat, child: nat)
    | WaitSleep(p: nat)

  predicate Forking(s: State, p: nat) {
    exists e :: e in s.maker && s.maker[e] == p
  }

  ghost predicate Enabled(s: State, a: Step) {
    var t := s.t;
    match a
    case Alloc(p, cur) => p < |t| && cur < |t| && t[p].state == UNUSED && t[cur].state == RUNNING && !Forking(s, cur)
    case AllocFails(p) => p < |t| && p in s.maker && t[p].parent == None
    case SetParent(p) => p < |t| && p in s.maker && t[p].parent == None
    case Start(p) => p < |t| && p in s.maker && t[p].parent == Some(s.maker[p])
    case Schedule(p) => p < |t| && t[p].state == RUNNABLE
    case Yield(p) => p < |t| && t[p].state == RUNNING
    case Sleep(p, _) => p < |t| && t[p].state == RUNNING
    case Wakeup(_) => true
    case Kill(pid, p) => Hits(t, pid, p)
    case ExitStep(p) => p < |t| && t[p].state == RUNNING && p != s.init && !Forking(s, p)
    case WaitReap(p, c) => p < |t| && t[p].state == RUNNING && !Forking(s, p) && IsReaped(t, p, c)
    case WaitSleep(p) =>
      && p < |t| && t[p].state == RUNNING && !Forking(s, p)
      && !ZombieChild(t, p, |t|) && HasChild(t, p) && !t[p].killed
  }

  ghost function Next(s: State, a: Step): State
    requires Enabled(s, a)
  {
    var t := s.t;
    match a
    case Alloc(p, cur) =>
      s.(t := t[p := t[p].(state := EMBRYO, pid := s.nextpid)], nextpid := s.nextpid + 1, maker := s.maker[p := cur])
    case AllocFails(p) => s.(t := t[p := t[p].(state := UNUSED)], maker := s.maker - {p})
    case SetParent(p) => s.(t := t[p := t[p].(parent := Some(s.maker[p]))])
    case Start(p) => s.(t := t[p := t[p].(state := RUNNABLE)], maker := s.maker - {p})
    case Schedule(p) => s.(t := t[p := t[p].(state := RUNNING)])
    case Yield(p) => s.(t := t[p := t[p].(state := RUNNABLE)])
    case Sleep(p, id) => s.(t := t[p := t[p].(state := SLEEPING, chan := OtherChan(id))])
    case Wakeup(id) => s.(t := Wake(t, OtherChan(id)))
    case Kill(_, p) => s.(t := t[p := KilledOne(t[p])])
    case ExitStep(p) => s.(t := Exited(t, p, s.init))
    case WaitReap(p, c) => s.(t := t[c := Cleared(t[c])])
    case WaitSleep(p) => s.(t := t[p := t[p].(chan := ProcChan(p), state := SLEEPING)])
  }

  predicate Waiting(t: Table, p: nat)
    requires p < |t|
  {
    t[p].state == SLEEPING && t[p].chan == ProcChan(p)
  }

  /** Entry p is in order: an existing process other than init has a live parent, an embryo has a live
      maker, and an unused entry has no parent. */
  ghost predicate EntryOk(s: State, p: nat)
    requires p < |s.t|
  {
    var e := s.t[p];
    && (e.state == UNUSED ==> e.parent == None)
    && (e.state == EMBRYO <==> p in s.maker)
    && e.parent != Some(p)
    && (p in s.maker ==>
           s.maker[p] != p && s.maker[p] < |s.t| && s.t[s.maker[p]].Alive()
           && (e.parent == None || e.parent == Some(s.maker[p])))
    && (e.Exists() && p != s.init ==> e.parent.Some? && e.parent.value < |s.t| && s.t[e.parent.value].Alive())
    && (e.parent.Some? ==> p != s.init)
  }

  /** No process asleep in wait() has a zombie child. */
  ghost predicate NoLostExit(s: State) {
    forall p, c :: 0 <= p < |s.t| && 0 <= c < |s.t| && Waiting(s.t, p) && s.t[c].parent == Some(p) ==>
        s.t[c].state != ZOMBIE
  }

  ghost predicate Inv(s: State) {
    && s.init < |s.t| && s.t[s.init].Alive()
    && (forall e :: e in s.maker ==> e < |s.t|)
    && (forall p :: 0 <= p < |s.t| ==> EntryOk(s, p))
    && NoLostExit(s)
  }

  lemma {:induction false} ExitKeepsInv(s: State, cur: nat)
    requires Inv(s) && Enabled(s, ExitStep(cur))
    ensures Inv(Next(s, ExitStep(cur)))
  {
    var s' := Next(s, ExitStep(cur));
    ExitEntry(s, cur, s.init);
    forall p | 0 <= p < |s.t| ensures EntryOk(s', p) {
      ExitEntry(s, cur, p);
      assert EntryOk(s, p);
      if p in s.maker { ExitEntry(s, cur, s.maker[p]); assert s.maker[p] != cur; }
      if s.t[p].parent.Some? && s.t[p].parent.value < |s.t| { ExitEntry(s, cur, s.t[p].parent.value); }
    }
    forall c | 0 <= c < |s.t| && s.t[c].parent == Some(cur) && s.t[c].state == ZOMBIE
      ensures ZombieChild(s.t, cur, |s.t|)
    {
    }
    forall p, c | 0 <= p < |s.t| && 0 <= c < |s.t| && Waiting(s'.t, p) && s'.t[c].parent == Some(p)
      ensures s'.t[c].state != ZOMBIE
    {
      ExitEntry(s, cur, p);
      ExitEntry(s, cur, c);
      assert EntryOk(s, c) && Waiting(s.t, p);
    }
  }

  /** What exit does to each entry of the table. */
  lemma {:induction false} ExitEntry(s: State, cur: nat, p: nat)
    requires Inv(s) && Enabled(s, ExitStep(cur)) && p < |s.t|
    ensures var e, e' := s.t[p], Next(s, ExitStep(cur)).t[p];
            && e'.parent == (if e.parent == Some(cur) then Some(s.init) else e.parent)
            && e'.chan == e.chan
            && (if p == cur then e'.state == ZOMBIE
                else e'.state == e.state || (e.state == SLEEPING && e'.state == RUNNABLE))
            && (p != cur && Waiting(s.t, p)
                && (s.t[cur].parent == Some(p) || (p == s.init && ZombieChild(s.t, cur, |s.t|)))
                ==> e'.state == RUNNABLE)
  {
    assert EntryOk(s, cur);
    ExitedExact(s.t, cur, s.init, p);
  }

  lemma {:induction false} ReapKeepsInv(s: State, p: nat, c: nat)
    requires Inv(s) && Enabled(s, WaitReap(p, c))
    ensures Inv(Next(s, WaitReap(p, c)))
  {
    var s' := Next(s, WaitReap(p, c));
    forall q | 0 <= q < |s.t| ensures EntryOk(s', q) {
      assert EntryOk(s, q) && EntryOk(s, c);
    }
  }

  /** The steps that change one entry's state and keep it existing, or keep it not existing. */
  lemma {:induction false} LocalKeepsInv(s: State, a: Step)
    requires Inv(s) && Enabled(s, a)
    requires a.Schedule? || a.Yield? || a.Sleep? || a.Kill? || a.WaitSleep?
    ensures Inv(Next(s, a))
  {
    var s' := Next(s, a);
    forall q | 0 <= q < |s.t| ensures EntryOk(s', q) {
      assert EntryOk(s, q);
    }
    forall p, c | 0 <= p < |s.t| && 0 <= c < |s.t| && Waiting(s'.t, p) && s'.t[c].parent == Some(p)
      ensures s'.t[c].state != ZOMBIE
    {
      assert (a.WaitSleep? && p == a.p) || Waiting(s.t, p);
    }
  }

  lemma {:induction false} ForkKeepsInv(s: State, a: Step)
    requires Inv(s) && Enabled(s, a)
    requires a.Alloc? || a.AllocFails? || a.SetParent? || a.Start?
    ensures Inv(Next(s, a))
  {
    var s' := Next(s, a);
    assert EntryOk(s, a.p);
    forall q | 0 <= q < |s.t| ensures EntryOk(s', q) {
      assert EntryOk(s, q);
    }
  }

  lemma {:induction false} WakeKeepsInv(s: State, id: nat)
    requires Inv(s)
    ensures Inv(Next(s, Wakeup(id)))
  {
    var s' := Next(s, Wakeup(id));
    forall q | 0 <= q < |s.t| ensures EntryOk(s', q) {
      assert EntryOk(s, q);
    }
  }

  lemma {:induction false} StepKeepsInv(s: State, a: Step)
    requires Inv(s) && Enabled(s, a)
    ensures Inv(Next(s, a))
  {
    match a
    case ExitStep(p) => ExitKeepsInv(s, p);
    case WaitReap(p, c) => ReapKeepsInv(s, p, c);
    case Wakeup(id) => WakeKeepsInv(s, id);
    case Alloc(_, _) => ForkKeepsInv(s, a);
    case AllocFails(_) => ForkKeepsInv(s, a);
    case SetParent(_) => ForkKeepsInv(s, a);
    case Start(_) => ForkKeepsInv(s, a);
    case _ => LocalKeepsInv(s, a);
  }

  /** userinit: init is runnable with pid 1 and everything else is zero. */
  ghost predicate Boot(s: State) {
    && s.init < |s.t| && s.nextpid == 2 && s.maker == map[]
    && s.t[s.init].state == RUNNABLE && s.t[s.init].parent == None && s.t[s.init].pid == 1 && !s.t[s.init].killed
    && forall p :: 0 <= p < |s.t| && p != s.init ==>
           s.t[p].state == UNUSED && s.t[p].parent == None && s.t[p].pid == 0 && !s.t[p].killed
  }

  /** The states of a run from boot, under any scheduling. */
  ghost predicate Run(ss: seq<State>, steps: seq<Step>) {
    && |ss| == |steps| + 1 && Boot(ss[0])
    && forall k :: 0 <= k < |steps| ==> Enabled(ss[k], steps[k]) && ss[k + 1] == Next(ss[k], steps[k])
  }

  // ---------- asleep in wait() ----------

  /** A process asleep in wait() has something to wait for, and has not been killed. */
  ghost predicate WaitOk(s: State) {
    forall p :: 0 <= p < |s.t| && Waiting(s.t, p) ==> !s.t[p].killed && HasChild(s.t, p)
  }

  lemma {:induction false} WaitEntry(s: State, a: Step, p: nat)
    requires Inv(s) && WaitOk(s) && Enabled(s, a) && p < |s.t| && Waiting(Next(s, a).t, p) && a != WaitSleep(p)
    ensures Waiting(s.t, p) && Next(s, a).t[p].killed == s.t[p].killed
  {
    if a.ExitStep? {
      ExitedExact(s.t, a.p, s.init, p);
    }
  }

  lemma {:induction false} ChildKept(s: State, a: Step, p: nat, c: nat)
    requires Inv(s) && Enabled(s, a) && p < |s.t| && c < |s.t| && s.t[c].parent == Some(p) && Waiting(Next(s, a).t, p)
    requires Waiting(s.t, p) || a == WaitSleep(p)
    ensures Next(s, a).t[c].parent == Some(p)
  {
    assert EntryOk(s, c);
    if a.ExitStep? {
      ExitedExact(s.t, a.p, s.init, p);
      ExitedExact(s.t, a.p, s.init, c);
    }
  }

  lemma {:induction false} StepKeepsWaitOk(s: State, a: Step)
    requires Inv(s) && WaitOk(s) && Enabled(s, a)
    ensures WaitOk(Next(s, a))
  {
    var s' := Next(s, a);
    forall p | 0 <= p < |s'.t| && Waiting(s'.t, p) ensures !s'.t[p].killed && HasChild(s'.t, p) {
      if a != WaitSleep(p) {
        WaitEntry(s, a, p);
      }
      var c :| 0 <= c < |s.t| && s.t[c].parent == Some(p);
      ChildKept(s, a, p, c);
    }
  }

  // ---------- process numbers ----------

  /** No two entries have the same nonzero pid, and every process has one. */
  ghost predicate PidsOk(s: State) {
    && s.nextpid > 0
    && (forall p :: 0 <= p < |s.t| ==> s.t[p].pid < s.nextpid && (s.t[p].state != UNUSED ==> s.t[p].pid > 0))
    && (forall p, q :: 0 <= p < q < |s.t| ==> s.t[p].pid != s.t[q].pid || s.t[p].pid == 0)
  }

  lemma {:induction false} StepKeepsPidsOk(s: State, a: Step)
    requires Inv(s) && PidsOk(s) && Enabled(s, a)
    ensures PidsOk(Next(s, a))
  {
    var s' := Next(s, a);
    forall p | 0 <= p < |s.t|
      ensures if a.Alloc? && a.p == p then s'.t[p].pid == s.nextpid else s'.t[p].pid == s.t[p].pid || s'.t[p].pid == 0
      ensures s'.t[p].state == UNUSED || s'.t[p].pid > 0
    {
      assert EntryOk(s, p);
      if a.ExitStep? {
        ExitedExact(s.t, a.p, s.init, p);
      }
    }
  }

  // ---------- over every run ----------

  lemma {:induction false} BootOk(s: State)
    requires Boot(s)
    ensures Inv(s) && WaitOk(s) && PidsOk(s)
  {
    forall q | 0 <= q < |s.t| ensures EntryOk(s, q) {}
  }

  lemma {:induction false} RunInv(ss: seq<State>, steps: seq<Step>, k: nat)
    requires Run(ss, steps) && k <= |steps|
    ensures Inv(ss[k]) && WaitOk(ss[k]) && PidsOk(ss[k])
  {
    if k == 0 {
      BootOk(ss[0]);
    } else {
      var j := k - 1;
      RunInv(ss, steps, j);
      assert Enabled(ss[j], steps[j]) && ss[j + 1] == Next(ss[j], steps[j]);
      StepKeepsInv(ss[j], steps[j]);
      StepKeepsWaitOk(ss[j], steps[j]);
      StepKeepsPidsOk(ss[j], steps[j]);
    }
  }

  /** Whenever ptable.lock is free: init is alive; every process past EMBRYO other than init has a parent that is
      neither
      unused nor a zombie; and a process asleep in wait() has a child, none that is a zombie, and is not killed. */
  lemma {:induction false} FamilySafe(ss: seq<State>, steps: seq<Step>, k: nat, p: nat)
    requires Run(ss, steps) && k <= |steps| && p < |ss[k].t|
    ensures var s := ss[k];
            && s.init < |s.t| && s.t[s.init].Alive()
            && (s.t[p].Exists() && p != s.init ==>
                  s.t[p].parent.Some? && s.t[p].parent.value < |s.t|
                  && s.t[s.t[p].parent.value].state != UNUSED && s.t[s.t[p].parent.value].state != ZOMBIE)
            && (Waiting(s.t, p) ==> !ZombieChild(s.t, p, |s.t|) && HasChild(s.t, p) && !s.t[p].killed)
  {
    RunInv(ss, steps, k);
    assert EntryOk(ss[k], p);
  }

  /** kill(pid) of a nonzero pid finds the one entry that has it. */
  lemma {:induction false} PidsUnique(ss: seq<State>, steps: seq<Step>, k: nat, p: nat)
    requires Run(ss, steps) && k <= |steps| && p < |ss[k].t| && ss[k].t[p].state != UNUSED
    ensures ss[k].t[p].pid > 0 && forall q :: Hits(ss[k].t, ss[k].t[p].pid, q) <==> q == p
  {
    RunInv(ss, steps, k);
    var s := ss[k];
    forall q | 0 <= q < |s.t| && q != p ensures s.t[q].pid != s.t[p].pid {}
  }

  /** A kill has hit entry p since its last reaping. */
  ghost predicate KilledSince(steps: seq<Step>, k: nat, p: nat)
    requires k <= |steps|
  {
    exists j :: 0 <= j < k && steps[j].Kill? && steps[j].p == p
                && forall i :: j < i < k ==> !(steps[i].WaitReap? && steps[i].child == p)
  }

  lemma {:induction false} KilledSinceStep(steps: seq<Step>, k: nat, p: nat)
    requires k < |steps|
    ensures KilledSince(steps, k + 1, p) <==>
              if steps[k].Kill? && steps[k].p == p then true
              else if steps[k].WaitReap? && steps[k].child == p then false else KilledSince(steps, k, p)
  {
    if steps[k].Kill? && steps[k].p == p {
      assert KilledSince(steps, k + 1, p);
    } else if !(steps[k].WaitReap? && steps[k].child == p) {
      if KilledSince(steps, k, p) {
        var j :| 0 <= j < k && steps[j].Kill? && steps[j].p == p
                 && forall i :: j < i < k ==> !(steps[i].WaitReap? && steps[i].child == p);
        forall i | j < i < k + 1 ensures !(steps[i].WaitReap? && steps[i].child == p) {}
        assert KilledSince(steps, k + 1, p);
      }
    }
  }

  lemma {:induction false} StepKilled(s: State, a: Step, p: nat)
    requires Enabled(s, a) && p < |s.t|
    ensures |Next(s, a).t| == |s.t|
    ensures Next(s, a).t[p].killed <==>
              if a.Kill? && a.p == p then true else if a.WaitReap? && a.child == p then false else s.t[p].killed
  {
    if a.ExitStep? {
      ExitedExact(s.t, a.p, s.init, p);
    }
  }

  /** In every run an entry is marked killed exactly when a kill has hit it since it was last reaped: a process is born
      killed only if a kill hit its entry while that was unused or being built, as kill(0) does. */
  lemma {:induction false} KilledExact(ss: seq<State>, steps: seq<Step>, k: nat, p: nat)
    requires Run(ss, steps) && k <= |steps| && p < |ss[0].t|
    ensures |ss[k].t| == |ss[0].t| && (ss[k].t[p].killed <==> KilledSince(steps, k, p))
  {
    if k > 0 {
      var j := k - 1;
      KilledExact(ss, steps, j, p);
      assert Enabled(ss[j], steps[j]) && ss[j + 1] == Next(ss[j], steps[j]);
      StepKilled(ss[j], steps[j], p);
      KilledSinceStep(steps, j, p);
    }
  }

  /** The process that fork makes runnable is not killed, unless a kill has hit its entry since the last reaping. */
  lemma {:induction false} ForkedExact(ss: seq<State>, steps: seq<Step>, k: nat)
    requires Run(ss, steps) && k < |steps| && steps[k].Start?
    ensures var p := steps[k].p;
            && p < |ss[k + 1].t| && ss[k + 1].t[p].state == RUNNABLE && ss[k + 1].t[p].parent == Some(ss[k].maker[p])
            && (ss[k + 1].t[p].killed <==> KilledSince(steps, k, p))
  {
    var p := steps[k].p;
    assert Enabled(ss[k], steps[k]) && ss[k + 1] == Next(ss[k], steps[k]);
    SameSize(ss, steps, k);
    KilledExact(ss, steps, k, p);
  }

  lemma {:induction false} SameSize(ss: seq<State>, steps: seq<Step>, k: nat)
    requires Run(ss, steps) && k <= |steps|
    ensures |ss[k].t| == |ss[0].t|
  {
    if k > 0 {
      var j := k - 1;
      SameSize(ss, steps, j);
      assert Enabled(ss[j], steps[j]) && ss[j + 1] == Next(ss[j], steps[j]);
    }
  }
}
