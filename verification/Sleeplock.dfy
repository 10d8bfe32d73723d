/** acquiresleep and releasesleep (sleeplock.c) over sleep and wakeup (proc.c): any number of processes
    stepping through the two functions under the sleep-lock's own spin-lock lk->lk and ptable.lock. */
module Sleeplock {

  /** Where a process is. The comments give the locks it holds. */
  datatype Pc =
    | Outside                 // not using this sleep-lock
    | Checking                // acquiresleep, at the while test          lk->lk
    | WantsPtable             // in sleep(), acquiring ptable.lock        lk->lk
    | HasBoth                 // in sleep(), before release(lk)           lk->lk, ptable.lock
    | Dozing                  // in sleep(), before state = SLEEPING      ptable.lock
    | Asleep                  // SLEEPING on the sleep-lock's channel
    | Woken                   // runnable again, must reacquire lk->lk
    | Holding                 // has the sleep-lock
    | Releasing               // releasesleep, lk->lk acquired            lk->lk (and the sleep-lock)
    | Released                // locked = 0 done, before wakeup           lk->lk
    | Waking                  // in wakeup(), ptable.lock acquired        lk->lk, ptable.lock
    | Woke                    // wakeup1 done, before release(ptable)     lk->lk, ptable.lock
    | Leaving                 // wakeup done, before release(lk)          lk->lk

  predicate HasSpin(c: Pc) {
    c.Checking? || c.WantsPtable? || c.HasBoth? || c.Releasing? || c.Released? || c.Waking? || c.Woke? || c.Leaving?
  }

  predicate HasPtable(c: Pc) {
    c.HasBoth? || c.Dozing? || c.Waking? || c.Woke?
  }

  predicate Owns(c: Pc) {
    c.Holding? || c.Releasing?
  }

  /** Every process's position, the field lk->locked, and whether code unrelated to this sleep-lock holds
      ptable.lock. */
  datatype State = State(pc: seq<Pc>, locked: bool, otherPtable: bool)

  predicate SpinFree(s: State) {
    forall q :: 0 <= q < |s.pc| ==> !HasSpin(s.pc[q])
  }

  predicate PtableFree(s: State) {
    !s.otherPtable && forall q :: 0 <= q < |s.pc| ==> !HasPtable(s.pc[q])
  }

  /** p is the process that moves; Kill wakes it from outside. */
  datatype Step =
    | Acquire(p: nat) | TakeLock(p: nat) | MustSleep(p: nat) | GetPtable(p: nat) | DropSpin(p: nat) | FallAsleep(p: nat)
    | Resume(p: nat) | Release(p: nat) | Clear(p: nat) | GetPtableToWake(p: nat) | WakeAll(p: nat) | DropPtable(p: nat)
    | Leave(p: nat) | Kill(p: nat) | OthersTake | OthersDrop

  predicate Enabled(s: State, a: Step) {
    match a
    case OthersTake => PtableFree(s)
    case OthersDrop => s.otherPtable
    case _ =>
      && a.p < |s.pc|
      && var c := s.pc[a.p];
      match a
      case Acquire(_) => c.Outside? && SpinFree(s)
      case TakeLock(_) => c.Checking? && !s.locked
      case MustSleep(_) => c.Checking? && s.locked
      case GetPtable(_) => c.WantsPtable? && PtableFree(s)
      case DropSpin(_) => c.HasBoth?
      case FallAsleep(_) => c.Dozing?
      case Resume(_) => c.Woken? && SpinFree(s)
      case Release(_) => c.Holding? && SpinFree(s)
      case Clear(_) => c.Releasing?
      case GetPtableToWake(_) => c.Released? && PtableFree(s)
      case WakeAll(_) => c.Waking?
      case DropPtable(_) => c.Woke?
      case Leave(_) => c.Leaving?
      case Kill(_) => c.Asleep? && PtableFree(s)
  }

  /** wakeup1 on the sleep-lock's channel. */
  function Wakened(pc: seq<Pc>): (r: seq<Pc>)
    ensures |r| == |pc| && forall q :: 0 <= q < |pc| ==> r[q] == if pc[q].Asleep? then Woken else pc[q]
  {
    seq(|pc|, q requires 0 <= q < |pc| => if pc[q].Asleep? then Woken else pc[q])
  }

  function Next(s: State, a: Step): State
    requires Enabled(s, a)
  {
    match a
    case OthersTake => s.(otherPtable := true)
    case OthersDrop => s.(otherPtable := false)
    case Acquire(p) => s.(pc := s.pc[p := Checking])
    case TakeLock(p) => s.(pc := s.pc[p := Holding], locked := true)
    case MustSleep(p) => s.(pc := s.pc[p := WantsPtable])
    case GetPtable(p) => s.(pc := s.pc[p := HasBoth])
    case DropSpin(p) => s.(pc := s.pc[p := Dozing])
    case FallAsleep(p) => s.(pc := s.pc[p := Asleep])
    case Resume(p) => s.(pc := s.pc[p := Checking])
    case Release(p) => s.(pc := s.pc[p := Releasing])
    case Clear(p) => s.(pc := s.pc[p := Released], locked := false)
    case GetPtableToWake(p) => s.(pc := s.pc[p := Waking])
    case WakeAll(p) => s.(pc := Wakened(s.pc[p := Woke]))
    case DropPtable(p) => s.(pc := s.pc[p := Leaving])
    case Leave(p) => s.(pc := s.pc[p := Outside])
    case Kill(p) => s.(pc := s.pc[p := Woken])
  }

  ghost predicate OneOf(s: State, has: Pc -> bool) {
    forall p, q :: 0 <= p < q < |s.pc| ==> !(has(s.pc[p]) && has(s.pc[q]))
  }

  /** A release has cleared the lock and its wakeup has yet to run. */
  ghost predicate WakeComing(s: State) {
    exists q :: 0 <= q < |s.pc| && (s.pc[q].Released? || s.pc[q].Waking?)
  }

  ghost predicate Owned(s: State) {
    exists q :: 0 <= q < |s.pc| && Owns(s.pc[q])
  }

  ghost predicate Inv(s: State) {
    && OneOf(s, HasSpin) && OneOf(s, HasPtable) && OneOf(s, Owns)
    && (s.otherPtable ==> forall q :: 0 <= q < |s.pc| ==> !HasPtable(s.pc[q]))
    && (s.locked <==> Owned(s))
    // whoever decided to sleep did so while the lock was held, and still holds lk->lk
    && (forall q :: 0 <= q < |s.pc| && (s.pc[q].WantsPtable? || s.pc[q].HasBoth?) ==> s.locked)
    && (forall q :: 0 <= q < |s.pc| && (s.pc[q].Dozing? || s.pc[q].Asleep?) ==> s.locked || WakeComing(s))
  }

  /** Process p moves: it takes a lock only if that lock is free. */
  lemma {:induction false} MoveKeepsLocks(s: State, s': State, p: nat, c: Pc)
    requires Inv(s) && p < |s.pc| && s'.pc == s.pc[p := c] && s'.otherPtable == s.otherPtable
    requires HasSpin(c) ==> HasSpin(s.pc[p]) || SpinFree(s)
    requires HasPtable(c) ==> HasPtable(s.pc[p]) || PtableFree(s)
    requires Owns(c) ==> Owns(s.pc[p]) || !s.locked
    ensures OneOf(s', HasSpin) && OneOf(s', HasPtable) && OneOf(s', Owns)
    ensures s'.otherPtable ==> forall q :: 0 <= q < |s'.pc| ==> !HasPtable(s'.pc[q])
  {
  }

  /** Process p moves without touching lk->locked. */
  lemma {:induction false} MoveKeepsInv(s: State, s': State, p: nat, c: Pc)
    requires Inv(s) && p < |s.pc| && s' == s.(pc := s.pc[p := c])
    requires HasSpin(c) ==> HasSpin(s.pc[p]) || SpinFree(s)
    requires HasPtable(c) ==> HasPtable(s.pc[p]) || PtableFree(s)
    requires Owns(c) <==> Owns(s.pc[p])
    requires c.WantsPtable? || c.HasBoth? ==> s.locked
    requires c.Dozing? || c.Asleep? ==> s.locked || s.pc[p].Dozing?
    requires s.pc[p].Released? || s.pc[p].Waking? ==> c.Released? || c.Waking?
    ensures Inv(s')
  {
    MoveKeepsLocks(s, s', p, c);
    if WakeComing(s) {
      var q :| 0 <= q < |s.pc| && (s.pc[q].Released? || s.pc[q].Waking?);
      assert s'.pc[q].Released? || s'.pc[q].Waking?;
    }
    if Owned(s) {
      var q :| 0 <= q < |s.pc| && Owns(s.pc[q]);
      assert Owns(s'.pc[q]);
    }
  }

  lemma {:induction false} TakeLockKeepsInv(s: State, p: nat)
    requires Inv(s) && Enabled(s, TakeLock(p))
    ensures Inv(Next(s, TakeLock(p)))
  {
    var s' := Next(s, TakeLock(p));
    MoveKeepsLocks(s, s', p, Holding);
    assert Owns(s'.pc[p]);
  }

  lemma {:induction false} ClearKeepsInv(s: State, p: nat)
    requires Inv(s) && Enabled(s, Clear(p))
    ensures Inv(Next(s, Clear(p)))
  {
    var s' := Next(s, Clear(p));
    MoveKeepsLocks(s, s', p, Released);
    assert s'.pc[p].Released?;
    forall q | 0 <= q < |s.pc| ensures !Owns(s'.pc[q]) {
      assert q != p ==> !Owns(s.pc[q]);
    }
    forall q | 0 <= q < |s.pc| ensures !s'.pc[q].WantsPtable? && !s'.pc[q].HasBoth? {
      assert q != p ==> !HasSpin(s.pc[q]);
    }
  }

  lemma {:induction false} WakeAllKeepsInv(s: State, p: nat)
    requires Inv(s) && Enabled(s, WakeAll(p))
    ensures Inv(Next(s, WakeAll(p)))
  {
    var s', s1 := Next(s, WakeAll(p)), s.(pc := s.pc[p := Woke]);
    MoveKeepsLocks(s, s1, p, Woke);
    forall q | 0 <= q < |s.pc| ensures
      HasSpin(s'.pc[q]) == HasSpin(s1.pc[q]) && HasPtable(s'.pc[q]) == HasPtable(s1.pc[q])
        && Owns(s'.pc[q]) == Owns(s.pc[q]) {}
    forall q | 0 <= q < |s.pc| ensures !s'.pc[q].Asleep? && !s'.pc[q].Dozing? {
      assert q != p ==> !HasPtable(s.pc[q]);
    }
    if Owned(s) {
      var q :| 0 <= q < |s.pc| && Owns(s.pc[q]);
      assert Owns(s'.pc[q]);
    }
  }

  lemma {:induction false} AcquireSideKeepsInv(s: State, a: Step)
    requires Inv(s) && Enabled(s, a)
    requires a.Acquire? || a.MustSleep? || a.GetPtable? || a.DropSpin? || a.FallAsleep? || a.Resume? || a.Kill?
    ensures Inv(Next(s, a))
  {
    var c := Next(s, a).pc[a.p];
    if a.Acquire? || a.Resume? {
      MoveKeepsInv(s, Next(s, a), a.p, Checking);
    } else if a.MustSleep? {
      MoveKeepsInv(s, Next(s, a), a.p, WantsPtable);
    } else if a.GetPtable? {
      MoveKeepsInv(s, Next(s, a), a.p, HasBoth);
    } else {
      MoveKeepsInv(s, Next(s, a), a.p, c);
    }
  }

  lemma {:induction false} ReleaseSideKeepsInv(s: State, a: Step)
    requires Inv(s) && Enabled(s, a) && (a.Release? || a.GetPtableToWake? || a.DropPtable? || a.Leave?)
    ensures Inv(Next(s, a))
  {
    MoveKeepsInv(s, Next(s, a), a.p, Next(s, a).pc[a.p]);
  }

  lemma {:induction false} OthersKeepInv(s: State, a: Step)
    requires Inv(s) && Enabled(s, a) && (a.OthersTake? || a.OthersDrop?)
    ensures Inv(Next(s, a))
  {
    var s' := Next(s, a);
    assert s'.pc == s.pc;
    assert WakeComing(s') == WakeComing(s) && Owned(s') == Owned(s);
  }

  /** Every step of every process keeps the invariant. */
  lemma {:induction false} StepKeepsInv(s: State, a: Step)
    requires Inv(s) && Enabled(s, a)
    ensures Inv(Next(s, a))
  {
    if a.TakeLock? {
      TakeLockKeepsInv(s, a.p);
    } else if a.Clear? {
      ClearKeepsInv(s, a.p);
    } else if a.WakeAll? {
      WakeAllKeepsInv(s, a.p);
    } else if a.OthersTake? || a.OthersDrop? {
      OthersKeepInv(s, a);
    } else if a.Release? || a.GetPtableToWake? || a.DropPtable? || a.Leave? {
      ReleaseSideKeepsInv(s, a);
    } else {
      AcquireSideKeepsInv(s, a);
    }
  }

  ghost predicate Idle(s: State) {
    !s.locked && !s.otherPtable && forall q :: 0 <= q < |s.pc| ==> s.pc[q].Outside?
  }

  ghost predicate StepTo(s: State, s': State) {
    exists a :: Enabled(s, a) && s' == Next(s, a)
  }

  /** Any interleaving from an idle lock. */
  ghost predicate History(h: seq<State>) {
    |h| > 0 && (if |h| == 1 then Idle(h[0]) else History(h[..|h| - 1]) && StepTo(h[|h| - 2], h[|h| - 1]))
  }

  lemma {:induction false} HistoryInv(h: seq<State>)
    requires History(h)
    ensures Inv(h[|h| - 1])
  {
    if |h| > 1 {
      HistoryInv(h[..|h| - 1]);
      var a :| Enabled(h[|h| - 2], a) && h[|h| - 1] == Next(h[|h| - 2], a);
      StepKeepsInv(h[|h| - 2], a);
    }
  }

  /** Mutual exclusion, and no lost wakeup: a process asleep on the sleep-lock means that the lock is held
      or that its releaser has yet to run wakeup. */
  lemma {:induction false} SleeplockSafe(h: seq<State>)
    requires History(h)
    ensures var s := h[|h| - 1];
            && (forall p, q :: 0 <= p < q < |s.pc| ==> !(Owns(s.pc[p]) && Owns(s.pc[q])))
            && (s.locked <==> exists q :: 0 <= q < |s.pc| && Owns(s.pc[q]))
            && (forall p :: 0 <= p < |s.pc| && s.pc[p].Asleep? && !s.locked ==>
                  exists q :: 0 <= q < |s.pc| && (s.pc[q].Released? || s.pc[q].Waking?))
  {
    HistoryInv(h);
  }
}
