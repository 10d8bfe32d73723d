/** The log over the cache as fs.c uses them (bread, memmove, log_write, brelse, and commits and crashes in
    between), seen as one map from block numbers to contents that survives crashes. */
module BlockStore {
  import opened Blocks
  import opened BufferCache
  import opened CrashRecovery
  import opened Log
  import LogReservation

  /** The cache with its disk, and log.lh; `view` is every block as last modified, `saved` every block as
      the last durable commit left it. */
  datatype State = State(c: Cache, lh: seq<nat>, view: seq<Block>, saved: seq<Block>)

  /** What the cache shows is the view, and what the disk's homes hold is the last commit. */
  ghost predicate Agrees(lay: Layout, s: State) {
    && BufferCache.Inv(s.c) && Idle(lay, s.c.disk)
    && HomesOk(lay, |s.c.disk|, s.lh) && Distinct(s.lh) && Pinned(s.c, s.lh)
    && Shows(lay, s.c, s.view) && SameHomes(lay, s.c.disk, s.saved)
  }

  ghost predicate Shows(lay: Layout, c: Cache, view: seq<Block>) {
    && |view| == |c.disk|
    && forall x: nat :: x < |view| && !lay.InLog(x) ==> Latest(c, x) == view[x]
  }

  datatype Step =
    | Bread(b: nat, i: nat)
    | Modify(i: nat, d: Block)
    | LogWrite(i: nat)
    | Brelse(i: nat)
    | Commit
    | Crash(k: nat, cuts: seq<nat>) // after k writes of a commit, if k > 0; cuts are those of the recoveries

  /** The disk that a crash leaves behind. */
  ghost function CrashDisk(lay: Layout, s: State, k: nat): (d: seq<Block>)
    requires Agrees(lay, s) && CanCrash(s, k)
    ensures WellFormed(lay, d)
  {
    if k == 0 then s.c.disk
    else
      CrashAtomic(lay, s.c.disk, s.lh, Contents(s.c, s.lh), k, []);
      CutCommit(lay, s.c.disk, s.lh, Contents(s.c, s.lh), k)
  }

  ghost predicate MayCommit(s: State) {
    Quiet(s.c) && |s.lh| < |s.c.bufs|
  }

  ghost predicate CanCrash(s: State, k: nat) {
    k > 0 ==> MayCommit(s) && s.lh != [] && k <= 2 * |s.lh| + 2
  }

  /** The blocks that survive a crash after k writes of a commit. */
  function Survives(s: State, k: nat): seq<Block> {
    if k > |s.lh| && k > 0 then s.view else s.saved
  }

  ghost predicate Held(c: Cache, i: nat) {
    i < |c.bufs| && c.bufs[i].locked && c.bufs[i].valid
  }

  ghost predicate StepTo(lay: Layout, s: State, a: Step, s': State)
    requires Agrees(lay, s)
  {
    match a
    case Bread(b, i) =>
      && b < |s.c.disk| && Unlocked(s.c, b) && Read(s.c, b) == Some((s'.c, i))
      && s' == State(s'.c, s.lh, s.view, s.saved)
    case Modify(i, d) =>
      && Held(s.c, i) && s.c.bufs[i].blockno < |s.view|
      && s' == State(SetData(s.c, i, d), s.lh, s.view[s.c.bufs[i].blockno := d], s.saved)
    case LogWrite(i) =>
      && Held(s.c, i) && !lay.InLog(s.c.bufs[i].blockno) && |s.lh| < lay.logsize && |s.lh| < lay.size - 1
      && s' == State(Pin(s.c, i), LogReservation.Absorb(s.lh, s.c.bufs[i].blockno), s.view, s.saved)
    case Brelse(i) =>
      && Held(s.c, i) && s.c.bufs[i].blockno < |s.c.disk| && i in s.c.order && s.c.bufs[i].refcnt > 0
      && (s.c.bufs[i].dirty || s.c.bufs[i].data == s.c.disk[s.c.bufs[i].blockno])
      && s' == State(Release(s.c, i), s.lh, s.view, s.saved)
    case Commit =>
      && MayCommit(s) && s' == State(s'.c, [], s.view, s.view) && Settled(s'.c, [])
      && (s.lh == [] ==> s'.c == s.c)
      && (s.lh != [] ==>
            Progress(s.c, s'.c, CommitWrites(lay, s.c.disk[lay.start], s.lh, Contents(s.c, s.lh))))
      && SameContent(lay, s.c, s'.c)
    case Crash(k, cuts) =>
      && CanCrash(s, k) && s' == State(s'.c, [], Survives(s, k), Survives(s, k)) && Settled(s'.c, [])
      && s'.c.disk == Reboot(lay, CrashDisk(lay, s, k), cuts)
  }

  // ---------- every step keeps the agreement ----------

  lemma {:induction false} BreadKeeps(lay: Layout, s: State, b: nat, i: nat, s': State)
    requires Agrees(lay, s) && StepTo(lay, s, Bread(b, i), s')
    ensures Agrees(lay, s') && i < |s'.c.bufs| && s'.c.bufs[i].data == Latest(s.c, b)
  {
    ReadCorrect(s.c, b);
    var c, c' := s.c, s'.c;
    forall x | x in s.lh ensures exists k :: 0 <= k < |c'.bufs| && c'.bufs[k].Holds(x) && c'.bufs[k].dirty {
      var k :| 0 <= k < |c.bufs| && c.bufs[k].Holds(x) && c.bufs[k].dirty;
      assert c'.bufs[k].Holds(x) && c'.bufs[k].dirty;
    }
  }

  lemma {:induction false} ModifyKeeps(lay: Layout, s: State, i: nat, d: Block, s': State)
    requires Agrees(lay, s) && StepTo(lay, s, Modify(i, d), s')
    ensures Agrees(lay, s')
  {
    SetDataCorrect(s.c, i, d);
    var c, c' := s.c, s'.c;
    forall x | x in s.lh ensures exists k :: 0 <= k < |c'.bufs| && c'.bufs[k].Holds(x) && c'.bufs[k].dirty {
      var k :| 0 <= k < |c.bufs| && c.bufs[k].Holds(x) && c.bufs[k].dirty;
      assert c'.bufs[k].Holds(x) && c'.bufs[k].dirty;
    }
  }

  lemma {:induction false} LogWriteKeeps(lay: Layout, s: State, i: nat, s': State)
    requires Agrees(lay, s) && StepTo(lay, s, LogWrite(i), s')
    ensures Agrees(lay, s')
  {
    PinCorrect(s.c, i);
    PinnedMore(s.c, s.lh, i);
  }

  lemma {:induction false} BrelseKeeps(lay: Layout, s: State, i: nat, s': State)
    requires Agrees(lay, s) && StepTo(lay, s, Brelse(i), s')
    ensures Agrees(lay, s')
  {
    ReleaseCorrect(s.c, i);
    var c, c' := s.c, s'.c;
    forall x | x in s.lh ensures exists k :: 0 <= k < |c'.bufs| && c'.bufs[k].Holds(x) && c'.bufs[k].dirty {
      var k :| 0 <= k < |c.bufs| && c.bufs[k].Holds(x) && c.bufs[k].dirty;
      assert c'.bufs[k].Holds(x) && c'.bufs[k].dirty;
    }
  }

  /** Installing distinct blocks puts each block's data there and leaves the others. */
  lemma {:induction false} InstallsAt(d: seq<Block>, lh: seq<nat>, data: seq<Block>, x: nat)
    requires |lh| == |data| && Distinct(lh) && InRange(Installs(lh, data), |d|) && x < |d|
    ensures x !in lh ==> Apply(d, Installs(lh, data))[x] == d[x]
    ensures forall t :: 0 <= t < |lh| && lh[t] == x ==> Apply(d, Installs(lh, data))[x] == data[t]
    decreases |lh|
  {
    if lh != [] {
      var n := |lh| - 1;
      assert Installs(lh, data)[..n] == Installs(lh[..n], data[..n]);
      forall i | 0 <= i < n ensures Installs(lh[..n], data[..n])[i].blockno < |d| {
        assert Installs(lh, data)[i].blockno < |d|;
      }
      InstallsAt(d, lh[..n], data[..n], x);
    }
  }

  /** With nothing held, the listed blocks installed over the last commit are the view. */
  lemma {:induction false} InstallsAreView(lay: Layout, s: State)
    requires Agrees(lay, s) && Quiet(s.c)
    ensures InRange(Installs(s.lh, Contents(s.c, s.lh)), |s.c.disk|)
    ensures SameHomes(lay, Apply(s.c.disk, Installs(s.lh, Contents(s.c, s.lh))), s.view)
  {
    var data := Contents(s.c, s.lh);
    forall x | 0 <= x < |s.c.disk| && !lay.InLog(x) ensures Apply(s.c.disk, Installs(s.lh, data))[x] == s.view[x] {
      InstallsAt(s.c.disk, s.lh, data, x);
      if x in s.lh {
        var t :| 0 <= t < |s.lh| && s.lh[t] == x;
        assert data[t] == Latest(s.c, x);
      } else {
        CleanAgrees(s.c, s.lh, x);
      }
    }
  }

  /** A settled cache with nothing pinned shows the disk. */
  lemma {:induction false} SettledShows(lay: Layout, c: Cache, saved: seq<Block>)
    requires Settled(c, []) && SameHomes(lay, c.disk, saved)
    ensures Shows(lay, c, saved)
  {
    forall x: nat | x < |saved| && !lay.InLog(x) ensures Latest(c, x) == saved[x] {
      CleanAgrees(c, [], x);
    }
  }

  lemma {:induction false} CommitKeeps(lay: Layout, s: State, s': State)
    requires Agrees(lay, s) && StepTo(lay, s, Commit, s')
    ensures Agrees(lay, s')
  {
    var d, data := s.c.disk, Contents(s.c, s.lh);
    InstallsAreView(lay, s);
    if s.lh == [] {
      assert Apply(d, Installs(s.lh, data)) == d;
    } else {
      var ws := CommitWrites(lay, d[lay.start], s.lh, data);
      CommitInRange(lay, d, s.lh, data);
      assert ws[..2 * |s.lh| + 2] == ws;
      AfterErase(lay, d, s.lh, data);
      EmptyLogical(lay, s'.c.disk);
      HomesTransitive(lay, s'.c.disk, Apply(d, Installs(s.lh, data)), s.view);
    }
    SettledShows(lay, s'.c, s.view);
  }

  /** What commit ensures is the step. */
  lemma {:induction false} CommitDone(lay: Layout, s: State, c: Cache)
    requires Agrees(lay, s) && MayCommit(s) && Settled(c, []) && SameContent(lay, s.c, c) && (s.lh == [] ==> c == s.c)
    requires s.lh != [] ==> Progress(s.c, c, CommitWrites(lay, s.c.disk[lay.start], s.lh, Contents(s.c, s.lh)))
    ensures var s' := State(c, [], s.view, s.view); StepTo(lay, s, Commit, s') && Agrees(lay, s')
  {
    CommitKeeps(lay, s, State(c, [], s.view, s.view));
  }

  lemma {:induction false} EmptyLogical(lay: Layout, d: seq<Block>)
    requires Idle(lay, d)
    ensures Logical(lay, d) == d
  {
    assert Pending(lay, d) == [];
  }

  lemma {:induction false} CrashKeeps(lay: Layout, s: State, k: nat, cuts: seq<nat>, s': State)
    requires Agrees(lay, s) && StepTo(lay, s, Crash(k, cuts), s')
    ensures Agrees(lay, s')
  {
    Recovers(lay, s, k, cuts);
    SettledShows(lay, s'.c, s'.saved);
  }

  /** A crash at any moment, with any interrupted recoveries, leaves the last commit, or the view once the
      header of the commit in progress is on disk. */
  lemma {:induction false} Recovers(lay: Layout, s: State, k: nat, cuts: seq<nat>)
    requires Agrees(lay, s) && CanCrash(s, k)
    ensures var r := Reboot(lay, CrashDisk(lay, s, k), cuts);
            Idle(lay, r) && SameHomes(lay, r, Survives(s, k))
  {
    var d := s.c.disk;
    var r := Reboot(lay, CrashDisk(lay, s, k), cuts);
    if k == 0 {
      EmptyLogical(lay, d);
      HomesTransitive(lay, r, d, s.saved);
    } else {
      var data := Contents(s.c, s.lh);
      CrashAtomic(lay, d, s.lh, data, k, cuts);
      if k > |s.lh| {
        InstallsAreView(lay, s);
        HomesTransitive(lay, r, Apply(d, Installs(s.lh, data)), s.view);
      } else {
        HomesTransitive(lay, r, d, s.saved);
      }
    }
  }

  lemma {:induction false} StepKeeps(lay: Layout, s: State, a: Step, s': State)
    requires Agrees(lay, s) && StepTo(lay, s, a, s')
    ensures Agrees(lay, s')
  {
    match a
    case Bread(b, i) => BreadKeeps(lay, s, b, i, s');
    case Modify(i, d) => ModifyKeeps(lay, s, i, d, s');
    case LogWrite(i) => LogWriteKeeps(lay, s, i, s');
    case Brelse(i) => BrelseKeeps(lay, s, i, s');
    case Commit => CommitKeeps(lay, s, s');
    case Crash(k, cuts) => CrashKeeps(lay, s, k, cuts, s');
  }

  // ---------- whole runs ----------

  /** After recover_from_log at boot. */
  ghost predicate Mounted(lay: Layout, s: State) {
    Settled(s.c, []) && Idle(lay, s.c.disk) && s.lh == [] && s.view == s.saved == s.c.disk
  }

  /** Some step leads from s to s'. (From a state that does not agree, anything may follow.) */
  ghost predicate Next(lay: Layout, s: State, s': State) {
    Agrees(lay, s) ==> exists a: Step :: StepTo(lay, s, a, s')
  }

  ghost predicate History(lay: Layout, h: seq<State>) {
    |h| > 0 && if |h| == 1 then Mounted(lay, h[0])
               else History(lay, h[..|h| - 1]) && Next(lay, h[|h| - 2], h[|h| - 1])
  }

  lemma {:induction false} HistoryAgrees(lay: Layout, h: seq<State>)
    requires History(lay, h)
    ensures Agrees(lay, h[|h| - 1])
  {
    if |h| == 1 {
      SettledShows(lay, h[0].c, h[0].saved);
    } else {
      HistoryAgrees(lay, h[..|h| - 1]);
      var s, s' := h[|h| - 2], h[|h| - 1];
      var a: Step :| StepTo(lay, s, a, s');
      StepKeeps(lay, s, a, s');
    }
  }

  /** In every state of every run of reads, modifications, log_writes, releases, commits and crashes: a home
      block reads as it was last modified; its place on disk holds the last commit; a logged block is in a
      dirty buffer, so it has not been recycled; and a crash, now or within a commit started now, recovers
      the last commit as a whole, or the present view as a whole. */
  lemma {:induction false} StoreSafe(lay: Layout, h: seq<State>, x: nat, k: nat, cuts: seq<nat>)
    requires History(lay, h)
    requires x < |h[|h| - 1].c.disk| && !lay.InLog(x) && CanCrash(h[|h| - 1], k)
    ensures var s := h[|h| - 1];
            && Agrees(lay, s)
            && Latest(s.c, x) == s.view[x] && s.c.disk[x] == s.saved[x]
            && (x in s.lh ==> exists i :: 0 <= i < |s.c.bufs| && s.c.bufs[i].Holds(x) && s.c.bufs[i].dirty)
            && SameHomes(lay, Reboot(lay, CrashDisk(lay, s, k), cuts), Survives(s, k))
  {
    HistoryAgrees(lay, h);
    Recovers(lay, h[|h| - 1], k, cuts);
  }

  /** One reference to buffer i was given up. */
  ghost predicate OneLess(c: Cache, c': Cache, i: nat) {
    && |c'.bufs| == |c.bufs|
    && forall k :: 0 <= k < |c.bufs| ==> c'.bufs[k].refcnt == c.bufs[k].refcnt - if k == i then 1 else 0
  }

  lemma {:induction false} RefsAfter(c: Cache, i: nat, d: Block)
    requires i < |c.bufs| && c.bufs[i].refcnt > 0 && i in c.order
    ensures OneLess(c, Release(Pin(SetData(c, i, d), i), i), i)
  {
  }

  /** Reading a block of a quiet cache and giving up the one reference leaves it quiet. */
  lemma {:induction false} QuietAgain(c: Cache, b: nat, c1: Cache, i: nat, c2: Cache)
    requires BufferCache.Inv(c) && Quiet(c) && b < |c.disk| && Read(c, b) == Some((c1, i)) && |c2.bufs| == |c1.bufs|
    requires OneLess(c1, c2, i)
    ensures Quiet(c2)
  {
  }

  /** The mounted block store; view and saved are what it stands for. */
  class Store {
    const log: FsLog
    ghost var view: seq<Block>
    ghost var saved: seq<Block>

    ghost function Abs(): State
      reads this, log, log.bc, log.bc.buf
    {
      State(log.bc.Abs(), log.lh, view, saved)
    }

    ghost predicate Valid()
      reads this, log, log.bc, log.bc.buf, log.bc.next, log.bc.prev
    {
      log.Valid() && Agrees(log.lay, Abs())
    }

    /** initlog on the cold cache of a boot: recovery, then the blocks it leaves. */
    constructor (bc: Bcache, lay: Layout, maxop: nat)
      requires bc.Valid() && WellFormed(lay, bc.disk) && Settled(bc.Abs(), []) && 2 <= bc.nbuf
      modifies bc, bc.buf, bc.next, bc.prev
      ensures log.bc == bc && log.lay == lay && log.maxop == maxop && fresh(log) && Valid() && Mounted(lay, Abs())
      ensures log.Res() == LogReservation.INIT
      ensures bc.disk == Reboot(lay, old(bc.disk), [])
    {
      log := new FsLog(bc, lay, maxop);
      new;
      RecoveryPrefix(lay, bc.disk, |RecoverWrites(lay, bc.disk)|);
      ghost var ws := RecoverWrites(lay, bc.disk);
      assert ws[..|ws|] == ws;
      log.RecoverFromLog();
      view, saved := bc.disk, bc.disk;
      SettledShows(lay, bc.Abs(), saved);
    }

    /** None is the panic "bget: no buffers". */
    method Bread(b: nat) returns (r: Option<nat>)
      requires Valid() && b < |log.bc.disk| && Unlocked(log.bc.Abs(), b)
      modifies log.bc.buf
      ensures Valid() && (r.None? <==> Read(old(log.bc.Abs()), b).None?)
      ensures r.None? ==> Abs() == old(Abs())
      ensures r.Some? ==> StepTo(log.lay, old(Abs()), Step.Bread(b, r.value), Abs())
      ensures r.Some? && !log.lay.InLog(b) ==> r.value < log.bc.nbuf && log.bc.buf[r.value].data == view[b]
    {
      ghost var s := Abs();
      r := log.bc.Bread(DISK_DEV, b);
      if r.Some? {
        BreadKeeps(log.lay, s, b, r.value, Abs());
      }
    }

    /** memmove into a held buffer. */
    method Modify(i: nat, d: Block)
      requires Valid() && Held(log.bc.Abs(), i)
      modifies this`view, log.bc.buf
      ensures Valid() && StepTo(log.lay, old(Abs()), Step.Modify(i, d), Abs())
    {
      ghost var s := Abs();
      log.bc.Modify(i, d);
      view := view[log.bc.buf[i].blockno := d];
      ModifyKeeps(log.lay, s, i, d, Abs());
    }

    method BeginOp() returns (ok: bool)
      requires Valid()
      modifies log`outstanding, log`ops
      ensures Valid() && Abs() == old(Abs()) && (ok <==> LogReservation.Admits(log.Cfg(), old(log.Res())))
      ensures log.Res() == if ok then LogReservation.Next(old(log.Res()), LogReservation.Begin) else old(log.Res())
      ensures log.outstanding == old(log.outstanding) + if ok then 1 else 0
    {
      ok := log.BeginOp();
    }

    /** log_write by operation o. */
    method LogWrite(i: nat, ghost o: nat) returns (ok: bool)
      requires Valid() && Held(log.bc.Abs(), i) && !log.lay.InLog(log.bc.buf[i].blockno)
      requires log.outstanding >= 1 ==> o < |log.ops| && log.ops[o].pending.None?
      modifies log`lh, log`ops, log.bc.buf
      ensures ok <==> old(|log.lh|) < log.lay.logsize && old(|log.lh|) < log.lay.size - 1 && log.outstanding >= 1
      ensures Valid() && (!ok ==> Abs() == old(Abs()) && log.Res() == old(log.Res()))
      ensures ok ==> StepTo(log.lay, old(Abs()), Step.LogWrite(i), Abs())
      ensures ok ==> log.Res() == Logged(old(log.Res()), o, old(log.bc.buf[i].blockno))
    {
      ghost var s := Abs();
      ok := log.LogWrite(i, o);
      if ok {
        LogWriteKeeps(log.lay, s, i, Abs());
      }
    }

    method Brelse(i: nat)
      requires Valid() && Held(log.bc.Abs(), i)
      requires log.bc.buf[i].dirty || log.bc.buf[i].data == log.bc.disk[log.bc.buf[i].blockno]
      modifies log.bc, log.bc.buf, log.bc.next, log.bc.prev
      ensures Valid() && StepTo(log.lay, old(Abs()), Step.Brelse(i), Abs())
    {
      ghost var s := Abs();
      log.bc.Brelse(i);
      BrelseKeeps(log.lay, s, i, Abs());
    }

    method Commit()
      requires Valid() && MayCommit(Abs())
      modifies this`saved, log`lh, log.bc, log.bc.buf, log.bc.next, log.bc.prev
      ensures Valid() && StepTo(log.lay, old(Abs()), Step.Commit, Abs())
    {
      ghost var s := Abs();
      log.Commit();
      saved := view;
      CommitKeeps(log.lay, s, Abs());
    }

    /** end_op of operation o: the last one commits, and the view becomes the saved map. */
    method EndOp(ghost o: nat)
      requires Valid() && o < |log.ops| && (log.outstanding == 1 ==> MayCommit(Abs()))
      modifies this`saved, log`lh, log`outstanding, log`committing, log`ops, log.bc, log.bc.buf, log.bc.next,
               log.bc.prev
      ensures Valid() && log.outstanding == old(log.outstanding) - 1
      ensures log.outstanding > 0 ==> Abs() == old(Abs())
      ensures log.outstanding == 0 ==> StepTo(log.lay, old(Abs()), Step.Commit, Abs())
      ensures var ended := LogReservation.Next(old(log.Res()), LogReservation.End(o));
              log.Res() == if log.outstanding == 0 then LogReservation.Next(ended, LogReservation.Committed) else ended
    {
      if log.outstanding > 1 {
        log.EndOp(o);
      } else {
        EndLast(o);
      }
    }

    method EndLast(ghost o: nat)
      requires Valid() && o < |log.ops| && log.outstanding == 1 && MayCommit(Abs())
      modifies this`saved, log`lh, log`outstanding, log`committing, log`ops, log.bc, log.bc.buf, log.bc.next,
               log.bc.prev
      ensures Valid() && log.outstanding == 0 && StepTo(log.lay, old(Abs()), Step.Commit, Abs())
      ensures log.Res() == LogReservation.Next(LogReservation.Next(old(log.Res()), LogReservation.End(o)),
                                               LogReservation.Committed)
    {
      ghost var s := Abs();
      log.EndOp(o);
      saved := view;
      CommitDone(log.lay, s, log.bc.Abs());
    }

    /** The round by which operation o of fs.c changes a block: afterwards the view has d at b, nothing else of it
        changed, and nothing reached the disk. It fails exactly when there is no buffer, the list is full or no
        operation is open. */
    method Update(b: nat, d: Block, ghost o: nat) returns (ok: bool)
      requires Valid() && b < |log.bc.disk| && !log.lay.InLog(b) && Unlocked(log.bc.Abs(), b)
      requires log.outstanding >= 1 ==> o < |log.ops| && log.ops[o].pending.None?
      modifies this`view, log`lh, log`ops, log.bc, log.bc.buf, log.bc.next, log.bc.prev
      ensures ok <==> Read(old(log.bc.Abs()), b).Some? && log.outstanding >= 1
                      && old(|log.lh|) < log.lay.logsize && old(|log.lh|) < log.lay.size - 1
      ensures ok ==> Valid() && view == old(view)[b := d] && b in log.lh
      ensures ok ==> log.bc.disk == old(log.bc.disk) && log.bc.trace == old(log.bc.trace)
      ensures ok ==> log.lh == LogReservation.Absorb(old(log.lh), b) && log.Res() == Logged(old(log.Res()), o, b)
      ensures ok && Quiet(old(log.bc.Abs())) ==> Quiet(log.bc.Abs())
    {
      ghost var c := log.bc.Abs();
      ReadCorrect(c, b);
      var r := Bread(b);
      if r.None? {
        return false;
      }
      ghost var c1 := log.bc.Abs();
      ok := Replace(r.value, d, o);
      if ok && Quiet(c) {
        QuietAgain(c, b, c1, r.value, log.bc.Abs());
      }
    }

    /** The rest of the round, on the buffer read. */
    method Replace(i: nat, d: Block, ghost o: nat) returns (ok: bool)
      requires Valid() && Held(log.bc.Abs(), i) && !log.lay.InLog(log.bc.buf[i].blockno)
      requires log.outstanding >= 1 ==> o < |log.ops| && log.ops[o].pending.None?
      modifies this`view, log`lh, log`ops, log.bc, log.bc.buf, log.bc.next, log.bc.prev
      ensures ok <==> log.outstanding >= 1 && old(|log.lh|) < log.lay.logsize && old(|log.lh|) < log.lay.size - 1
      ensures ok ==>
                  Valid() && old(log.bc.buf[i].blockno) < |old(view)|
                  && view == old(view)[old(log.bc.buf[i].blockno) := d]
      ensures ok ==> log.bc.disk == old(log.bc.disk) && log.bc.trace == old(log.bc.trace)
      ensures ok ==> log.Res() == Logged(old(log.Res()), o, old(log.bc.buf[i].blockno))
      ensures ok ==> log.lh == LogReservation.Absorb(old(log.lh), old(log.bc.buf[i].blockno))
      ensures ok ==> OneLess(old(log.bc.Abs()), log.bc.Abs(), i)
    {
      ghost var c := log.bc.Abs();
      ok := Prepare(i, d, o);
      if ok {
        RefsAfter(c, i, d);
        Brelse(i);
      }
    }

    /** The memmove and the log_write of it. */
    method Prepare(i: nat, d: Block, ghost o: nat) returns (ok: bool)
      requires Valid() && Held(log.bc.Abs(), i) && !log.lay.InLog(log.bc.buf[i].blockno)
      requires log.outstanding >= 1 ==> o < |log.ops| && log.ops[o].pending.None?
      modifies this`view, log`lh, log`ops, log.bc.buf
      ensures ok <==> log.outstanding >= 1 && old(|log.lh|) < log.lay.logsize && old(|log.lh|) < log.lay.size - 1
      ensures Valid() && i < log.bc.nbuf && old(log.bc.buf[i].blockno) < |old(view)|
      ensures ok ==> log.bc.Abs() == Pin(SetData(old(log.bc.Abs()), i, d), i)
      ensures ok ==> view == old(view)[old(log.bc.buf[i].blockno) := d]
      ensures ok ==> log.Res() == Logged(old(log.Res()), o, old(log.bc.buf[i].blockno))
    {
      Modify(i, d);
      ok := LogWrite(i, o);
    }

    /** A whole transaction of one block, on an idle store: begin_op, the round, end_op. It succeeds, and the block is
        on disk in its place. */
    method Transact(b: nat, d: Block)
      requires Valid() && log.outstanding == 0 && log.lh == [] && Quiet(log.bc.Abs())
      requires b < |log.bc.disk| && !log.lay.InLog(b) && 2 <= log.bc.nbuf
      requires 1 <= log.maxop <= log.lay.logsize && 2 <= log.lay.size
      modifies this`view, this`saved, log`lh, log`outstanding, log`committing, log`ops,
               log.bc, log.bc.buf, log.bc.next, log.bc.prev
      ensures Valid() && log.outstanding == 0 && log.lh == []
      ensures view == saved == old(view)[b := d] && log.bc.disk[b] == d
    {
      var ok := BeginOp();
      assert ok;
      OneRead(log.bc.Abs(), [], b);
      ok := Update(b, d, 0);
      assert ok;
      EndOp(0);
    }
  }

  /** The reservations after operation o has logged block b: its test and its append. */
  function Logged(s: LogReservation.State, o: nat, b: nat): LogReservation.State {
    LogReservation.Next(LogReservation.Next(s, LogReservation.Check(o, b)), LogReservation.Append(o, b))
  }
}
