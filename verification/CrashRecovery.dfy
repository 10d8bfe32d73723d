/** The redo log on disk (log.c): what commit and recovery write, and what a crash between any two
    of those writes can leave behind. */
module CrashRecovery {
  import opened Blocks
  import opened BufferCache

  /** Where the log lives: log.start, log.size, and the capacity LOGSIZE of struct logheader. */
  datatype Layout = Layout(start: nat, size: nat, logsize: nat) {
    predicate Valid(disksize: nat) {
      1 <= size && start + size <= disksize <= 0x1_0000_0000 && logsize + 1 < WORDS
    }

    predicate InLog(b: nat) { start <= b < start + size }
  }

  /** Block numbers that a transaction may log on this disk. */
  predicate HomesOk(lay: Layout, disksize: nat, lh: seq<nat>) {
    && |lh| <= lay.logsize && |lh| < lay.size
    && forall t :: 0 <= t < |lh| ==> lh[t] < disksize && !lay.InLog(lh[t])
  }

  // ---------- the header block ----------

  /** hb->n and hb->block[0..n) stored; the rest of the block is left as it was. */
  function PutHead(b: Block, lh: seq<nat>): Block
    requires |lh| + 1 < WORDS && forall t :: 0 <= t < |lh| ==> lh[t] < 0x1_0000_0000
  {
    PutWords(PutWord(b, 0, |lh|), 1, lh)
  }

  function Count(b: Block): nat {
    Word(b, 0)
  }

  function GetHead(b: Block): seq<nat>
    requires Count(b) + 1 < WORDS
  {
    GetWords(b, 1, Count(b))
  }

  /** read_head reads back what write_head stored. */
  lemma {:induction false} HeadRoundTrip(b: Block, lh: seq<nat>)
    requires |lh| + 1 < WORDS && forall t :: 0 <= t < |lh| ==> lh[t] < 0x1_0000_0000
    ensures Count(PutHead(b, lh)) == |lh| && GetHead(PutHead(b, lh)) == lh
    ensures forall j :: 0 <= j < WORDS ==>
                Word(PutHead(b, lh), j) == if j == 0 then |lh| else if j <= |lh| then lh[j - 1] else Word(b, j)
  {
    forall j | 0 <= j < WORDS
      ensures Word(PutHead(b, lh), j) == if j == 0 then |lh| else if j <= |lh| then lh[j - 1] else Word(b, j)
    {
      WordOfPutWords(PutWord(b, 0, |lh|), 1, lh, j);
      WordOfPutWord(b, 0, |lh|, j);
    }
    WordOfPutWords(PutWord(b, 0, |lh|), 1, lh, 0);
    WordOfPutWord(b, 0, |lh|, 0);
    forall t | 0 <= t < |lh| ensures Word(PutHead(b, lh), t + 1) == lh[t] {
      WordOfPutWords(PutWord(b, 0, |lh|), 1, lh, t + 1);
    }
  }

  // ---------- sequences of disk writes ----------

  ghost predicate InRange(ws: seq<Write>, disksize: nat) {
    forall i :: 0 <= i < |ws| ==> ws[i].blockno < disksize
  }

  ghost predicate Writes(ws: seq<Write>, x: nat) {
    exists i :: 0 <= i < |ws| && ws[i].blockno == x
  }

  /** The disk after the writes `ws`. */
  ghost function Apply(d: seq<Block>, ws: seq<Write>): (r: seq<Block>)
    requires InRange(ws, |d|)
    ensures |r| == |d|
  {
    if ws == [] then d
    else Apply(d, ws[..|ws| - 1])[ws[|ws| - 1].blockno := ws[|ws| - 1].data]
  }

  lemma {:induction false} ApplyConcat(d: seq<Block>, a: seq<Write>, b: seq<Write>)
    requires InRange(a, |d|) && InRange(b, |d|)
    ensures InRange(a + b, |d|) && Apply(d, a + b) == Apply(Apply(d, a), b)
  {
    if b == [] {
      assert a + b == a;
    } else {
      var n := |b| - 1;
      assert (a + b)[..|a + b| - 1] == a + b[..n];
      assert (a + b)[|a + b| - 1] == b[n];
      ApplyConcat(d, a, b[..n]);
    }
  }

  /** A block that is written ends with a value the old disk does not influence; others keep theirs. */
  lemma {:induction false} ApplyAt(d: seq<Block>, d': seq<Block>, ws: seq<Write>, x: nat)
    requires |d| == |d'| && x < |d| && InRange(ws, |d|)
    ensures Writes(ws, x) ==> Apply(d, ws)[x] == Apply(d', ws)[x]
    ensures !Writes(ws, x) ==> Apply(d, ws)[x] == d[x]
  {
    if ws != [] {
      var n := |ws| - 1;
      ApplyAt(d, d', ws[..n], x);
      if ws[n].blockno == x {
        assert Writes(ws, x);
      } else if Writes(ws, x) {
        var i :| 0 <= i < |ws| && ws[i].blockno == x;
        assert ws[..n][i].blockno == x;
      } else {
        forall i | 0 <= i < n ensures ws[..n][i].blockno != x { assert ws[i].blockno != x; }
      }
    }
  }

  /** Redoing a list of writes after any prefix of it had already been done. */
  lemma {:induction false} Redo(d: seq<Block>, ws: seq<Write>, j: nat)
    requires InRange(ws, |d|) && j <= |ws|
    ensures Apply(Apply(d, ws[..j]), ws) == Apply(d, ws)
  {
    var d' := Apply(d, ws[..j]);
    forall x | 0 <= x < |d| ensures Apply(d', ws)[x] == Apply(d, ws)[x] {
      ApplyAt(d', d, ws, x);
      ApplyAt(d, d, ws, x);
      if !Writes(ws, x) {
        forall i | 0 <= i < j ensures ws[..j][i].blockno != x { assert ws[i].blockno != x; }
        ApplyAt(d, d, ws[..j], x);
      }
    }
  }

  // ---------- commit and recovery as writes ----------

  /** write_log: block t of the transaction into log slot t. */
  ghost function LogWrites(lay: Layout, data: seq<Block>): seq<Write> {
    seq(|data|, t requires 0 <= t < |data| => Write(lay.start + 1 + t, data[t]))
  }

  /** install_trans: log slot t to its home. */
  ghost function Installs(lh: seq<nat>, data: seq<Block>): seq<Write>
    requires |lh| == |data|
  {
    seq(|lh|, t requires 0 <= t < |lh| => Write(lh[t], data[t]))
  }

  /** All the writes of commit(), on a disk whose header block is `head`. */
  ghost function CommitWrites(lay: Layout, head: Block, lh: seq<nat>, data: seq<Block>): seq<Write>
    requires |lh| == |data| && |lh| + 1 < WORDS && forall t :: 0 <= t < |lh| ==> lh[t] < 0x1_0000_0000
  {
    LogWrites(lay, data) + [Write(lay.start, PutHead(head, lh))]
    + Installs(lh, data) + [Write(lay.start, PutHead(PutHead(head, lh), []))]
  }

  /** A disk that recovery can read: its header lists homes outside the log. */
  ghost predicate WellFormed(lay: Layout, d: seq<Block>) {
    && lay.Valid(|d|)
    && Count(d[lay.start]) <= lay.logsize
    && HomesOk(lay, |d|, GetHead(d[lay.start]))
  }

  ghost function Slots(lay: Layout, d: seq<Block>, n: nat): seq<Block>
    requires lay.start + n < |d|
  {
    d[lay.start + 1..lay.start + 1 + n]
  }

  /** The installs that recovery would do. */
  ghost function Pending(lay: Layout, d: seq<Block>): seq<Write>
    requires WellFormed(lay, d)
  {
    var lh := GetHead(d[lay.start]);
    Installs(lh, Slots(lay, d, |lh|))
  }

  /** All the writes of recover_from_log(). */
  ghost function RecoverWrites(lay: Layout, d: seq<Block>): seq<Write>
    requires WellFormed(lay, d)
  {
    Pending(lay, d) + [Write(lay.start, PutHead(d[lay.start], []))]
  }

  /** The file system that a disk stands for: what its homes would hold after recovery. */
  ghost function Logical(lay: Layout, d: seq<Block>): seq<Block>
    requires WellFormed(lay, d)
  {
    Apply(d, Pending(lay, d))
  }

  ghost predicate SameHomes(lay: Layout, a: seq<Block>, b: seq<Block>) {
    && |a| == |b|
    && forall x :: 0 <= x < |a| && !lay.InLog(x) ==> a[x] == b[x]
  }

  /** Between transactions the header is empty. */
  ghost predicate Idle(lay: Layout, d: seq<Block>) {
    WellFormed(lay, d) && Count(d[lay.start]) == 0
  }

  /** Recovery from d would yield the homes of s. */
  ghost predicate StandsFor(lay: Layout, d: seq<Block>, s: seq<Block>) {
    WellFormed(lay, d) && SameHomes(lay, Logical(lay, d), s)
  }

  // ---------- recovery ----------

  lemma {:induction false} PendingWrites(lay: Layout, d: seq<Block>)
    requires WellFormed(lay, d)
    ensures InRange(Pending(lay, d), |d|)
    ensures forall i :: 0 <= i < |Pending(lay, d)| ==> !lay.InLog(Pending(lay, d)[i].blockno)
  {
  }

  /** Writes outside the log leave header and slots alone. */
  lemma {:induction false} KeepsLog(lay: Layout, d: seq<Block>, ws: seq<Write>)
    requires WellFormed(lay, d) && InRange(ws, |d|)
    requires forall i :: 0 <= i < |ws| ==> !lay.InLog(ws[i].blockno)
    ensures forall x :: lay.start <= x < lay.start + lay.size ==> Apply(d, ws)[x] == d[x]
    ensures WellFormed(lay, Apply(d, ws)) && Pending(lay, Apply(d, ws)) == Pending(lay, d)
  {
    var d' := Apply(d, ws);
    forall x | lay.start <= x < lay.start + lay.size ensures d'[x] == d[x] {
      ApplyAt(d, d, ws, x);
    }
    assert d'[lay.start] == d[lay.start];
    var n := Count(d[lay.start]);
    assert Slots(lay, d', n) == Slots(lay, d, n);
  }

  /** An empty header means the disk is its own recovery. */
  lemma {:induction false} EmptyHead(lay: Layout, d: seq<Block>, b: Block)
    requires lay.Valid(|d|) && d[lay.start] == PutHead(b, [])
    ensures WellFormed(lay, d) && Count(d[lay.start]) == 0 && Logical(lay, d) == d
  {
    HeadRoundTrip(b, []);
    assert Pending(lay, d) == [];
  }

  /** A recovery cut after any number of its writes leaves the same logical file system, so the next
      recovery starts from where it left off; a finished one empties the header. */
  lemma {:induction false} RecoveryPrefix(lay: Layout, d: seq<Block>, j: nat)
    requires WellFormed(lay, d) && j <= |RecoverWrites(lay, d)|
    ensures InRange(RecoverWrites(lay, d)[..j], |d|)
    ensures var d' := Apply(d, RecoverWrites(lay, d)[..j]);
            && WellFormed(lay, d')
            && SameHomes(lay, Logical(lay, d'), Logical(lay, d))
            && (j == |RecoverWrites(lay, d)| ==> Count(d'[lay.start]) == 0 && Logical(lay, d') == d')
  {
    var ws, p := RecoverWrites(lay, d), Pending(lay, d);
    PendingWrites(lay, d);
    if j <= |p| {
      assert ws[..j] == p[..j];
      KeepsLog(lay, d, p[..j]);
      Redo(d, p, j);
    } else {
      assert ws[..j] == ws && ws[..|ws| - 1] == p;
      KeepsLog(lay, d, p);
      var d' := Apply(d, ws);
      assert d' == Apply(d, p)[lay.start := PutHead(d[lay.start], [])];
      EmptyHead(lay, d', d[lay.start]);
    }
  }

  /** Reboots whose recoveries are cut after `cuts[0]`, `cuts[1]`, ... writes, one after the other. */
  ghost function Interrupted(lay: Layout, d: seq<Block>, cuts: seq<nat>): (r: seq<Block>)
    requires WellFormed(lay, d)
    ensures WellFormed(lay, r) && |r| == |d| && SameHomes(lay, Logical(lay, r), Logical(lay, d))
    decreases |cuts|
  {
    if cuts == [] then d
    else
      var ws := RecoverWrites(lay, d);
      var j := if cuts[0] <= |ws| then cuts[0] else |ws|;
      RecoveryPrefix(lay, d, j);
      Interrupted(lay, Apply(d, ws[..j]), cuts[1..])
  }

  /** Any number of interrupted recoveries and then a complete one. */
  ghost function Reboot(lay: Layout, d: seq<Block>, cuts: seq<nat>): (r: seq<Block>)
    requires WellFormed(lay, d)
    ensures |r| == |d| && WellFormed(lay, r) && Count(r[lay.start]) == 0 && Logical(lay, r) == r
    ensures SameHomes(lay, r, Logical(lay, d))
  {
    var d1 := Interrupted(lay, d, cuts);
    var ws := RecoverWrites(lay, d1);
    RecoveryPrefix(lay, d1, |ws|);
    assert ws[..|ws|] == ws;
    Apply(d1, ws)
  }

  // ---------- commit ----------

  /** A disk between transactions, and a transaction that fits its log. */
  ghost predicate CanCommit(lay: Layout, d: seq<Block>, lh: seq<nat>, data: seq<Block>) {
    && Idle(lay, d) && HomesOk(lay, |d|, lh) && |data| == |lh|
  }

  /** The disk after the first k writes of commit(). */
  ghost function CutCommit(lay: Layout, d: seq<Block>, lh: seq<nat>, data: seq<Block>, k: nat): seq<Block>
    requires CanCommit(lay, d, lh, data) && k <= 2 * |lh| + 2
  {
    CommitInRange(lay, d, lh, data);
    Apply(d, CommitWrites(lay, d[lay.start], lh, data)[..k])
  }

  lemma {:induction false} CommitInRange(lay: Layout, d: seq<Block>, lh: seq<nat>, data: seq<Block>)
    requires CanCommit(lay, d, lh, data)
    ensures |CommitWrites(lay, d[lay.start], lh, data)| == 2 * |lh| + 2
    ensures InRange(CommitWrites(lay, d[lay.start], lh, data), |d|)
  {
  }

  lemma {:induction false} BeforeHead(lay: Layout, d: seq<Block>, lh: seq<nat>, data: seq<Block>, k: nat)
    requires CanCommit(lay, d, lh, data) && k <= |lh|
    ensures var d' := CutCommit(lay, d, lh, data, k);
            && |d'| == |d| && d'[lay.start] == d[lay.start] && SameHomes(lay, d', d)
            && (forall t :: 0 <= t < k ==> d'[lay.start + 1 + t] == data[t])
            && WellFormed(lay, d') && Logical(lay, d') == d'
  {
    CommitInRange(lay, d, lh, data);
    var ws := CommitWrites(lay, d[lay.start], lh, data);
    if k > 0 {
      BeforeHead(lay, d, lh, data, k - 1);
      assert ws[..k][..k - 1] == ws[..k - 1];
      assert ws[..k][k - 1] == LogWrites(lay, data)[k - 1];
    }
    var d' := CutCommit(lay, d, lh, data, k);
    assert Pending(lay, d') == [];
  }

  lemma {:induction false} LogWritesAt(lay: Layout, d: seq<Block>, data: seq<Block>)
    requires lay.Valid(|d|) && |data| < lay.size
    ensures InRange(LogWrites(lay, data), |d|)
    ensures var d' := Apply(d, LogWrites(lay, data));
            && SameHomes(lay, d', d) && d'[lay.start] == d[lay.start] && Slots(lay, d', |data|) == data
  {
    if data != [] {
      var n := |data| - 1;
      LogWritesAt(lay, d, data[..n]);
      assert LogWrites(lay, data)[..n] == LogWrites(lay, data[..n]);
      assert data == data[..n] + [data[n]];
      assert forall t :: 0 <= t < n ==> Slots(lay, Apply(d, LogWrites(lay, data[..n])), n)[t] == data[t];
    }
  }

  lemma {:induction false} HeadWritten(lay: Layout, d: seq<Block>, lh: seq<nat>, data: seq<Block>)
    requires CanCommit(lay, d, lh, data)
    ensures CutCommit(lay, d, lh, data, |lh| + 1) ==
            CutCommit(lay, d, lh, data, |lh|)[lay.start := PutHead(d[lay.start], lh)]
  {
    var n := |lh|;
    CommitInRange(lay, d, lh, data);
    var ws := CommitWrites(lay, d[lay.start], lh, data);
    assert ws[..n + 1][..n] == ws[..n] && ws[..n + 1][n] == Write(lay.start, PutHead(d[lay.start], lh));
  }

  /** The commit point: once the header is down, the pending installs are the transaction. */
  lemma {:induction false} AtHead(lay: Layout, d: seq<Block>, lh: seq<nat>, data: seq<Block>)
    requires CanCommit(lay, d, lh, data)
    ensures var d1 := CutCommit(lay, d, lh, data, |lh| + 1);
            && |d1| == |d| && d1[lay.start] == PutHead(d[lay.start], lh) && SameHomes(lay, d1, d)
            && WellFormed(lay, d1) && Pending(lay, d1) == Installs(lh, data)
  {
    BeforeHead(lay, d, lh, data, |lh|);
    HeadRoundTrip(d[lay.start], lh);
    HeadWritten(lay, d, lh, data);
    assert Slots(lay, CutCommit(lay, d, lh, data, |lh| + 1), |lh|) == data;
  }

  /** The disk after the header write and m installs. */
  lemma {:induction false} CutInstalls(lay: Layout, d: seq<Block>, lh: seq<nat>, data: seq<Block>, m: nat)
    requires CanCommit(lay, d, lh, data) && m <= |lh|
    ensures InRange(Installs(lh, data), |d|)
    ensures CutCommit(lay, d, lh, data, |lh| + 1 + m) ==
            Apply(CutCommit(lay, d, lh, data, |lh| + 1), Installs(lh, data)[..m])
  {
    CommitInRange(lay, d, lh, data);
    var ws, p, n := CommitWrites(lay, d[lay.start], lh, data), Installs(lh, data), |lh|;
    assert ws[..n + 1 + m] == ws[..n + 1] + p[..m];
    ApplyConcat(d, ws[..n + 1], p[..m]);
  }

  /** While installing, recovery would still finish the transaction. */
  lemma {:induction false} DuringInstalls(lay: Layout, d: seq<Block>, lh: seq<nat>, data: seq<Block>, m: nat)
    requires CanCommit(lay, d, lh, data) && m <= |lh|
    ensures InRange(Installs(lh, data), |d|)
    ensures StandsFor(lay, CutCommit(lay, d, lh, data, |lh| + 1 + m), Apply(d, Installs(lh, data)))
    ensures m == |lh| ==> SameHomes(lay, CutCommit(lay, d, lh, data, |lh| + 1 + m), Apply(d, Installs(lh, data)))
  {
    var p := Installs(lh, data);
    var d1 := CutCommit(lay, d, lh, data, |lh| + 1);
    AtHead(lay, d, lh, data);
    PendingWrites(lay, d1);
    InstallsOnHomes(lay, d, d1, p);
    CutInstalls(lay, d, lh, data, m);
    KeepsLog(lay, d1, p[..m]);
    Redo(d1, p, m);
    assert m == |lh| ==> p[..m] == p;
  }

  /** The last write empties the header. */
  lemma {:induction false} AfterErase(lay: Layout, d: seq<Block>, lh: seq<nat>, data: seq<Block>)
    requires CanCommit(lay, d, lh, data)
    ensures Idle(lay, CutCommit(lay, d, lh, data, 2 * |lh| + 2))
    ensures InRange(Installs(lh, data), |d|)
    ensures StandsFor(lay, CutCommit(lay, d, lh, data, 2 * |lh| + 2), Apply(d, Installs(lh, data)))
  {
    DuringInstalls(lay, d, lh, data, |lh|);
    var d0, d' := CutCommit(lay, d, lh, data, |lh| + 1 + |lh|), CutCommit(lay, d, lh, data, 2 * |lh| + 2);
    EraseStep(lay, d, lh, data, d0, d');
    EmptyHead(lay, d', PutHead(d[lay.start], lh));
    HomesTransitive(lay, d', d0, Apply(d, Installs(lh, data)));
  }

  lemma {:induction false} EraseStep(lay: Layout, d: seq<Block>, lh: seq<nat>, data: seq<Block>, d0: seq<Block>,
                                     d': seq<Block>)
    requires CanCommit(lay, d, lh, data)
    requires d0 == CutCommit(lay, d, lh, data, |lh| + 1 + |lh|) && d' == CutCommit(lay, d, lh, data, 2 * |lh| + 2)
    ensures |d'| == |d| && d'[lay.start] == PutHead(PutHead(d[lay.start], lh), []) && SameHomes(lay, d', d0)
  {
    var n := |lh|;
    CommitInRange(lay, d, lh, data);
    var ws := CommitWrites(lay, d[lay.start], lh, data);
    assert ws[..2 * n + 2][..2 * n + 1] == ws[..n + 1 + n];
  }

  /** From the header write on, the disk stands for the new state. */
  lemma {:induction false} AfterHead(lay: Layout, d: seq<Block>, lh: seq<nat>, data: seq<Block>, k: nat)
    requires CanCommit(lay, d, lh, data) && |lh| < k <= 2 * |lh| + 2
    ensures InRange(Installs(lh, data), |d|)
    ensures StandsFor(lay, CutCommit(lay, d, lh, data, k), Apply(d, Installs(lh, data)))
    ensures k == 2 * |lh| + 2 ==> Idle(lay, CutCommit(lay, d, lh, data, k))
  {
    if k <= 2 * |lh| + 1 {
      DuringInstalls(lay, d, lh, data, k - |lh| - 1);
      assert k == |lh| + 1 + (k - |lh| - 1);
    } else {
      AfterErase(lay, d, lh, data);
    }
  }

  lemma {:induction false} HomesTransitive(lay: Layout, a: seq<Block>, b: seq<Block>, c: seq<Block>)
    requires SameHomes(lay, a, b) && SameHomes(lay, b, c)
    ensures SameHomes(lay, a, c)
  {
  }

  /** Writes to homes do the same on two disks that agree on homes. */
  lemma {:induction false} InstallsOnHomes(lay: Layout, a: seq<Block>, b: seq<Block>, ws: seq<Write>)
    requires InRange(ws, |a|) && SameHomes(lay, a, b)
    ensures SameHomes(lay, Apply(a, ws), Apply(b, ws))
  {
    forall x | 0 <= x < |a| && !lay.InLog(x) ensures Apply(a, ws)[x] == Apply(b, ws)[x] {
      ApplyAt(a, b, ws, x);
      ApplyAt(b, a, ws, x);
    }
  }

  /** Crash atomicity: cut commit() anywhere, reboot with recovery cut any number of times, and the
      homes hold the old state if the header had not been written and the new state if it had. */
  lemma {:induction false} CrashAtomic(lay: Layout, d: seq<Block>, lh: seq<nat>, data: seq<Block>, k: nat,
                                       cuts: seq<nat>)
    requires CanCommit(lay, d, lh, data) && k <= 2 * |lh| + 2
    ensures WellFormed(lay, CutCommit(lay, d, lh, data, k)) && InRange(Installs(lh, data), |d|)
    ensures var r := Reboot(lay, CutCommit(lay, d, lh, data, k), cuts);
            && Count(r[lay.start]) == 0
            && SameHomes(lay, r, if k <= |lh| then d else Apply(d, Installs(lh, data)))
  {
    if k <= |lh| {
      BeforeHead(lay, d, lh, data, k);
    } else {
      AfterHead(lay, d, lh, data, k);
    }
  }

  // ---------- whole histories ----------

  /** One transaction: commit() runs for `cut` writes; `cuts` are the interrupted recoveries of the
      reboot that follows (a commit that ran to its end may also be followed by a power failure). */
  datatype Txn = Txn(lh: seq<nat>, data: seq<Block>, cut: nat, rebooted: bool, cuts: seq<nat>) {
    predicate Valid(lay: Layout, disksize: nat) {
      && HomesOk(lay, disksize, lh) && |data| == |lh|
      && cut <= 2 * |lh| + 2 && (cut < 2 * |lh| + 2 ==> rebooted)
    }

    predicate Durable() { cut > |lh| }
  }

  ghost predicate ValidRun(lay: Layout, disksize: nat, run: seq<Txn>) {
    forall i :: 0 <= i < |run| ==> run[i].Valid(lay, disksize)
  }

  /** The disk after one transaction, however it ended. */
  ghost function Step(lay: Layout, d: seq<Block>, t: Txn): (r: seq<Block>)
    requires Idle(lay, d) && t.Valid(lay, |d|)
    ensures |r| == |d| && Idle(lay, r)
  {
    CrashAtomic(lay, d, t.lh, t.data, t.cut, t.cuts);
    if t.rebooted then Reboot(lay, CutCommit(lay, d, t.lh, t.data, t.cut), t.cuts)
    else
      AfterHead(lay, d, t.lh, t.data, t.cut);
      CutCommit(lay, d, t.lh, t.data, t.cut)
  }

  ghost function Execute(lay: Layout, d: seq<Block>, run: seq<Txn>): (r: seq<Block>)
    requires Idle(lay, d) && ValidRun(lay, |d|, run)
    ensures |r| == |d| && Idle(lay, r)
  {
    if run == [] then d
    else Step(lay, Execute(lay, d, run[..|run| - 1]), run[|run| - 1])
  }

  /** The reference: each transaction whose header reached the disk takes effect in one step. */
  ghost function Reference(d: seq<Block>, run: seq<Txn>): (r: seq<Block>)
    ensures |r| == |d|
  {
    if run == [] then d
    else
      var r, t := Reference(d, run[..|run| - 1]), run[|run| - 1];
      if t.Durable() && |t.lh| == |t.data| && InRange(Installs(t.lh, t.data), |d|)
      then Apply(r, Installs(t.lh, t.data)) else r
  }

  /** Over every history of transactions, crashes and interrupted recoveries the disk's homes are
      those of the atomic reference: nothing torn, nothing lost, nothing resurrected. */
  lemma {:induction false} HistoryAtomic(lay: Layout, d: seq<Block>, run: seq<Txn>)
    requires Idle(lay, d) && ValidRun(lay, |d|, run)
    ensures SameHomes(lay, Execute(lay, d, run), Reference(d, run))
  {
    if run != [] {
      var before, t := run[..|run| - 1], run[|run| - 1];
      HistoryAtomic(lay, d, before);
      var d1 := Execute(lay, d, before);
      CrashAtomic(lay, d1, t.lh, t.data, t.cut, t.cuts);
      if t.Durable() {
        AfterHead(lay, d1, t.lh, t.data, t.cut);
        InstallsOnHomes(lay, d1, Reference(d, before), Installs(t.lh, t.data));
      }
    }
  }
}
