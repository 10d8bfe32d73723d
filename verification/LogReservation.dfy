/** begin_op, log_write and end_op (log.c) as atomic steps of any number of concurrent operations.

    log_write tests the log's fullness before it takes log.lock, so its test and its append are two
    steps between which other operations may run. */
module LogReservation {
  import opened Blocks

  /** log.size, LOGSIZE and MAXOPBLOCKS. */
  datatype Config = Config(size: nat, logsize: nat, maxop: nat)

  /** An operation between begin_op and end_op: the distinct blocks it has logged so far, and the
      block number of a log_write that has passed its test and not yet appended. */
  datatype Op = Op(blocks: seq<nat>, pending: Option<nat>)

  /** lh.block[0..lh.n), the outstanding operations, and log.committing. */
  datatype State = State(lh: seq<nat>, ops: seq<Op>, committing: bool)

  datatype Step =
    | Begin
    | Check(op: nat, block: nat)
    | Append(op: nat, block: nat)
    | End(op: nat)
    | Committed

  const NEW_OP := Op([], None)
  const INIT := State([], [], false)

  /** log_write's list: a block already there is absorbed. */
  function Absorb(lh: seq<nat>, b: nat): seq<nat> {
    if b in lh then lh else lh + [b]
  }

  /** begin_op goes past its loop (log.c:130-138). */
  predicate Admits(cfg: Config, s: State) {
    !s.committing && |s.lh| + (|s.ops| + 1) * cfg.maxop <= cfg.logsize
  }

  /** The panic test at the head of log_write (log.c:218). */
  predicate Full(cfg: Config, s: State) {
    |s.lh| >= cfg.logsize || |s.lh| >= cfg.size - 1
  }

  /** What the callers promise: an operation logs at most MAXOPBLOCKS distinct blocks, one at a time. */
  predicate Attempt(cfg: Config, s: State, o: nat, b: nat) {
    o < |s.ops| && s.ops[o].pending.None? && |Absorb(s.ops[o].blocks, b)| <= cfg.maxop
  }

  /** The steps the code takes. A Check that finds the log full is a panic, not a step. */
  predicate Enabled(cfg: Config, s: State, t: Step) {
    match t
    case Begin => Admits(cfg, s)
    case Check(o, b) => Attempt(cfg, s, o, b) && !Full(cfg, s)
    case Append(o, b) => o < |s.ops| && s.ops[o].pending == Some(b)
    case End(o) => o < |s.ops| && s.ops[o].pending.None?
    case Committed => s.committing
  }

  function Next(s: State, t: Step): State {
    if !t.Begin? && !t.Committed? && t.op >= |s.ops| then s
    else match t
    case Begin => s.(ops := s.ops + [NEW_OP])
    case Check(o, b) => s.(ops := s.ops[o := s.ops[o].(pending := Some(b))])
    case Append(o, b) =>
      s.(lh := Absorb(s.lh, b), ops := s.ops[o := Op(Absorb(s.ops[o].blocks, b), None)])
    case End(o) =>
      var rest := s.ops[..o] + s.ops[o + 1..];
      if rest == [] then State(s.lh, rest, true) else s.(ops := rest)
    case Committed => State([], s.ops, false)
  }

  /** What end_op leaves: the other operations, and a commit if there are none. */
  lemma {:induction false} EndExact(s: State, o: nat, rest: seq<Op>)
    requires o < |s.ops| && !s.committing && rest == s.ops[..o] + s.ops[o + 1..]
    ensures |rest| == |s.ops| - 1 && Next(s, End(o)) == State(s.lh, rest, |rest| == 0)
    ensures |rest| == 0 ==> Next(Next(s, End(o)), Committed) == State([], rest, false)
  {
  }

  // ---------- runs ----------

  function After(run: seq<Step>): State {
    if run == [] then INIT else Next(After(run[..|run| - 1]), run[|run| - 1])
  }

  ghost predicate ValidRun(cfg: Config, run: seq<Step>) {
    forall k :: 0 <= k < |run| ==> Enabled(cfg, After(run[..k]), run[k])
  }

  ghost predicate Reachable(cfg: Config, s: State) {
    exists run :: ValidRun(cfg, run) && After(run) == s
  }

  lemma {:induction false} Extend(cfg: Config, s: State, t: Step)
    requires Reachable(cfg, s) && Enabled(cfg, s, t)
    ensures Reachable(cfg, Next(s, t))
  {
    var run :| ValidRun(cfg, run) && After(run) == s;
    var run' := run + [t];
    assert run'[..|run|] == run;
    forall k | 0 <= k < |run'| ensures Enabled(cfg, After(run'[..k]), run'[k]) {
      if k < |run| {
        assert run'[..k] == run[..k];
      }
    }
    assert ValidRun(cfg, run') && After(run') == Next(s, t);
  }

  // ---------- the reservation invariant ----------

  /** Blocks an operation may still log. */
  function Left(cfg: Config, o: Op): int {
    cfg.maxop - |o.blocks|
  }

  /** Unused reservations of the outstanding operations. */
  function Unused(cfg: Config, ops: seq<Op>): int {
    if ops == [] then 0 else Left(cfg, ops[|ops| - 1]) + Unused(cfg, ops[..|ops| - 1])
  }

  lemma {:induction false} UnusedUpdate(cfg: Config, ops: seq<Op>, i: nat, r: Op)
    requires i < |ops|
    ensures Unused(cfg, ops[i := r]) == Unused(cfg, ops) - Left(cfg, ops[i]) + Left(cfg, r)
  {
    var n := |ops| - 1;
    if i < n {
      UnusedUpdate(cfg, ops[..n], i, r);
      assert ops[i := r][..n] == ops[..n][i := r];
    } else {
      assert ops[i := r][..n] == ops[..n];
    }
  }

  lemma {:induction false} UnusedRemove(cfg: Config, ops: seq<Op>, i: nat)
    requires i < |ops|
    ensures Unused(cfg, ops[..i] + ops[i + 1..]) == Unused(cfg, ops) - Left(cfg, ops[i])
  {
    var n := |ops| - 1;
    var rest := ops[..i] + ops[i + 1..];
    if i < n {
      UnusedRemove(cfg, ops[..n], i);
      assert rest[..n - 1] == ops[..n][..i] + ops[..n][i + 1..];
    } else {
      assert rest == ops[..n];
    }
  }

  lemma {:induction false} UnusedBound(cfg: Config, ops: seq<Op>)
    requires forall o :: 0 <= o < |ops| ==> |ops[o].blocks| <= cfg.maxop
    ensures 0 <= Unused(cfg, ops) <= |ops| * cfg.maxop
    ensures forall o :: 0 <= o < |ops| ==> Left(cfg, ops[o]) <= Unused(cfg, ops)
  {
    if ops != [] {
      var n := |ops| - 1;
      UnusedBound(cfg, ops[..n]);
      MulStep(n, cfg.maxop);
      forall o | 0 <= o < |ops| ensures Left(cfg, ops[o]) <= Unused(cfg, ops) {
        assert o < n ==> ops[o] == ops[..n][o];
      }
    }
  }

  lemma {:induction false} MulStep(n: nat, m: nat)
    ensures (n + 1) * m == n * m + m && n * m >= 0 && (n > 0 ==> n * m >= m)
  {
    if n > 0 {
      assert n * m == (n - 1) * m + m;
    }
  }

  /** The most blocks that can ever be in the log at once. */
  function Peak(cfg: Config): nat {
    if cfg.maxop == 0 || cfg.logsize < cfg.maxop then 0
    else if cfg.logsize < 2 * cfg.maxop then cfg.maxop
    else cfg.logsize
  }

  predicate OpOk(cfg: Config, s: State, o: Op) {
    && |o.blocks| <= cfg.maxop
    && (o.pending.Some? ==> |Absorb(o.blocks, o.pending.value)| <= cfg.maxop)
    && forall b :: b in o.blocks ==> b in s.lh
  }

  ghost predicate Inv(cfg: Config, s: State) {
    && |s.lh| + Unused(cfg, s.ops) <= Peak(cfg)
    && (forall i, j :: 0 <= i < j < |s.lh| ==> s.lh[i] != s.lh[j])
    && (s.committing ==> s.ops == [])
    && (!s.committing && s.ops == [] ==> s.lh == [])
    && (forall o :: 0 <= o < |s.ops| ==> OpOk(cfg, s, s.ops[o]))
    && (cfg.logsize < 2 * cfg.maxop ==> |s.ops| <= 1)
  }

  lemma {:induction false} BeginRoom(cfg: Config, len: nat, n: nat, unused: nat)
    requires len + (n + 1) * cfg.maxop <= cfg.logsize && unused <= n * cfg.maxop && (n == 0 ==> len == 0)
    requires len + unused <= Peak(cfg)
    ensures len + unused + cfg.maxop <= Peak(cfg)
    ensures cfg.logsize < 2 * cfg.maxop ==> n == 0
  {
    MulStep(n, cfg.maxop);
    if cfg.maxop == 0 {
      assert n * cfg.maxop == 0;
    }
  }

  lemma {:induction false} BeginKeepsInv(cfg: Config, s: State)
    requires Inv(cfg, s) && Admits(cfg, s)
    ensures Inv(cfg, Next(s, Begin))
  {
    UnusedBound(cfg, s.ops);
    BeginRoom(cfg, |s.lh|, |s.ops|, Unused(cfg, s.ops));
    assert (s.ops + [NEW_OP])[..|s.ops|] == s.ops;
  }

  lemma {:induction false} AppendKeepsInv(cfg: Config, s: State, o: nat, b: nat)
    requires Inv(cfg, s) && Enabled(cfg, s, Append(o, b))
    ensures Inv(cfg, Next(s, Append(o, b)))
  {
    UnusedUpdate(cfg, s.ops, o, Op(Absorb(s.ops[o].blocks, b), None));
    assert OpOk(cfg, s, s.ops[o]);
  }

  lemma {:induction false} EndKeepsInv(cfg: Config, s: State, o: nat)
    requires Inv(cfg, s) && Enabled(cfg, s, End(o))
    ensures Inv(cfg, Next(s, End(o)))
  {
    UnusedRemove(cfg, s.ops, o);
    assert OpOk(cfg, s, s.ops[o]);
    var rest := s.ops[..o] + s.ops[o + 1..];
    forall p | 0 <= p < |rest| ensures OpOk(cfg, s, rest[p]) {
      assert rest[p] == s.ops[if p < o then p else p + 1];
    }
  }

  /** Every step of every operation keeps the reservation. */
  lemma {:induction false} StepKeepsInv(cfg: Config, s: State, t: Step)
    requires Inv(cfg, s) && Enabled(cfg, s, t)
    ensures Inv(cfg, Next(s, t))
  {
    match t
    case Begin => BeginKeepsInv(cfg, s);
    case Check(o, b) => UnusedUpdate(cfg, s.ops, o, s.ops[o].(pending := Some(b)));
    case Append(o, b) => AppendKeepsInv(cfg, s, o, b);
    case End(o) => EndKeepsInv(cfg, s, o);
    case Committed =>
  }

  lemma {:induction false} RunKeepsInv(cfg: Config, run: seq<Step>)
    requires ValidRun(cfg, run)
    ensures Inv(cfg, After(run))
  {
    if run != [] {
      var before := run[..|run| - 1];
      forall k | 0 <= k < |before| ensures Enabled(cfg, After(before[..k]), before[k]) {
        assert before[..k] == run[..k];
      }
      RunKeepsInv(cfg, before);
      StepKeepsInv(cfg, After(before), run[|run| - 1]);
    }
  }

  /** Over all interleavings: the log holds distinct blocks, its length plus all unused reservations
      fits LOGSIZE, nothing is outstanding during a commit (so end_op's panic is unreachable), and an
      append never runs off the end of lh.block[]. */
  lemma {:induction false} ReservationSafe(cfg: Config, s: State)
    requires Reachable(cfg, s)
    ensures |s.lh| + Unused(cfg, s.ops) <= cfg.logsize && 0 <= Unused(cfg, s.ops)
    ensures forall i, j :: 0 <= i < j < |s.lh| ==> s.lh[i] != s.lh[j]
    ensures s.committing ==> s.ops == []
    ensures forall o, b :: 0 <= o < |s.ops| && s.ops[o].pending == Some(b) && b !in s.lh ==> |s.lh| < cfg.logsize
  {
    var run :| ValidRun(cfg, run) && After(run) == s;
    RunKeepsInv(cfg, run);
    UnusedBound(cfg, s.ops);
    forall o, b | 0 <= o < |s.ops| && s.ops[o].pending == Some(b) && b !in s.lh ensures |s.lh| < cfg.logsize {
      AppendKeepsInv(cfg, s, o, b);
      UnusedBound(cfg, Next(s, Append(o, b)).ops);
    }
  }

  // ---------- when log_write's guard can fire ----------

  /** No first write of a block by an operation is ever answered with "too big a transaction". */
  ghost predicate FirstWritesSafe(cfg: Config) {
    forall s, o: nat, b: nat :: Reachable(cfg, s) && Attempt(cfg, s, o, b) && b !in s.ops[o].blocks ==> !Full(cfg, s)
  }

  /** No write at all is. */
  ghost predicate AllWritesSafe(cfg: Config) {
    forall s, o: nat, b: nat :: Reachable(cfg, s) && Attempt(cfg, s, o, b) ==> !Full(cfg, s)
  }

  lemma {:induction false} AttemptBelowPeak(cfg: Config, s: State, o: nat, b: nat)
    requires Reachable(cfg, s) && Attempt(cfg, s, o, b)
    ensures |s.lh| <= Peak(cfg) && 0 < Peak(cfg) && (b !in s.ops[o].blocks ==> |s.lh| < Peak(cfg))
  {
    var run :| ValidRun(cfg, run) && After(run) == s;
    RunKeepsInv(cfg, run);
    UnusedBound(cfg, s.ops);
    assert OpOk(cfg, s, s.ops[o]);
    if b in s.ops[o].blocks {
      assert b in s.lh;
    }
  }

  // A schedule that fills the log: one long-running operation keeps the transaction open while short
  // operations come and go, then two operations use up their reservations.

  function Interval(a: nat, b: nat): (r: seq<nat>)
    ensures forall x :: x in r <==> a <= x < b
  {
    if a >= b then [] else Interval(a, b - 1) + [b - 1]
  }

  lemma {:induction false} IntervalSize(a: nat, b: nat)
    requires a <= b
    ensures |Interval(a, b)| == b - a
    decreases b
  {
    if a < b {
      IntervalSize(a, b - 1);
    }
  }

  predicate Usable(cfg: Config) {
    1 <= cfg.maxop <= cfg.logsize
  }

  /** The operation that logs block n of the schedule. */
  function Writer(cfg: Config, n: nat): nat {
    if cfg.logsize < 2 * cfg.maxop || n < cfg.logsize - cfg.maxop then 0 else 1
  }

  /** What the long-running operation has logged when n blocks are in the log. */
  function First(cfg: Config, n: nat): seq<nat>
    requires Usable(cfg)
  {
    if cfg.logsize < 2 * cfg.maxop then Interval(0, n)
    else Interval(cfg.logsize - 2 * cfg.maxop, if n < cfg.logsize - cfg.maxop then n else cfg.logsize - cfg.maxop)
  }

  /** The state of the schedule when n blocks are in the log. */
  function Filled(cfg: Config, n: nat): State
    requires Usable(cfg) && n <= Peak(cfg)
  {
    var first := Op(First(cfg, n), None);
    State(Interval(0, n),
          if cfg.logsize < 2 * cfg.maxop || n < cfg.logsize - 2 * cfg.maxop then [first]
          else [first, Op(Interval(cfg.logsize - cfg.maxop, n), None)],
          false)
  }

  /** One log_write of a new block, both its steps. */
  lemma {:induction false} LogOne(cfg: Config, s: State, o: nat, b: nat)
    requires Reachable(cfg, s) && Attempt(cfg, s, o, b) && !Full(cfg, s) && b !in s.lh && b !in s.ops[o].blocks
    ensures Reachable(cfg, s.(lh := s.lh + [b], ops := s.ops[o := Op(s.ops[o].blocks + [b], None)]))
  {
    Extend(cfg, s, Check(o, b));
    var s1 := Next(s, Check(o, b));
    Extend(cfg, s1, Append(o, b));
    assert Next(s1, Append(o, b)).ops == s.ops[o := Op(s.ops[o].blocks + [b], None)];
  }

  lemma {:induction false} FilledAttempt(cfg: Config, n: nat)
    requires Usable(cfg) && n < Peak(cfg)
    ensures Attempt(cfg, Filled(cfg, n), Writer(cfg, n), n) && n !in Filled(cfg, n).ops[Writer(cfg, n)].blocks
  {
    var a := if cfg.logsize < 2 * cfg.maxop then 0
             else if n < cfg.logsize - cfg.maxop then cfg.logsize - 2 * cfg.maxop else cfg.logsize - cfg.maxop;
    assert Filled(cfg, n).ops[Writer(cfg, n)].blocks == Interval(a, n);
    if a <= n {
      IntervalSize(a, n);
    }
  }

  lemma {:induction false} OpenSecond(cfg: Config, s: State)
    requires Reachable(cfg, s) && |s.ops| == 1 && !s.committing
    requires |s.lh| + 2 * cfg.maxop <= cfg.logsize
    ensures Reachable(cfg, s.(ops := s.ops + [NEW_OP]))
  {
    assert (|s.ops| + 1) * cfg.maxop == 2 * cfg.maxop;
    Extend(cfg, s, Begin);
  }

  lemma {:induction false} FilledStart(cfg: Config)
    requires Usable(cfg)
    ensures Reachable(cfg, Filled(cfg, 0))
  {
    assert ValidRun(cfg, []) && After([]) == INIT;
    assert Reachable(cfg, INIT);
    Extend(cfg, INIT, Begin);
    var s := Next(INIT, Begin);
    if cfg.logsize == 2 * cfg.maxop {
      OpenSecond(cfg, s);
      assert s.ops + [NEW_OP] == [NEW_OP, NEW_OP];
    }
  }

  /** Below the two final reservations: a short operation logs one block and ends. */
  lemma {:induction false} ShortOp(cfg: Config, s: State, n: nat)
    requires Usable(cfg) && Reachable(cfg, s) && |s.ops| == 1 && !s.committing
    requires !Full(cfg, s) && |s.lh| + 2 * cfg.maxop <= cfg.logsize && n !in s.lh
    ensures Reachable(cfg, s.(lh := s.lh + [n]))
  {
    OpenSecond(cfg, s);
    var s1 := s.(ops := s.ops + [NEW_OP]);
    LogOne(cfg, s1, 1, n);
    var s2 := s1.(lh := s1.lh + [n], ops := s1.ops[1 := Op(NEW_OP.blocks + [n], None)]);
    Extend(cfg, s2, End(1));
    assert s2.ops[..1] + s2.ops[2..] == s.ops;
  }

  lemma {:induction false} FilledEarly(cfg: Config, n: nat)
    requires Usable(cfg) && n < cfg.logsize - 2 * cfg.maxop && n < cfg.size - 1
    requires Reachable(cfg, Filled(cfg, n))
    ensures Reachable(cfg, Filled(cfg, n + 1))
  {
    IntervalSize(0, n);
    IntervalSize(0, n + 1);
    var s := Filled(cfg, n);
    ShortOp(cfg, s, n);
    var s' := s.(lh := s.lh + [n]);
    if n + 1 == cfg.logsize - 2 * cfg.maxop {
      OpenSecond(cfg, s');
      assert s'.ops + [NEW_OP] == Filled(cfg, n + 1).ops;
    }
  }

  lemma {:induction false} FilledLate(cfg: Config, n: nat)
    requires Usable(cfg) && cfg.logsize - 2 * cfg.maxop <= n < Peak(cfg) && n < cfg.size - 1
    requires Reachable(cfg, Filled(cfg, n))
    ensures Reachable(cfg, Filled(cfg, n + 1))
  {
    FilledAttempt(cfg, n);
    IntervalSize(0, n);
    LogOne(cfg, Filled(cfg, n), Writer(cfg, n), n);
    FilledNext(cfg, n);
  }

  lemma {:induction false} FilledNext(cfg: Config, n: nat)
    requires Usable(cfg) && cfg.logsize - 2 * cfg.maxop <= n < Peak(cfg)
    ensures var s, o := Filled(cfg, n), Writer(cfg, n);
            && o < |s.ops|
            && Filled(cfg, n + 1) == s.(lh := s.lh + [n], ops := s.ops[o := Op(s.ops[o].blocks + [n], None)])
  {
    var a, b := cfg.logsize - 2 * cfg.maxop, cfg.logsize - cfg.maxop;
    if cfg.logsize >= 2 * cfg.maxop {
      if n < b {
        assert First(cfg, n + 1) == First(cfg, n) + [n];
        assert Interval(b, n + 1) == Interval(b, n) == [];
      } else {
        assert First(cfg, n + 1) == First(cfg, n);
        assert Interval(b, n + 1) == Interval(b, n) + [n];
      }
    }
  }

  lemma {:induction false} FilledReachable(cfg: Config, n: nat)
    requires Usable(cfg) && n <= Peak(cfg) && (n == 0 || n < cfg.size)
    ensures Reachable(cfg, Filled(cfg, n))
  {
    if n == 0 {
      FilledStart(cfg);
    } else {
      FilledReachable(cfg, n - 1);
      if n - 1 < cfg.logsize - 2 * cfg.maxop {
        FilledEarly(cfg, n - 1);
      } else {
        FilledLate(cfg, n - 1);
      }
    }
  }

  /** The guard never refuses a first write exactly when the on-disk log can hold the peak. */
  lemma {:induction false} FirstWritesExact(cfg: Config)
    ensures FirstWritesSafe(cfg) <==> Peak(cfg) == 0 || Peak(cfg) < cfg.size
  {
    if Peak(cfg) == 0 || Peak(cfg) < cfg.size {
      forall s, o: nat, b: nat | Reachable(cfg, s) && Attempt(cfg, s, o, b)
        && b !in s.ops[o].blocks ensures !Full(cfg, s) {
        AttemptBelowPeak(cfg, s, o, b);
      }
    } else {
      var n := if cfg.size == 0 then 0 else cfg.size - 1;
      FilledReachable(cfg, n);
      FilledAttempt(cfg, n);
      IntervalSize(0, n);
      assert Full(cfg, Filled(cfg, n));
    }
  }

  /** At the peak, the long-running operation writes one of its blocks again. */
  lemma {:induction false} FilledRelog(cfg: Config)
    requires Usable(cfg)
    ensures |Filled(cfg, Peak(cfg)).lh| == Peak(cfg)
    ensures Attempt(cfg, Filled(cfg, Peak(cfg)), 0, if cfg.logsize < 2 * cfg.maxop then 0
              else cfg.logsize - 2 * cfg.maxop)
  {
    var b := if cfg.logsize < 2 * cfg.maxop then 0 else cfg.logsize - 2 * cfg.maxop;
    assert Filled(cfg, Peak(cfg)).ops[0].blocks == Interval(b, b + cfg.maxop);
    IntervalSize(b, b + cfg.maxop);
    IntervalSize(0, Peak(cfg));
  }

  /** Because the guard comes before the absorption test, it also refuses a block the operation has
      already logged whenever the log is full, which every configuration with room for two
      operations can reach. */
  lemma {:induction false} AllWritesExact(cfg: Config)
    ensures AllWritesSafe(cfg) <==> Peak(cfg) == 0 || (Peak(cfg) < cfg.logsize && Peak(cfg) + 1 < cfg.size)
  {
    var p := Peak(cfg);
    if p == 0 || (p < cfg.logsize && p + 1 < cfg.size) {
      forall s, o: nat, b: nat | Reachable(cfg, s) && Attempt(cfg, s, o, b) ensures !Full(cfg, s) {
        AttemptBelowPeak(cfg, s, o, b);
      }
    } else if p < cfg.size {
      FilledReachable(cfg, p);
      FilledRelog(cfg);
    } else {
      FirstWritesExact(cfg);
    }
  }

  /** param.h and mkfs.c ship LOGSIZE = nlog = 30 and MAXOPBLOCKS = 10: operations that keep their promise can
      still panic the kernel, with a first write and with a repeated one. */
  lemma {:induction false} ShippedConfiguration()
    ensures !FirstWritesSafe(Config(30, 30, 10)) && !AllWritesSafe(Config(30, 30, 10))
    ensures FirstWritesSafe(Config(31, 30, 10)) && !AllWritesSafe(Config(32, 30, 10))
  {
    FirstWritesExact(Config(30, 30, 10));
    AllWritesExact(Config(30, 30, 10));
    FirstWritesExact(Config(31, 30, 10));
    AllWritesExact(Config(32, 30, 10));
  }
}
