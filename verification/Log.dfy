/** The in-memory side of the log (log.c): log_write, commit and recovery running over the cache. */
module Log {
  import opened Blocks
  import opened BufferCache
  import opened CrashRecovery
  import LogReservation

  // ---------- the cache between operations ----------

  ghost predicate Distinct(s: seq<nat>) {
    forall i, j :: 0 <= i < j < |s| ==> s[i] != s[j]
  }

  /** Exactly the blocks of `pins` are dirty, and each of them is cached. */
  ghost predicate Pinned(c: Cache, pins: seq<nat>) {
    && (forall i :: 0 <= i < |c.bufs| && c.bufs[i].dirty ==> c.bufs[i].blockno in pins)
    && (forall b :: b in pins ==> exists i :: 0 <= i < |c.bufs| && c.bufs[i].Holds(b) && c.bufs[i].dirty)
  }

  ghost predicate Quiet(c: Cache) {
    forall i :: 0 <= i < |c.bufs| ==> c.bufs[i].refcnt == 0
  }

  /** No buffer is held, and the pinned ones are those of `pins`. */
  ghost predicate Settled(c: Cache, pins: seq<nat>) {
    Inv(c) && Quiet(c) && Pinned(c, pins)
  }

  /** With no holders, an unpinned block has the same content in the cache and on disk. */
  lemma CleanAgrees(c: Cache, pins: seq<nat>, x: nat)
    requires Settled(c, pins) && x < |c.disk| && x !in pins
    ensures Latest(c, x) == c.disk[x]
  {
    if Cached(c, x) {
      var i := Slot(c, x);
      assert !c.bufs[i].dirty;
    }
  }

  // ---------- enough buffers ----------

  ghost function BlocksOf(bufs: seq<Buf>): (s: set<nat>) {
    set i | 0 <= i < |bufs| :: bufs[i].blockno
  }

  lemma {:induction false} DistinctBlocks(bufs: seq<Buf>)
    requires forall i, j :: 0 <= i < j < |bufs| ==> bufs[i].blockno != bufs[j].blockno
    ensures |BlocksOf(bufs)| == |bufs|
  {
    if bufs != [] {
      var n := |bufs| - 1;
      DistinctBlocks(bufs[..n]);
      assert BlocksOf(bufs) == BlocksOf(bufs[..n]) + {bufs[n].blockno};
      assert bufs[n].blockno !in BlocksOf(bufs[..n]);
    }
  }

  /** Fewer busy blocks than buffers leaves a buffer to recycle. */
  lemma SomeIdle(c: Cache, busy: set<nat>)
    requires Inv(c) && |busy| < |c.bufs|
    requires forall i :: 0 <= i < |c.bufs| && c.bufs[i].Busy() ==> c.bufs[i].blockno in busy
    ensures exists i :: 0 <= i < |c.bufs| && !c.bufs[i].Busy()
  {
    if forall i :: 0 <= i < |c.bufs| ==> c.bufs[i].Busy() {
      forall i, j | 0 <= i < j < |c.bufs| ensures c.bufs[i].blockno != c.bufs[j].blockno {
        assert c.bufs[i].Busy() && c.bufs[j].Busy();
      }
      DistinctBlocks(c.bufs);
      SubsetSize(BlocksOf(c.bufs), busy);
      assert false;
    }
  }

  ghost function Elements(s: seq<nat>): set<nat> {
    set i | 0 <= i < |s| :: s[i]
  }

  lemma {:induction false} ElementsSize(s: seq<nat>)
    ensures |Elements(s)| <= |s|
  {
    if s != [] {
      ElementsSize(s[1..]);
      assert Elements(s) == Elements(s[1..]) + {s[0]};
    }
  }

  // ---------- reading a log block and a home block together ----------

  /** c' is c with log block a in buffer i and block b in buffer j, both locked. */
  ghost predicate BothHeld(c: Cache, c': Cache, pins: seq<nat>, a: nat, b: nat, i: nat, j: nat) {
    && a < |c.disk| && b < |c.disk| && i < |c.bufs| && j < |c.bufs| && i != j
    && c' == c.(bufs := c'.bufs) && |c'.bufs| == |c.bufs|
    && (forall k :: 0 <= k < |c.bufs| && k != i && k != j ==> c'.bufs[k] == c.bufs[k])
    && c'.bufs[i] == Buf(true, false, DISK_DEV, a, true, 1, Latest(c, a))
    && c'.bufs[j] == Buf(true, b in pins, DISK_DEV, b, true, 1, Latest(c, b))
    && (forall k :: 0 <= k < |c.bufs| && k != i && k != j && c.bufs[k].dev != 0 ==>
           !c.bufs[k].Holds(a) && !c.bufs[k].Holds(b))
    && !c.bufs[i].dirty && (c.bufs[j].dirty ==> c.bufs[j].Holds(b))
  }

  /** c' is c with block a in buffer i, locked. */
  ghost predicate OneHeld(c: Cache, c': Cache, a: nat, i: nat) {
    && a < |c.disk| && i < |c.bufs|
    && c' == c.(bufs := c.bufs[i := Buf(true, false, DISK_DEV, a, true, 1, Latest(c, a))])
    && !c.bufs[i].dirty && Inv(c')
    && (forall k :: 0 <= k < |c.bufs| && k != i ==> !c.bufs[k].Holds(a))
  }

  /** The first bread of write_log and install_trans finds a buffer: no "bget: no buffers". */
  lemma FirstRead(c: Cache, pins: seq<nat>, a: nat, b: nat)
    requires Settled(c, pins) && a < |c.disk| && b < |c.disk| && a != b && a !in pins
    requires |pins| < |c.bufs|
    ensures Unlocked(c, a) && Read(c, a).Some?
    ensures var (c1, i) := Read(c, a).value;
            OneHeld(c, c1, a, i) && Unlocked(c1, b) && Latest(c1, b) == Latest(c, b)
  {
    ReadCorrect(c, a);
    ElementsSize(pins);
    if Read(c, a).None? {
      SomeIdle(c, Elements(pins));
      assert false;
    }
    var (c1, i) := Read(c, a).value;
    if Cached(c, a) {
      assert c.bufs[i].Holds(a);
    }
    assert !c.bufs[i].dirty;
    forall k | 0 <= k < |c.bufs| && k != i ensures !c.bufs[k].Holds(a) {
      assert c1.bufs[i].Holds(a) && c1.bufs[k] == c.bufs[k];
    }
    assert c1.bufs[i] == Buf(true, false, DISK_DEV, a, true, 1, Latest(c, a));
  }

  /** So does the second, a hit when the block is pinned. */
  lemma SecondReadFinds(c: Cache, c1: Cache, pins: seq<nat>, a: nat, b: nat, i: nat)
    requires Settled(c, pins) && OneHeld(c, c1, a, i) && Unlocked(c1, b)
    requires b < |c.disk| && a != b && a !in pins
    requires b in pins || |pins| + 1 < |c.bufs|
    ensures Read(c1, b).Some?
  {
    if b in pins {
      var k :| 0 <= k < |c.bufs| && c.bufs[k].Holds(b) && c.bufs[k].dirty;
      assert c1.bufs[k].Holds(b);
    } else {
      ReadCorrect(c1, b);
      ElementsSize(pins);
      SomeIdle(c1, Elements(pins) + {a});
    }
  }

  lemma SecondRead(c: Cache, c1: Cache, pins: seq<nat>, a: nat, b: nat, i: nat)
    requires Settled(c, pins) && OneHeld(c, c1, a, i) && Unlocked(c1, b)
    requires b < |c.disk| && a != b && a !in pins && Read(c1, b).Some? && Latest(c1, b) == Latest(c, b)
    ensures BothHeld(c, Read(c1, b).value.0, pins, a, b, i, Read(c1, b).value.1) && Inv(Read(c1, b).value.0)
  {
    ReadCorrect(c1, b);
    var (c2, j) := Read(c1, b).value;
    assert Inv(c2) && c2.bufs[j].Holds(b);
    assert j != i && j < |c.bufs|;
    if Cached(c1, b) {
      assert c1.bufs[j] == c.bufs[j] && c.bufs[j].Holds(b);
    } else {
      forall k | 0 <= k < |c.bufs| ensures !(c.bufs[k].Holds(b) && c.bufs[k].dirty) {
        assert !c1.bufs[k].Holds(b);
      }
    }
    assert c2.bufs[j].dirty <==> b in pins;
    forall k | 0 <= k < |c.bufs| && k != i && k != j ensures !c.bufs[k].Holds(b) && !c.bufs[k].Holds(a) {
      assert c2.bufs[j].Holds(b) && c2.bufs[k] == c1.bufs[k] == c.bufs[k];
    }
    assert c2.bufs[i] == c1.bufs[i];
    assert c2.bufs[j] == Buf(true, b in pins, DISK_DEV, b, true, 1, Latest(c, b));
  }

  // ---------- copying one block through the cache ----------

  /** The disk received block d for b; every block's content is as before, except that b holds d. */
  ghost predicate Copied(c: Cache, c': Cache, b: nat, d: Block) {
    && b < |c.disk| && c'.disk == c.disk[b := d] && c'.trace == c.trace + [Write(b, d)]
    && |c'.bufs| == |c.bufs|
    && (forall x: nat :: x < |c.disk| ==> Latest(c', x) == if x == b then d else Latest(c, x))
  }

  /** Both buffers released again after one of them, holding `dst`, was overwritten and written out. */
  ghost predicate BothReleased(c: Cache, c': Cache, pins: seq<nat>, a: nat, b: nat, i: nat, j: nat, toLog: bool) {
    && a < |c.disk| && b < |c.disk| && i < |c.bufs| && j < |c.bufs| && i != j
    && |c'.bufs| == |c.bufs| && |c'.order| == |c.order| && Permutation(c'.order)
    && (forall k :: 0 <= k < |c.bufs| && k != i && k != j ==>
          c'.bufs[k] == c.bufs[k] && !c.bufs[k].Holds(a) && !c.bufs[k].Holds(b))
    && var d := if toLog then Latest(c, b) else Latest(c, a);
    && c'.bufs[i] == Buf(true, false, DISK_DEV, a, false, 0, d)
    && c'.bufs[j] == Buf(true, toLog && b in pins, DISK_DEV, b, false, 0, d)
    && c'.disk == c.disk[if toLog then a else b := d]
    && c'.trace == c.trace + [Write(if toLog then a else b, d)]
    && !c.bufs[i].dirty && (c.bufs[j].dirty ==> c.bufs[j].Holds(b))
  }

  /** Releasing keeps the cache settled: a copy into the log keeps every pin, a copy home unpins. */
  lemma SettledAgain(c: Cache, c': Cache, pins: seq<nat>, pins': seq<nat>, a: nat, b: nat, i: nat, j: nat, toLog: bool)
    requires Settled(c, pins) && a != b && a !in pins
    requires BothReleased(c, c', pins, a, b, i, j, toLog)
    requires toLog ==> b in pins && pins' == pins
    requires !toLog ==> b !in pins' && forall x :: x in pins' <==> x in pins && x != b
    ensures Settled(c', pins')
    ensures Copied(c, c', if toLog then a else b, if toLog then Latest(c, b) else Latest(c, a))
  {
    assert Inv(c');
    forall x | x in pins' ensures exists k :: 0 <= k < |c'.bufs| && c'.bufs[k].Holds(x) && c'.bufs[k].dirty {
      var k :| 0 <= k < |c.bufs| && c.bufs[k].Holds(x) && c.bufs[k].dirty;
      if x == b {
        assert c'.bufs[j].Holds(x) && c'.bufs[j].dirty;
      } else {
        assert k != i && k != j;
        assert c'.bufs[k].Holds(x) && c'.bufs[k].dirty;
      }
    }
    forall x: nat | x < |c.disk| ensures
      Latest(c', x) == if x == (if toLog then a else b) then (if toLog then Latest(c, b) else Latest(c, a))
          else Latest(c, x)
    {
      LatestAt(c', i);
      LatestAt(c', j);
      if x != a && x != b {
        LatestElsewhere(c, c', i, j, x);
      }
    }
  }

  /** Blocks in neither buffer keep their content. */
  lemma LatestElsewhere(c: Cache, c': Cache, i: nat, j: nat, x: nat)
    requires Inv(c) && Inv(c') && Quiet(c) && i < |c.bufs| && j < |c.bufs| && |c'.bufs| == |c.bufs|
             && |c'.disk| == |c.disk|
    requires x < |c.disk| && c'.disk[x] == c.disk[x]
    requires forall k :: 0 <= k < |c.bufs| && k != i && k != j ==> c'.bufs[k] == c.bufs[k]
    requires c'.bufs[i].dev != 0 && c'.bufs[i].blockno != x && c'.bufs[j].dev != 0 && c'.bufs[j].blockno != x
    requires c.bufs[i].Holds(x) ==> !c.bufs[i].dirty
    requires c.bufs[j].Holds(x) ==> !c.bufs[j].dirty
    ensures Latest(c', x) == Latest(c, x)
  {
    if Cached(c', x) {
      var k := Slot(c', x);
      assert k != i && k != j;
      LatestAt(c', k);
      LatestAt(c, k);
    } else if Cached(c, x) {
      var k := Slot(c, x);
      assert !c'.bufs[k].Holds(x);
      LatestAt(c, k);
    }
  }

  lemma {:induction false} ReleaseLast(c: Cache, i: nat)
    requires |c.bufs| == |c.order| && Permutation(c.order) && i < |c.bufs| && c.bufs[i].refcnt == 1
    ensures i in c.order && Permutation(Release(c, i).order) && |Release(c, i).order| == |c.order|
    ensures Release(c, i) == c.(bufs := c.bufs[i := c.bufs[i].(locked := false, refcnt := 0)],
                                order := Release(c, i).order)
  {
    assert i in c.order;
    ToFrontPermutation(c.order, IndexIn(c.order, i));
  }

  /** memmove into buffer x, bwrite it, and release both buffers, `first` before `second`. */
  ghost function CopyAndRelease(c: Cache, x: nat, d: Block, first: nat, second: nat): Cache
    requires |c.bufs| == |c.order| && Permutation(c.order) && x < |c.bufs| && c.bufs[x].blockno < |c.disk|
    requires first < |c.bufs| && second < |c.bufs| && first != second
    requires c.bufs[first].refcnt == 1 && c.bufs[second].refcnt == 1
  {
    var c1 := WriteBack(SetData(c, x, d), x);
    ReleaseLast(c1, first);
    ReleaseLast(Release(c1, first), second);
    Release(Release(c1, first), second)
  }

  function Freed(b: Buf): Buf {
    b.(locked := false, refcnt := 0)
  }

  lemma {:induction false} ReleaseTwo(c: Cache, first: nat, second: nat)
    requires |c.bufs| == |c.order| && Permutation(c.order) && first < |c.bufs| && second < |c.bufs| && first != second
    requires c.bufs[first].refcnt == 1 && c.bufs[second].refcnt == 1
    ensures first in c.order && second in Release(c, first).order
    ensures var r := Release(Release(c, first), second);
            && Permutation(r.order) && |r.order| == |c.order|
            && r.bufs == c.bufs[first := Freed(c.bufs[first])][second := Freed(c.bufs[second])]
            && r.disk == c.disk && r.trace == c.trace
  {
    ReleaseLast(c, first);
    ReleaseLast(Release(c, first), second);
  }

  /** What CopyAndRelease does to the buffers, to the disk and to the list. */
  lemma {:induction false} CopyEffect(c: Cache, x: nat, d: Block, first: nat, second: nat)
    requires |c.bufs| == |c.order| && Permutation(c.order) && first < |c.bufs| && second < |c.bufs| && first != second
    requires x == first || x == second
    requires c.bufs[x].blockno < |c.disk| && c.bufs[first].refcnt == 1 && c.bufs[second].refcnt == 1
    ensures var r := CopyAndRelease(c, x, d, first, second);
            var bufs := c.bufs[x := c.bufs[x].(data := d, dirty := false, valid := true)];
            && Permutation(r.order) && |r.order| == |c.order|
            && r.bufs == bufs[first := Freed(bufs[first])][second := Freed(bufs[second])]
            && r.disk == c.disk[c.bufs[x].blockno := d] && r.trace == c.trace + [Write(c.bufs[x].blockno, d)]
  {
    var c1 := WriteBack(SetData(c, x, d), x);
    assert c1.bufs == c.bufs[x := c.bufs[x].(data := d, dirty := false, valid := true)];
    ReleaseTwo(c1, first, second);
  }

  lemma {:induction false} Releases(c: Cache, c2: Cache, r: Cache, pins: seq<nat>, a: nat, b: nat, i: nat, j: nat,
                                    toLog: bool, d: Block)
    requires BothHeld(c, c2, pins, a, b, i, j) && d == if toLog then Latest(c, b) else Latest(c, a)
    requires |r.bufs| == |c.bufs| && |r.order| == |c.order| && Permutation(r.order)
    requires r.bufs[i] == Buf(true, false, DISK_DEV, a, false, 0, d)
    requires r.bufs[j] == Buf(true, toLog && b in pins, DISK_DEV, b, false, 0, d)
    requires forall k :: 0 <= k < |c.bufs| && k != i && k != j ==> r.bufs[k] == c2.bufs[k]
    requires r.disk == c.disk[if toLog then a else b := d] && r.trace == c.trace + [Write(if toLog then a else b, d)]
    requires forall k :: 0 <= k < |c.bufs| && c.bufs[k].dev == 0 ==> !c.bufs[k].Holds(a) && !c.bufs[k].Holds(b)
    ensures BothReleased(c, r, pins, a, b, i, j, toLog)
  {
  }

  lemma {:induction false} CopyToLogResult(c: Cache, c2: Cache, pins: seq<nat>, a: nat, b: nat, i: nat, j: nat)
    requires Settled(c, pins) && BothHeld(c, c2, pins, a, b, i, j) && Inv(c2) && a != b
    ensures BothReleased(c, CopyAndRelease(c2, i, c2.bufs[j].data, j, i), pins, a, b, i, j, true)
  {
    CopyEffect(c2, i, c2.bufs[j].data, j, i);
    Releases(c, c2, CopyAndRelease(c2, i, c2.bufs[j].data, j, i), pins, a, b, i, j, true, Latest(c, b));
  }

  lemma {:induction false} CopyHomeResult(c: Cache, c2: Cache, pins: seq<nat>, a: nat, b: nat, i: nat, j: nat)
    requires Settled(c, pins) && BothHeld(c, c2, pins, a, b, i, j) && Inv(c2) && a != b
    ensures BothReleased(c, CopyAndRelease(c2, j, c2.bufs[i].data, i, j), pins, a, b, i, j, false)
  {
    CopyEffect(c2, j, c2.bufs[i].data, i, j);
    Releases(c, c2, CopyAndRelease(c2, j, c2.bufs[i].data, i, j), pins, a, b, i, j, false, Latest(c, a));
  }

  /** The latest content of each listed block. */
  ghost function Contents(c: Cache, lh: seq<nat>): seq<Block>
    requires forall t :: 0 <= t < |lh| ==> lh[t] < |c.disk|
  {
    seq(|lh|, t requires 0 <= t < |lh| => Latest(c, lh[t]))
  }

  /** From c to c' the disk received exactly the writes ws. */
  ghost predicate Progress(c: Cache, c': Cache, ws: seq<Write>) {
    && InRange(ws, |c.disk|) && c'.trace == c.trace + ws && c'.disk == Apply(c.disk, ws)
    && |c'.bufs| == |c.bufs|
  }

  /** The file system's view of every block outside the log is unchanged. */
  ghost predicate SameContent(lay: Layout, c: Cache, c': Cache) {
    && |c'.disk| == |c.disk|
    && forall x: nat :: x < |c.disk| && !lay.InLog(x) ==> Latest(c', x) == Latest(c, x)
  }

  lemma ProgressStep(c0: Cache, c: Cache, c': Cache, ws: seq<Write>, t: nat)
    requires t < |ws| && Progress(c0, c, ws[..t]) && Copied(c, c', ws[t].blockno, ws[t].data)
    ensures Progress(c0, c', ws[..t + 1])
  {
    assert ws[..t + 1] == ws[..t] + [ws[t]];
    assert ws[..t + 1][..t] == ws[..t];
  }

  lemma OneRead(c: Cache, pins: seq<nat>, a: nat)
    requires Settled(c, pins) && a < |c.disk| && a !in pins && |pins| < |c.bufs|
    ensures Unlocked(c, a) && Read(c, a).Some?
    ensures OneHeld(c, Read(c, a).value.0, a, Read(c, a).value.1)
  {
    if |c.disk| > 1 {
      FirstRead(c, pins, a, if a == 0 then 1 else 0);
    }
  }

  /** The header block written through the cache. */
  lemma HeadResult(c: Cache, c1: Cache, pins: seq<nat>, a: nat, i: nat, d: Block)
    requires Settled(c, pins) && OneHeld(c, c1, a, i) && a !in pins
    ensures i in c1.order
    ensures var c' := Release(WriteBack(SetData(c1, i, d), i), i);
            Settled(c', pins) && Copied(c, c', a, d)
  {
    var c2 := WriteBack(SetData(c1, i, d), i);
    ReleaseLast(c2, i);
    var c' := Release(c2, i);
    assert c'.bufs == c.bufs[i := Buf(true, false, DISK_DEV, a, false, 0, d)];
    assert Inv(c');
    forall x | x in pins ensures exists k :: 0 <= k < |c'.bufs| && c'.bufs[k].Holds(x) && c'.bufs[k].dirty {
      var k :| 0 <= k < |c.bufs| && c.bufs[k].Holds(x) && c.bufs[k].dirty;
      assert c'.bufs[k].Holds(x) && c'.bufs[k].dirty;
    }
    LatestAt(c', i);
    forall x: nat | x < |c.disk| && x != a ensures Latest(c', x) == Latest(c, x) {
      LatestElsewhere(c, c', i, i, x);
    }
  }

  /** The blocks still pinned when install_trans has reached `tail`. */
  function Rest(lh: seq<nat>, tail: nat, pinned: bool): seq<nat>
    requires tail <= |lh|
  {
    if pinned then lh[tail..] else []
  }

  lemma RestDrops(lay: Layout, lh: seq<nat>, tail: nat, pinned: bool)
    requires tail < |lh| && (pinned ==> Distinct(lh)) && |lh| < lay.size
    requires forall t :: 0 <= t < |lh| ==> !lay.InLog(lh[t])
    ensures lh[tail] !in Rest(lh, tail + 1, pinned) && lay.start + 1 + tail !in Rest(lh, tail, pinned)
    ensures forall x :: x in Rest(lh, tail + 1, pinned) <==> x in Rest(lh, tail, pinned) && x != lh[tail]
    ensures pinned ==> lh[tail] in Rest(lh, tail, pinned)
    ensures |Rest(lh, tail, pinned)| <= |lh| && (!pinned ==> Rest(lh, tail, pinned) == [])
  {
    assert lay.InLog(lay.start + 1 + tail);
    if pinned {
      assert lh[tail..] == [lh[tail]] + lh[tail + 1..];
    }
  }

  /** write_log has copied the first t blocks: only log slots changed on disk, no content changed. */
  ghost predicate LogPhase(lay: Layout, c0: Cache, c: Cache, lh: seq<nat>, t: nat) {
    && HomesOk(lay, |c0.disk|, lh) && t <= |lh|
    && Progress(c0, c, LogWrites(lay, Contents(c0, lh))[..t]) && SameContent(lay, c0, c)
  }

  lemma LogStep(lay: Layout, c0: Cache, c: Cache, lh: seq<nat>, t: nat)
    requires lay.Valid(|c0.disk|) && LogPhase(lay, c0, c, lh, t) && t < |lh|
    ensures lay.InLog(lay.start + 1 + t) && lay.start + 1 + t !in lh && lay.start + 1 + t < |c.disk|
    ensures |c.disk| == |c0.disk| && Latest(c, lh[t]) == Contents(c0, lh)[t]
  {
    assert lay.InLog(lay.start + 1 + t);
  }

  lemma {:induction false} LogStepDone(lay: Layout, c0: Cache, c: Cache, c': Cache, lh: seq<nat>, t: nat)
    requires lay.Valid(|c0.disk|) && LogPhase(lay, c0, c, lh, t) && t < |lh|
    requires Copied(c, c', lay.start + 1 + t, Latest(c, lh[t]))
    ensures LogPhase(lay, c0, c', lh, t + 1)
  {
    assert Latest(c, lh[t]) == Contents(c0, lh)[t];
    ProgressStep(c0, c, c', LogWrites(lay, Contents(c0, lh)), t);
    assert lay.InLog(lay.start + 1 + t);
  }

  /** install_trans has copied the first t slots home. */
  ghost predicate InstallPhase(lay: Layout, c0: Cache, c: Cache, lh: seq<nat>, t: nat) {
    && HomesOk(lay, |c0.disk|, lh) && t <= |lh| && lay.start + |lh| < |c0.disk|
    && Progress(c0, c, Installs(lh, Slots(lay, c0.disk, |lh|))[..t])
    && (forall x :: 0 <= x < |c0.disk| && lay.InLog(x) ==> c.disk[x] == c0.disk[x])
    && (Slots(lay, c0.disk, |lh|) == Contents(c0, lh) ==> SameContent(lay, c0, c))
  }

  lemma {:induction false} InstallStep(lay: Layout, c0: Cache, c: Cache, c': Cache, lh: seq<nat>, t: nat)
    requires lay.Valid(|c0.disk|) && InstallPhase(lay, c0, c, lh, t) && t < |lh|
    requires Copied(c, c', lh[t], c.disk[lay.start + 1 + t])
    ensures InstallPhase(lay, c0, c', lh, t + 1)
  {
    var ws := Installs(lh, Slots(lay, c0.disk, |lh|));
    assert lay.InLog(lay.start + 1 + t);
    assert ws[t] == Write(lh[t], c.disk[lay.start + 1 + t]);
    ProgressStep(c0, c, c', ws, t);
    if Slots(lay, c0.disk, |lh|) == Contents(c0, lh) {
      assert Slots(lay, c0.disk, |lh|)[t] == Contents(c0, lh)[t];
    }
  }

  lemma {:induction false} SlotsKept(lay: Layout, d: seq<Block>, d': seq<Block>, head: Block, n: nat)
    requires lay.start + n < |d| && d' == d[lay.start := head]
    ensures Slots(lay, d', n) == Slots(lay, d, n)
  {
  }

  lemma {:induction false} ContentsKept(lay: Layout, c0: Cache, c1: Cache, c2: Cache, lh: seq<nat>)
    requires lay.Valid(|c0.disk|) && HomesOk(lay, |c0.disk|, lh) && SameContent(lay, c0, c1) && lay.InLog(lay.start)
    requires exists d: Block :: Copied(c1, c2, lay.start, d)
    ensures |c2.disk| == |c0.disk| && Contents(c2, lh) == Contents(c0, lh)
  {
    var d: Block :| Copied(c1, c2, lay.start, d);
    forall t | 0 <= t < |lh| ensures Latest(c2, lh[t]) == Latest(c0, lh[t]) {
      assert !lay.InLog(lh[t]);
    }
  }

  /** The four phases of commit, put together. */
  lemma {:induction false} CommitTrace(lay: Layout, c0: Cache, c1: Cache, c2: Cache, c3: Cache, c4: Cache, lh: seq<nat>)
    requires lay.Valid(|c0.disk|) && HomesOk(lay, |c0.disk|, lh)
    requires LogPhase(lay, c0, c1, lh, |lh|)
    requires Copied(c1, c2, lay.start, PutHead(c1.disk[lay.start], lh))
    requires InstallPhase(lay, c2, c3, lh, |lh|)
    requires Copied(c3, c4, lay.start, PutHead(c3.disk[lay.start], []))
    ensures Progress(c0, c4, CommitWrites(lay, c0.disk[lay.start], lh, Contents(c0, lh)))
    ensures SameContent(lay, c0, c4)
  {
    var data := Contents(c0, lh);
    assert LogWrites(lay, data)[..|lh|] == LogWrites(lay, data);
    LogWritesAt(lay, c0.disk, data);
    SlotsKept(lay, c1.disk, c2.disk, PutHead(c1.disk[lay.start], lh), |lh|);
    ContentsKept(lay, c0, c1, c2, lh);
    assert Installs(lh, data)[..|lh|] == Installs(lh, data);
    assert lay.InLog(lay.start);
    CommitWritesApply(lay, c0, c1, c2, c3, c4, lh, data);
  }

  lemma {:induction false} CommitWritesApply(lay: Layout, c0: Cache, c1: Cache, c2: Cache, c3: Cache, c4: Cache,
                                             lh: seq<nat>, data: seq<Block>)
    requires lay.Valid(|c0.disk|) && HomesOk(lay, |c0.disk|, lh) && |data| == |lh|
    requires Progress(c0, c1, LogWrites(lay, data)) && c1.disk[lay.start] == c0.disk[lay.start]
    requires Copied(c1, c2, lay.start, PutHead(c1.disk[lay.start], lh))
    requires Progress(c2, c3, Installs(lh, data)) && c3.disk[lay.start] == c2.disk[lay.start]
    requires Copied(c3, c4, lay.start, PutHead(c3.disk[lay.start], []))
    ensures Progress(c0, c4, CommitWrites(lay, c0.disk[lay.start], lh, data))
  {
    var w1, w2 := LogWrites(lay, data), [Write(lay.start, PutHead(c0.disk[lay.start], lh))];
    var w3, w4 := Installs(lh, data), [Write(lay.start, PutHead(c2.disk[lay.start], []))];
    ApplyConcat(c0.disk, w1, w2);
    ApplyConcat(c0.disk, w1 + w2, w3);
    ApplyConcat(c0.disk, w1 + w2 + w3, w4);
    assert c2.disk == Apply(c1.disk, w2) by { assert w2[..0] == []; }
    assert c4.disk == Apply(c3.disk, w4) by { assert w4[..0] == []; }
    assert c4.trace == c0.trace + (w1 + w2 + w3 + w4);
  }

  /** Reading a block and releasing it changes neither disk nor pins. */
  lemma ReadReleased(c: Cache, c1: Cache, pins: seq<nat>, a: nat, i: nat)
    requires Settled(c, pins) && OneHeld(c, c1, a, i) && a !in pins
    requires Latest(c, a) == c.disk[a]
    ensures i in c1.order && Settled(Release(c1, i), pins)
    ensures Release(c1, i).disk == c.disk && Release(c1, i).trace == c.trace
  {
    ReleaseLast(c1, i);
    var c' := Release(c1, i);
    assert c'.bufs == c.bufs[i := Buf(true, false, DISK_DEV, a, false, 0, c.disk[a])];
    forall x | x in pins ensures exists k :: 0 <= k < |c'.bufs| && c'.bufs[k].Holds(x) && c'.bufs[k].dirty {
      var k :| 0 <= k < |c.bufs| && c.bufs[k].Holds(x) && c.bufs[k].dirty;
      assert c'.bufs[k].Holds(x) && c'.bufs[k].dirty;
    }
  }

  lemma {:induction false} RecoverTrace(lay: Layout, c0: Cache, c1: Cache, c2: Cache, lh: seq<nat>)
    requires WellFormed(lay, c0.disk) && lh == GetHead(c0.disk[lay.start])
    requires InstallPhase(lay, c0, c1, lh, |lh|)
    requires Copied(c1, c2, lay.start, PutHead(c1.disk[lay.start], []))
    ensures Progress(c0, c2, RecoverWrites(lay, c0.disk))
  {
    var w := Pending(lay, c0.disk);
    assert w[..|lh|] == w && lay.InLog(lay.start);
    var ws := RecoverWrites(lay, c0.disk);
    assert ws[..|ws| - 1] == w;
    ProgressStep(c0, c1, c2, ws, |ws| - 1);
    assert ws[..|ws|] == ws;
  }

  lemma PinnedMore(c: Cache, lh: seq<nat>, i: nat)
    requires Inv(c) && Pinned(c, lh) && Distinct(lh) && i < |c.bufs| && c.bufs[i].locked
    ensures Distinct(LogReservation.Absorb(lh, c.bufs[i].blockno))
            && Pinned(Pin(c, i), LogReservation.Absorb(lh, c.bufs[i].blockno))
  {
    var c' := Pin(c, i);
    forall x | x in LogReservation.Absorb(lh, c.bufs[i].blockno)
      ensures exists k :: 0 <= k < |c'.bufs| && c'.bufs[k].Holds(x) && c'.bufs[k].dirty
    {
      if x == c.bufs[i].blockno {
        assert c'.bufs[i].Holds(x) && c'.bufs[i].dirty;
      } else {
        var k :| 0 <= k < |c.bufs| && c.bufs[k].Holds(x) && c.bufs[k].dirty;
        assert c'.bufs[k].Holds(x) && c'.bufs[k].dirty;
      }
    }
  }

  class FsLog {
    const bc: Bcache
    const lay: Layout
    const maxop: nat // MAXOPBLOCKS
    var lh: seq<nat> // lh.block[0..lh.n)
    var outstanding: nat
    var committing: bool
    ghost var ops: seq<LogReservation.Op>

    /** The zeroed struct log, with the location that initlog reads from the superblock. */
    constructor (bc: Bcache, lay: Layout, maxop: nat)
      ensures this.bc == bc && this.lay == lay && this.maxop == maxop && Res() == LogReservation.INIT
              && outstanding == 0
    {
      this.bc, this.lay, this.maxop := bc, lay, maxop;
      lh, outstanding, committing, ops := [], 0, false, [];
    }

    /** The reservations as the interleaving model has them. */
    ghost function Res(): LogReservation.State
      reads this
    {
      LogReservation.State(lh, ops, committing)
    }

    ghost function Cfg(): LogReservation.Config {
      LogReservation.Config(lay.size, lay.logsize, maxop)
    }

    /** The list and the cache agree. */
    ghost predicate ListOk()
      reads this, bc, bc.buf, bc.next, bc.prev
    {
      && bc.Valid() && lay.Valid(|bc.disk|)
      && HomesOk(lay, |bc.disk|, lh) && Distinct(lh) && Pinned(bc.Abs(), lh)
    }

    ghost predicate Valid()
      reads this, bc, bc.buf, bc.next, bc.prev
    {
      ListOk() && |ops| == outstanding && !committing
    }

    /** The two breads that open a round of write_log and of install_trans. */
    method ReadBoth(a: nat, b: nat, ghost pins: seq<nat>) returns (i: nat, j: nat)
      requires bc.Valid() && Settled(bc.Abs(), pins) && |pins| < bc.nbuf && (b in pins || |pins| + 1 < bc.nbuf)
      requires a < |bc.disk| && b < |bc.disk| && a != b && a !in pins
      modifies bc.buf
      ensures bc.Valid() && BothHeld(old(bc.Abs()), bc.Abs(), pins, a, b, i, j)
    {
      ghost var c := bc.Abs();
      FirstRead(c, pins, a, b);
      var ra := bc.Bread(DISK_DEV, a);
      ghost var c1 := bc.Abs();
      SecondReadFinds(c, c1, pins, a, b, ra.value);
      SecondRead(c, c1, pins, a, b, ra.value);
      var rb := bc.Bread(DISK_DEV, b);
      i, j := ra.value, rb.value;
    }

    /** The memmove, bwrite and two brelses that close it. */
    method CopyHeld(to: nat, from: nat, first: nat, second: nat)
      requires bc.Valid() && to < bc.nbuf && from < bc.nbuf && to != from
      requires (first == to && second == from) || (first == from && second == to)
      requires forall k :: (k == to || k == from) ==>
                 bc.buf[k].locked && bc.buf[k].valid && bc.buf[k].refcnt == 1 && bc.buf[k].blockno < |bc.disk|
      requires bc.buf[to].blockno != bc.buf[from].blockno
      requires bc.buf[from].dirty || bc.buf[from].data == bc.disk[bc.buf[from].blockno]
      modifies bc, bc.buf, bc.next, bc.prev
      ensures bc.Valid()
      ensures bc.Abs() == CopyAndRelease(old(bc.Abs()), to, old(bc.buf[from].data), first, second)
    {
      bc.Modify(to, bc.buf[from].data);
      bc.Bwrite(to);
      bc.Brelse(first);
      bc.Brelse(second);
    }

    /** One round of write_log: log block a receives the cached content of home block b. */
    method CopyToLog(a: nat, b: nat, ghost pins: seq<nat>)
      requires bc.Valid() && Settled(bc.Abs(), pins) && |pins| < bc.nbuf
      requires a < |bc.disk| && b < |bc.disk| && a != b && a !in pins && b in pins
      modifies bc, bc.buf, bc.next, bc.prev
      ensures bc.Valid() && Settled(bc.Abs(), pins)
      ensures Copied(old(bc.Abs()), bc.Abs(), a, Latest(old(bc.Abs()), b))
    {
      ghost var c := bc.Abs();
      var to, from := ReadBoth(a, b, pins);
      CopyToLogResult(c, bc.Abs(), pins, a, b, to, from);
      CopyHeld(to, from, from, to);
      SettledAgain(c, bc.Abs(), pins, pins, a, b, to, from, true);
    }

    /** One round of install_trans: home block b receives log block a and is no longer pinned. */
    method CopyHome(a: nat, b: nat, ghost pins: seq<nat>, ghost pins': seq<nat>)
      requires bc.Valid() && Settled(bc.Abs(), pins) && |pins| < bc.nbuf && (b in pins || |pins| + 1 < bc.nbuf)
      requires a < |bc.disk| && b < |bc.disk| && a != b && a !in pins
      requires b !in pins' && forall x :: x in pins' <==> x in pins && x != b
      modifies bc, bc.buf, bc.next, bc.prev
      ensures bc.Valid() && Settled(bc.Abs(), pins')
      ensures Copied(old(bc.Abs()), bc.Abs(), b, old(bc.disk)[a])
    {
      ghost var c := bc.Abs();
      CleanAgrees(c, pins, a);
      var lbuf, dbuf := ReadBoth(a, b, pins);
      CopyHomeResult(c, bc.Abs(), pins, a, b, lbuf, dbuf);
      CopyHeld(dbuf, lbuf, lbuf, dbuf);
      SettledAgain(c, bc.Abs(), pins, pins', a, b, lbuf, dbuf, false);
    }

    method LogRound(tail: nat, ghost c0: Cache)
      requires bc.Valid() && lay.Valid(|c0.disk|) && Settled(bc.Abs(), lh) && |lh| < bc.nbuf
      requires tail < |lh| && LogPhase(lay, c0, bc.Abs(), lh, tail)
      modifies bc, bc.buf, bc.next, bc.prev
      ensures bc.Valid() && Settled(bc.Abs(), lh) && LogPhase(lay, c0, bc.Abs(), lh, tail + 1)
    {
      ghost var c := bc.Abs();
      LogStep(lay, c0, c, lh, tail);
      CopyToLog(lay.start + 1 + tail, lh[tail], lh);
      LogStepDone(lay, c0, c, bc.Abs(), lh, tail);
    }

    method InstallRound(tail: nat, ghost pinned: bool, ghost c0: Cache)
      requires bc.Valid() && lay.Valid(|c0.disk|) && tail < |lh| && Settled(bc.Abs(), Rest(lh, tail, pinned))
      requires if pinned then Distinct(lh) && |lh| < bc.nbuf else 2 <= bc.nbuf
      requires InstallPhase(lay, c0, bc.Abs(), lh, tail)
      modifies bc, bc.buf, bc.next, bc.prev
      ensures bc.Valid() && Settled(bc.Abs(), Rest(lh, tail + 1, pinned))
      ensures InstallPhase(lay, c0, bc.Abs(), lh, tail + 1)
    {
      ghost var c := bc.Abs();
      RestDrops(lay, lh, tail, pinned);
      CopyHome(lay.start + 1 + tail, lh[tail], Rest(lh, tail, pinned), Rest(lh, tail + 1, pinned));
      InstallStep(lay, c0, c, bc.Abs(), lh, tail);
    }

    /** write_log. */
    method WriteLog()
      requires bc.Valid() && lay.Valid(|bc.disk|) && HomesOk(lay, |bc.disk|, lh)
      requires Settled(bc.Abs(), lh) && |lh| < bc.nbuf
      modifies bc, bc.buf, bc.next, bc.prev
      ensures bc.Valid() && Settled(bc.Abs(), lh) && LogPhase(lay, old(bc.Abs()), bc.Abs(), lh, |lh|)
    {
      ghost var c0 := bc.Abs();
      var tail := 0;
      while tail < |lh|
        invariant 0 <= tail <= |lh| && bc.Valid() && Settled(bc.Abs(), lh)
        invariant LogPhase(lay, c0, bc.Abs(), lh, tail)
      {
        LogRound(tail, c0);
        tail := tail + 1;
      }
    }

    /** install_trans, after a commit (the listed blocks are pinned) or after a reboot (none are). */
    method InstallTrans(ghost pinned: bool)
      requires bc.Valid() && lay.Valid(|bc.disk|) && HomesOk(lay, |bc.disk|, lh)
      requires Settled(bc.Abs(), Rest(lh, 0, pinned))
      requires if pinned then Distinct(lh) && |lh| < bc.nbuf else 2 <= bc.nbuf
      modifies bc, bc.buf, bc.next, bc.prev
      ensures bc.Valid() && Settled(bc.Abs(), []) && InstallPhase(lay, old(bc.Abs()), bc.Abs(), lh, |lh|)
    {
      ghost var c0 := bc.Abs();
      var tail := 0;
      while tail < |lh|
        invariant 0 <= tail <= |lh| && bc.Valid() && Settled(bc.Abs(), Rest(lh, tail, pinned))
        invariant InstallPhase(lay, c0, bc.Abs(), lh, tail)
      {
        InstallRound(tail, pinned, c0);
        tail := tail + 1;
      }
    }

    /** write_head: the header block on disk receives n and block[0..n). */
    method WriteHead(ghost pins: seq<nat>)
      requires bc.Valid() && lay.Valid(|bc.disk|) && HomesOk(lay, |bc.disk|, lh)
      requires Settled(bc.Abs(), pins) && lay.start !in pins && |pins| < bc.nbuf
      modifies bc, bc.buf, bc.next, bc.prev
      ensures bc.Valid() && Settled(bc.Abs(), pins)
      ensures Copied(old(bc.Abs()), bc.Abs(), lay.start, PutHead(old(bc.disk)[lay.start], lh))
    {
      ghost var c := bc.Abs();
      CleanAgrees(c, pins, lay.start);
      OneRead(c, pins, lay.start);
      var r := bc.Bread(DISK_DEV, lay.start);
      var buf := r.value;
      ghost var c1 := bc.Abs();
      var hb := PutWord(bc.buf[buf].data, 0, |lh|);
      var i := 0;
      while i < |lh|
        invariant 0 <= i <= |lh|
        invariant hb == PutWords(PutWord(c.disk[lay.start], 0, |lh|), 1, lh[..i])
      {
        hb := PutWord(hb, i + 1, lh[i]);
        assert lh[..i + 1][..i] == lh[..i];
        i := i + 1;
      }
      assert lh[..|lh|] == lh;
      bc.Modify(buf, hb);
      bc.Bwrite(buf);
      bc.Brelse(buf);
      HeadResult(c, c1, pins, lay.start, buf, hb);
    }

    /** commit: nothing but the writes CommitWrites, in that order, reaches the disk; afterwards nothing
        is pinned and the file system's content is what it was. */
    method Commit()
      requires ListOk() && Quiet(bc.Abs()) && |lh| < bc.nbuf
      modifies this`lh, bc, bc.buf, bc.next, bc.prev
      ensures ListOk() && lh == [] && Settled(bc.Abs(), [])
      ensures old(lh) == [] ==> bc.Abs() == old(bc.Abs())
      ensures old(lh) != [] ==>
                Progress(old(bc.Abs()), bc.Abs(),
                         CommitWrites(lay, old(bc.disk)[lay.start], old(lh), Contents(old(bc.Abs()), old(lh))))
      ensures SameContent(lay, old(bc.Abs()), bc.Abs())
    {
      if |lh| > 0 {
        ghost var c0 := bc.Abs();
        WriteLog();
        ghost var c1 := bc.Abs();
        WriteHead(lh);
        ghost var c2 := bc.Abs();
        InstallTrans(true);
        ghost var c3, lh0 := bc.Abs(), lh;
        lh := [];
        WriteHead([]);
        CommitTrace(lay, c0, c1, c2, c3, bc.Abs(), lh0);
      }
    }

    /** read_head. */
    method ReadHead()
      requires bc.Valid() && WellFormed(lay, bc.disk) && Settled(bc.Abs(), []) && 0 < bc.nbuf
      modifies this`lh, bc, bc.buf, bc.next, bc.prev
      ensures bc.Valid() && Settled(bc.Abs(), []) && bc.disk == old(bc.disk) && bc.trace == old(bc.trace)
      ensures lh == GetHead(bc.disk[lay.start])
    {
      ghost var c := bc.Abs();
      CleanAgrees(c, [], lay.start);
      OneRead(c, [], lay.start);
      var r := bc.Bread(DISK_DEV, lay.start);
      ghost var c1 := bc.Abs();
      var hb := bc.buf[r.value].data;
      assert hb == bc.disk[lay.start];
      var n := Word(hb, 0);
      lh := [];
      var i := 0;
      while i < n
        modifies this`lh
        invariant 0 <= i <= n && lh == GetHead(hb)[..i]
      {
        lh := lh + [Word(hb, i + 1)];
        i := i + 1;
      }
      assert GetHead(hb)[..n] == GetHead(hb);
      ReadReleased(c, c1, [], lay.start, r.value);
      bc.Brelse(r.value);
    }

    /** recover_from_log on the cold cache of a reboot: the disk receives exactly RecoverWrites. */
    method RecoverFromLog()
      requires bc.Valid() && WellFormed(lay, bc.disk) && Settled(bc.Abs(), []) && 2 <= bc.nbuf
      requires |ops| == outstanding && !committing
      modifies this`lh, bc, bc.buf, bc.next, bc.prev
      ensures Valid() && lh == [] && Settled(bc.Abs(), [])
      ensures Progress(old(bc.Abs()), bc.Abs(), RecoverWrites(lay, old(bc.disk)))
    {
      ghost var c0 := bc.Abs();
      ReadHead();
      ghost var c1 := bc.Abs();
      InstallTrans(false);
      ghost var c2, lh0 := bc.Abs(), lh;
      lh := [];
      WriteHead([]);
      RecoverTrace(lay, c1, c2, bc.Abs(), lh0);
    }

    /** begin_op: false is to sleep and try again. */
    method BeginOp() returns (ok: bool)
      requires Valid()
      modifies this`outstanding, this`ops
      ensures Valid() && (ok <==> LogReservation.Admits(Cfg(), old(Res())))
      ensures Res() == if ok then LogReservation.Next(old(Res()), LogReservation.Begin) else old(Res())
    {
      if committing {
        return false;
      }
      if |lh| + (outstanding + 1) * maxop > lay.logsize {
        return false;
      }
      outstanding := outstanding + 1;
      ops := ops + [LogReservation.NEW_OP];
      return true;
    }

    /** end_op of operation o: the last one commits. */
    method EndOp(ghost o: nat)
      requires Valid() && o < |ops|
      requires outstanding == 1 ==> Quiet(bc.Abs()) && |lh| < bc.nbuf
      modifies this`lh, this`outstanding, this`committing, this`ops, bc, bc.buf, bc.next, bc.prev
      ensures Valid() && outstanding == old(outstanding) - 1 && lh == if outstanding == 0 then [] else old(lh)
      ensures var ended := LogReservation.Next(old(Res()), LogReservation.End(o));
              Res() == if outstanding == 0 then LogReservation.Next(ended, LogReservation.Committed) else ended
      ensures outstanding > 0 || old(lh) == [] ==> bc.Abs() == old(bc.Abs())
      ensures outstanding == 0 ==> Settled(bc.Abs(), []) && SameContent(lay, old(bc.Abs()), bc.Abs())
      ensures outstanding == 0 && old(lh) != [] ==>
                Progress(old(bc.Abs()), bc.Abs(),
                         CommitWrites(lay, old(bc.disk)[lay.start], old(lh), Contents(old(bc.Abs()), old(lh))))
    {
      LogReservation.EndExact(Res(), o, ops[..o] + ops[o + 1..]);
      outstanding := outstanding - 1;
      ops := ops[..o] + ops[o + 1..];
      if outstanding == 0 {
        CommitLast();
      }
    }

    /** The commit of the last end_op, during which log.committing keeps others out. */
    method CommitLast()
      requires ListOk() && Quiet(bc.Abs()) && |lh| < bc.nbuf
      modifies this`lh, this`committing, bc, bc.buf, bc.next, bc.prev
      ensures ListOk() && lh == [] && !committing && Settled(bc.Abs(), [])
      ensures old(lh) == [] ==> bc.Abs() == old(bc.Abs())
      ensures old(lh) != [] ==>
                Progress(old(bc.Abs()), bc.Abs(),
                         CommitWrites(lay, old(bc.disk)[lay.start], old(lh), Contents(old(bc.Abs()), old(lh))))
      ensures SameContent(lay, old(bc.Abs()), bc.Abs())
    {
      committing := true;
      Commit();
      committing := false;
    }

    /** log_write: record the block number once and pin the buffer; a false result is a panic. */
    method LogWrite(b: nat, ghost o: nat) returns (ok: bool)
      requires Valid() && b < bc.nbuf && bc.buf[b].locked && bc.buf[b].valid && !lay.InLog(bc.buf[b].blockno)
      requires outstanding >= 1 ==> o < |ops| && ops[o].pending.None?
      modifies this`lh, this`ops, bc.buf
      ensures ok <==> old(|lh|) < lay.logsize && old(|lh|) < lay.size - 1 && outstanding >= 1
      ensures !ok ==> Res() == old(Res()) && bc.Abs() == old(bc.Abs())
      ensures ok ==>
                var tested := LogReservation.Next(old(Res()), LogReservation.Check(o, old(bc.buf[b].blockno)));
                Res() == LogReservation.Next(tested, LogReservation.Append(o, old(bc.buf[b].blockno)))
      ensures ok ==>
                  Valid() && lh == LogReservation.Absorb(old(lh), old(bc.buf[b].blockno))
                  && bc.Abs() == Pin(old(bc.Abs()), b)
    {
      if |lh| >= lay.logsize || |lh| >= lay.size - 1 {
        return false;
      }
      if outstanding < 1 {
        return false;
      }
      ghost var c, lh0 := bc.Abs(), lh;
      var blockno := bc.buf[b].blockno;
      Record(blockno);
      ops := ops[o := LogReservation.Op(LogReservation.Absorb(ops[o].blocks, blockno), None)];
      PinnedMore(c, lh0, b);
      bc.SetDirty(b);
      return true;
    }

    /** The search of log_write: the block's place in the list, or a new one. */
    method Record(blockno: nat)
      modifies this`lh
      ensures lh == LogReservation.Absorb(old(lh), blockno)
    {
      var i := 0;
      while i < |lh| && lh[i] != blockno
        invariant 0 <= i <= |lh| && blockno !in lh[..i]
      {
        i := i + 1;
      }
      if i == |lh| {
        lh := lh + [blockno];
      } else {
        lh := lh[i := blockno];
      }
    }
  }
}
