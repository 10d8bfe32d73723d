/** Which buffer bget recycles (bio.c), over every run of calls on the buffer cache: the least recently released. */
module Recycling {
  import opened Blocks
  import opened BufferCache

  /** One call by a user of the cache. */
  datatype Call = Took(b: nat) | Filled(i: nat, d: Block) | Wrote(i: nat) | Pinned(i: nat) | Released(i: nat)

  ghost predicate CanCall(c: Cache, a: Call)
    requires Inv(c)
  {
    match a
    case Took(b) => b < |c.disk| && Unlocked(c, b) && Read(c, b).Some?
    case Released(i) =>
      && i < |c.bufs| && c.bufs[i].locked && c.bufs[i].valid
      && (c.bufs[i].dirty || c.bufs[i].data == c.disk[c.bufs[i].blockno])
    case _ => a.i < |c.bufs| && c.bufs[a.i].locked && c.bufs[a.i].valid
  }

  ghost predicate Calls(c: Cache, a: Call, c': Cache) {
    && Inv(c) && CanCall(c, a)
    && match a
       case Took(b) => c' == Read(c, b).value.0
       case Filled(i, d) => c' == SetData(c, i, d)
       case Wrote(i) => c' == WriteBack(c, i)
       case Pinned(i) => c' == Pin(c, i)
       case Released(i) => i in c.order && c' == Release(c, i)
  }

  /** The states of a run from binit on. */
  ghost predicate Run(cs: seq<Cache>, calls: seq<Call>) {
    && |cs| == |calls| + 1 && Inv(cs[0]) && cs[0].order == Descending(|cs[0].bufs|)
    && forall k :: 0 <= k < |calls| ==> Calls(cs[k], calls[k], cs[k + 1])
  }

  lemma {:induction false} CallKeeps(c: Cache, a: Call, c': Cache)
    requires Calls(c, a, c')
    ensures Inv(c') && |c'.bufs| == |c.bufs|
  {
    match a
    case Took(b) => ReadCorrect(c, b);
    case Filled(i, d) => SetDataCorrect(c, i, d);
    case Wrote(i) => WriteBackCorrect(c, i);
    case Pinned(i) => PinCorrect(c, i);
    case Released(i) => ReleaseCorrect(c, i);
  }

  lemma {:induction false} RunKeeps(cs: seq<Cache>, calls: seq<Call>, k: nat)
    requires Run(cs, calls) && k <= |calls|
    ensures Inv(cs[k]) && |cs[k].bufs| == |cs[0].bufs|
  {
    if k > 0 {
      RunKeeps(cs, calls, k - 1);
      CallKeeps(cs[k - 1], calls[k - 1], cs[k]);
    }
  }

  /** When each buffer's last reference was last dropped, in the first k calls; before any call they count as released
      in the order of their numbers. */
  ghost function Times(cs: seq<Cache>, calls: seq<Call>, k: nat): (t: seq<int>)
    requires k <= |calls| && |cs| == |calls| + 1
    ensures |t| == |cs[0].bufs| && forall i :: 0 <= i < |t| ==> t[i] < k
  {
    if k == 0 then seq(|cs[0].bufs|, i => i - |cs[0].bufs|)
    else TimesAfter(Times(cs, calls, k - 1), calls[k - 1], cs[k], k - 1)
  }

  ghost function TimesAfter(t: seq<int>, a: Call, c': Cache, now: int): seq<int> {
    if a.Released? && a.i < |t| == |c'.bufs| && c'.bufs[a.i].refcnt == 0 then t[a.i := now] else t
  }

  /** The list is in the order of the times, latest first. */
  ghost predicate Recent(order: seq<nat>, t: seq<int>) {
    && |order| == |t| && Permutation(order)
    && forall a, b :: 0 <= a < b < |order| ==> t[order[a]] > t[order[b]]
  }

  lemma {:induction false} ToFrontRecent(order: seq<nat>, t: seq<int>, k: nat, now: int)
    requires Recent(order, t) && k < |order| && forall i :: 0 <= i < |t| ==> t[i] < now
    ensures Recent(ToFront(order, k), t[order[k] := now])
  {
    var o, t1 := ToFront(order, k), t[order[k] := now];
    ToFrontPermutation(order, k);
    forall a, b | 0 <= a < b < |o| ensures t1[o[a]] > t1[o[b]] {
      assert o[b] == order[if b <= k then b - 1 else b];
      if a > 0 {
        assert o[a] == order[if a <= k then a - 1 else a];
      }
    }
  }

  lemma {:induction false} RunRecent(cs: seq<Cache>, calls: seq<Call>, k: nat)
    requires Run(cs, calls) && k <= |calls|
    ensures Inv(cs[k]) && Recent(cs[k].order, Times(cs, calls, k))
  {
    RunKeeps(cs, calls, k);
    if k == 0 {
      DescendingRecent(cs[0].order, Times(cs, calls, 0));
    } else {
      RunRecent(cs, calls, k - 1);
      RunCallRecent(cs, calls, k - 1);
    }
  }

  lemma {:induction false} RunCallRecent(cs: seq<Cache>, calls: seq<Call>, k: nat)
    requires Run(cs, calls) && k < |calls| && Recent(cs[k].order, Times(cs, calls, k))
    ensures Recent(cs[k + 1].order, Times(cs, calls, k + 1))
  {
    assert Calls(cs[k], calls[k], cs[k + 1]);
    CallRecent(cs[k], calls[k], cs[k + 1], Times(cs, calls, k), k);
  }

  lemma {:induction false} DescendingRecent(order: seq<nat>, t: seq<int>)
    requires Permutation(order) && order == Descending(|t|) && forall i :: 0 <= i < |t| ==> t[i] == i - |t|
    ensures Recent(order, t)
  {
  }

  lemma {:induction false} CallRecent(c: Cache, a: Call, c': Cache, t: seq<int>, now: int)
    requires Calls(c, a, c') && Recent(c.order, t) && forall i :: 0 <= i < |t| ==> t[i] < now
    ensures Recent(c'.order, TimesAfter(t, a, c', now))
  {
    if a.Released? && c'.bufs[a.i].refcnt == 0 {
      ToFrontRecent(c.order, t, IndexIn(c.order, a.i), now);
    }
  }

  /** In every run, a miss recycles the idle buffer whose last release is the oldest. */
  lemma {:induction false} RecyclesOldest(cs: seq<Cache>, calls: seq<Call>, k: nat)
    requires Run(cs, calls) && k < |calls| && calls[k].Took? && !Cached(cs[k], calls[k].b)
    ensures var t := Times(cs, calls, k);
            var c, c' := cs[k], cs[k + 1];
            exists i :: 0 <= i < |t| == |c.bufs| == |c'.bufs| && !c.bufs[i].Busy() && c'.bufs[i].Holds(calls[k].b)
                        && (forall j :: 0 <= j < |t| && j != i ==> c'.bufs[j] == c.bufs[j])
                        && forall j :: 0 <= j < |t| && j != i && !c.bufs[j].Busy() ==> t[j] > t[i]
  {
    RunRecent(cs, calls, k);
    var c := cs[k];
    assert Calls(c, calls[k], cs[k + 1]);
    var i := Victim(c.bufs, c.order).value;
    VictimLast(c.bufs, c.order);
    VictimOldest(c, Times(cs, calls, k), i);
    assert cs[k + 1].bufs[i].Holds(calls[k].b);
  }

  lemma {:induction false} VictimLast(bufs: seq<Buf>, order: seq<nat>)
    requires Permutation(order) && |order| == |bufs| && Victim(bufs, order).Some?
    ensures LastIdle(bufs, order, Victim(bufs, order).value)
  {
    var k := LastIdleAt(bufs, order, IndexIn(order, Victim(bufs, order).value));
    VictimExact(bufs, order, k);
  }

  /** The last idle position, at or behind k. */
  lemma {:induction false} LastIdleAt(bufs: seq<Buf>, order: seq<nat>, k: nat) returns (m: nat)
    requires Permutation(order) && |order| == |bufs| && k < |order| && !bufs[order[k]].Busy()
    ensures k <= m < |order| && !bufs[order[m]].Busy() && BusyFrom(bufs, order, m + 1)
    decreases |order| - k
  {
    m := k;
    if j :| k < j < |order| && !bufs[order[j]].Busy() {
      m := LastIdleAt(bufs, order, j);
    }
  }

  lemma {:induction false} VictimOldest(c: Cache, t: seq<int>, i: nat)
    requires Inv(c) && Recent(c.order, t) && LastIdle(c.bufs, c.order, i)
    ensures forall j :: 0 <= j < |t| && j != i && !c.bufs[j].Busy() ==> t[j] > t[i]
  {
    var k :| 0 <= k < |c.order| && c.order[k] == i && BusyFrom(c.bufs, c.order, k + 1);
    forall j | 0 <= j < |t| && j != i && !c.bufs[j].Busy() ensures t[j] > t[i] {
      var m := IndexIn(c.order, j);
    }
  }
}
