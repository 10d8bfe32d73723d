/** The buffer cache of bio.c over the synchronous disk of memide.c: a fixed array of buffers on a
    circular doubly linked list in most-recently-used order.

    `Cache` is the state as a value, with one specification function per operation; the class
    `Bcache` is the code, updating buffers and links in place, proved equal to those functions. */
module BufferCache {
  import opened Blocks

  const DISK_DEV := 1

  /** struct buf without its links; `locked` is the state of the buffer's sleep-lock. */
  datatype Buf = Buf(valid: bool, dirty: bool, dev: nat, blockno: nat, locked: bool, refcnt: nat, data: Block) {
    predicate Holds(b: nat) { dev == DISK_DEV && blockno == b }

    /** In use, or modified by the log and not yet on disk: not to be recycled. */
    predicate Busy() { refcnt > 0 || dirty }
  }

  /** One block write as the disk sees it. */
  datatype Write = Write(blockno: nat, data: Block)

  /** Buffers, their most-recently-used order, the disk, and every write the disk has received. */
  datatype Cache = Cache(bufs: seq<Buf>, order: seq<nat>, disk: seq<Block>, trace: seq<Write>)

  // ---------- invariant ----------

  predicate BufOk(b: Buf, disk: seq<Block>) {
    && (b.dev == 0 ==> !b.valid && !b.dirty && !b.locked && b.refcnt == 0)
    && (b.dev != 0 ==> b.dev == DISK_DEV && b.blockno < |disk|)
    && (b.locked ==> b.refcnt > 0)
    && (b.dirty ==> b.valid)
    && (b.dev != 0 && !b.locked ==> b.valid && (!b.dirty ==> b.data == disk[b.blockno]))
  }

  ghost predicate Permutation(order: seq<nat>) {
    && (forall i, j :: 0 <= i < j < |order| ==> order[i] != order[j])
    && (forall i :: 0 <= i < |order| ==> order[i] < |order|)
    && (forall b: nat :: b < |order| ==> b in order)
  }

  /** At most one buffer per block, clean idle buffers equal the disk, the list holds every buffer. */
  ghost predicate Inv(c: Cache) {
    && |c.bufs| == |c.order|
    && Permutation(c.order)
    && (forall i :: 0 <= i < |c.bufs| ==> BufOk(c.bufs[i], c.disk))
    && (forall i, j :: 0 <= i < j < |c.bufs| && c.bufs[i].dev != 0 ==>
          !(c.bufs[j].dev == c.bufs[i].dev && c.bufs[j].blockno == c.bufs[i].blockno))
  }

  ghost predicate Cached(c: Cache, b: nat) {
    exists i :: 0 <= i < |c.bufs| && c.bufs[i].Holds(b)
  }

  /** The buffer that holds block b. */
  ghost function Slot(c: Cache, b: nat): (i: nat)
    requires Cached(c, b)
    ensures i < |c.bufs| && c.bufs[i].Holds(b)
  {
    var i :| 0 <= i < |c.bufs| && c.bufs[i].Holds(b);
    i
  }

  /** What the file system means by the content of block b: the cached copy, else the disk's. */
  ghost function Latest(c: Cache, b: nat): Block
    requires b < |c.disk|
  {
    if Cached(c, b) && c.bufs[Slot(c, b)].valid then c.bufs[Slot(c, b)].data else c.disk[b]
  }

  // ---------- specification functions ----------

  /** The buffer nearest the list's tail that may be recycled (bio.c:81-91). */
  function Victim(bufs: seq<Buf>, order: seq<nat>): (v: Option<nat>)
    requires forall i :: 0 <= i < |order| ==> order[i] < |bufs|
    ensures v.Some? ==> v.value in order && v.value < |bufs| && !bufs[v.value].Busy()
    ensures v.None? ==> forall i :: 0 <= i < |order| ==> bufs[order[i]].Busy()
  {
    if order == [] then None
    else if !bufs[order[|order| - 1]].Busy() then Some(order[|order| - 1])
    else Victim(bufs, order[..|order| - 1])
  }

  /** The buffers of the list from position k on are busy. */
  ghost predicate BusyFrom(bufs: seq<Buf>, order: seq<nat>, k: nat) {
    forall j :: k <= j < |order| ==> order[j] < |bufs| && bufs[order[j]].Busy()
  }

  /** v is the idle buffer nearest the tail. */
  ghost predicate LastIdle(bufs: seq<Buf>, order: seq<nat>, v: nat) {
    exists k :: 0 <= k < |order| && order[k] == v < |bufs| && !bufs[v].Busy() && BusyFrom(bufs, order, k + 1)
  }

  lemma {:induction false} VictimExact(bufs: seq<Buf>, order: seq<nat>, k: nat)
    requires (forall i :: 0 <= i < |order| ==> order[i] < |bufs|) && k < |order|
    requires BusyFrom(bufs, order, k + 1) && !bufs[order[k]].Busy()
    ensures Victim(bufs, order) == Some(order[k])
    decreases |order|
  {
    var n := |order| - 1;
    if k < n {
      assert bufs[order[n]].Busy();
      forall j | k < j < n ensures bufs[order[..n][j]].Busy() { assert order[..n][j] == order[j]; }
      VictimExact(bufs, order[..n], k);
    }
  }

  lemma {:induction false} VictimNone(bufs: seq<Buf>, order: seq<nat>)
    requires (forall i :: 0 <= i < |order| ==> order[i] < |bufs|) && BusyFrom(bufs, order, 0)
    ensures Victim(bufs, order) == None
  {
    var v := Victim(bufs, order);
    if v.Some? {
      var k := IndexIn(order, v.value);
    }
  }

  /** A bread of block b does not have to wait for the block's sleep-lock. */
  ghost predicate Unlocked(c: Cache, b: nat) {
    forall i :: 0 <= i < |c.bufs| && c.bufs[i].Holds(b) ==> !c.bufs[i].locked
  }

  /** bread: a hit takes a reference, a miss recycles the victim and fills it from disk. */
  ghost function Read(c: Cache, b: nat): Option<(Cache, nat)>
    requires Inv(c) && b < |c.disk|
  {
    if Cached(c, b) then
      var i := Slot(c, b);
      Some((c.(bufs := c.bufs[i := c.bufs[i].(refcnt := c.bufs[i].refcnt + 1, locked := true)]), i))
    else
      match Victim(c.bufs, c.order)
      case None => None
      case Some(i) => Some((c.(bufs := c.bufs[i := Buf(true, false, DISK_DEV, b, true, 1, c.disk[b])]), i))
  }

  /** memmove into a locked buffer. */
  function SetData(c: Cache, i: nat, d: Block): Cache
    requires i < |c.bufs|
  {
    c.(bufs := c.bufs[i := c.bufs[i].(data := d)])
  }

  /** bwrite: the block reaches the disk and the buffer is clean. */
  function WriteBack(c: Cache, i: nat): Cache
    requires i < |c.bufs| && c.bufs[i].blockno < |c.disk|
  {
    var b := c.bufs[i];
    c.(bufs := c.bufs[i := b.(dirty := false, valid := true)],
    disk := c.disk[b.blockno := b.data],
    trace := c.trace + [Write(b.blockno, b.data)])
  }

  /** Position k of the list moved to the front. */
  function ToFront(order: seq<nat>, k: nat): seq<nat>
    requires k < |order|
  {
    [order[k]] + order[..k] + order[k + 1..]
  }

  function IndexIn(order: seq<nat>, i: nat): (k: nat)
    requires i in order
    ensures k < |order| && order[k] == i
  {
    if order[0] == i then 0 else 1 + IndexIn(order[1..], i)
  }

  /** brelse: drop the lock and a reference; the last one moves the buffer to the front. */
  function Release(c: Cache, i: nat): Cache
    requires i < |c.bufs| && c.bufs[i].refcnt > 0 && i in c.order
  {
    var b := c.bufs[i].(locked := false, refcnt := c.bufs[i].refcnt - 1);
    c.(bufs := c.bufs[i := b],
    order := if b.refcnt == 0 then ToFront(c.order, IndexIn(c.order, i)) else c.order)
  }

  /** The flag part of log_write: pin the buffer. */
  function Pin(c: Cache, i: nat): Cache
    requires i < |c.bufs|
  {
    c.(bufs := c.bufs[i := c.bufs[i].(dirty := true)])
  }

  // ---------- what every operation keeps ----------

  /** All the other blocks keep their content. */
  ghost predicate SameExcept(c: Cache, c': Cache, b: nat) {
    && |c'.disk| == |c.disk|
    && (forall x: nat :: x < |c.disk| && x != b ==> Latest(c', x) == Latest(c, x))
  }

  /** Cached content can be read off any buffer that holds the block. */
  lemma LatestAt(c: Cache, i: nat)
    requires Inv(c) && i < |c.bufs| && c.bufs[i].dev != 0 && c.bufs[i].valid
    ensures Cached(c, c.bufs[i].blockno) && Slot(c, c.bufs[i].blockno) == i
    ensures Latest(c, c.bufs[i].blockno) == c.bufs[i].data
  {
    var j := Slot(c, c.bufs[i].blockno);
    assert c.bufs[i].Holds(c.bufs[i].blockno);
  }

  /** Changing one buffer without changing which block it holds affects that block only. */
  lemma UpdateOne(c: Cache, c': Cache, i: nat, x: nat)
    requires Inv(c) && i < |c.bufs| && c.bufs[i].dev != 0 && x < |c.disk| == |c'.disk|
    requires |c'.bufs| == |c.bufs| && forall j :: 0 <= j < |c.bufs| && j != i ==> c'.bufs[j] == c.bufs[j]
    requires c'.bufs[i].dev == c.bufs[i].dev && c'.bufs[i].blockno == c.bufs[i].blockno
    requires x != c.bufs[i].blockno && c'.disk[x] == c.disk[x]
    ensures Latest(c', x) == Latest(c, x)
  {
    if Cached(c, x) {
      var j := Slot(c, x);
      assert c'.bufs[j].Holds(x);
      var j' := Slot(c', x);
      assert c.bufs[j'].Holds(x);
    } else {
      forall j | 0 <= j < |c.bufs| ensures !c'.bufs[j].Holds(x) {
        assert !c.bufs[j].Holds(x);
      }
    }
  }

  /** bread returns the latest content and changes no block's content; it fails exactly when the
      block is not cached and every buffer is busy. */
  lemma ReadCorrect(c: Cache, b: nat)
    requires Inv(c) && b < |c.disk| && Unlocked(c, b)
    ensures Read(c, b).None? <==> !Cached(c, b) && forall i :: 0 <= i < |c.bufs| ==> c.bufs[i].Busy()
    ensures Read(c, b).Some? ==>
              var (c', i) := Read(c, b).value;
              && Inv(c') && i < |c.bufs| && c'.bufs[i].Holds(b) && c'.bufs[i].locked && c'.bufs[i].valid
              && c'.bufs[i].data == Latest(c, b)
              && (forall x: nat :: x < |c.disk| ==> Latest(c', x) == Latest(c, x))
  {
    if Cached(c, b) {
      var (c', i) := Read(c, b).value;
      ReadHit(c, c', i, b);
    } else if Victim(c.bufs, c.order).None? {
      forall i | 0 <= i < |c.bufs| ensures c.bufs[i].Busy() {
        assert i in c.order;
      }
    } else {
      var (c', i) := Read(c, b).value;
      ReadMiss(c, c', i, b);
    }
  }

  lemma ReadHit(c: Cache, c': Cache, i: nat, b: nat)
    requires Inv(c) && b < |c.disk| && Unlocked(c, b) && Cached(c, b) && Read(c, b) == Some((c', i))
    ensures Inv(c') && c'.bufs[i].data == Latest(c, b)
    ensures forall x: nat :: x < |c.disk| ==> Latest(c', x) == Latest(c, x)
  {
    assert c.bufs[i].Holds(b);
    LatestAt(c, i);
    assert Inv(c');
    LatestAt(c', i);
    forall x: nat | x < |c.disk| && x != b ensures Latest(c', x) == Latest(c, x) {
      UpdateOne(c, c', i, x);
    }
  }

  lemma ReadMiss(c: Cache, c': Cache, i: nat, b: nat)
    requires Inv(c) && b < |c.disk| && !Cached(c, b) && Read(c, b) == Some((c', i))
    ensures Inv(c') && c'.bufs[i].data == Latest(c, b)
    ensures forall x: nat :: x < |c.disk| ==> Latest(c', x) == Latest(c, x)
  {
    forall j | 0 <= j < |c.bufs| ensures !c.bufs[j].Holds(b) {}
    assert Inv(c');
    LatestAt(c', i);
    forall x: nat | x < |c.disk| && x != b ensures Latest(c', x) == Latest(c, x) {
      if Cached(c', x) {
        var j := Slot(c', x);
        assert j != i && c.bufs[j].Holds(x);
        if c.bufs[j].valid { LatestAt(c, j); } else { assert Slot(c, x) == j; }
      } else if Cached(c, x) {
        var j := Slot(c, x);
        assert !c'.bufs[j].Holds(x);
        LatestAt(c, i);
      }
    }
  }

  /** Modifying a locked buffer changes its own block only. */
  lemma SetDataCorrect(c: Cache, i: nat, d: Block)
    requires Inv(c) && i < |c.bufs| && c.bufs[i].locked && c.bufs[i].valid
    ensures Inv(SetData(c, i, d))
    ensures Latest(SetData(c, i, d), c.bufs[i].blockno) == d
    ensures SameExcept(c, SetData(c, i, d), c.bufs[i].blockno)
  {
    var c' := SetData(c, i, d);
    LatestAt(c', i);
    forall x: nat | x < |c.disk| && x != c.bufs[i].blockno ensures Latest(c', x) == Latest(c, x) {
      UpdateOne(c, c', i, x);
    }
  }

  /** bwrite makes the disk agree with the cache on this block and changes no content. */
  lemma WriteBackCorrect(c: Cache, i: nat)
    requires Inv(c) && i < |c.bufs| && c.bufs[i].locked && c.bufs[i].valid
    ensures var c' := WriteBack(c, i);
            && Inv(c') && c'.disk[c.bufs[i].blockno] == Latest(c, c.bufs[i].blockno)
            && !c'.bufs[i].dirty
            && (forall x: nat :: x < |c.disk| ==> Latest(c', x) == Latest(c, x))
  {
    var c' := WriteBack(c, i);
    LatestAt(c, i);
    assert Inv(c');
    LatestAt(c', i);
    forall x: nat | x < |c.disk| && x != c.bufs[i].blockno ensures Latest(c', x) == Latest(c, x) {
      UpdateOne(c, c', i, x);
    }
  }

  lemma ToFrontPermutation(order: seq<nat>, k: nat)
    requires Permutation(order) && k < |order|
    ensures Permutation(ToFront(order, k))
  {
    var o := ToFront(order, k);
    forall j | 0 <= j < |o| ensures o[j] == order[if j == 0 then k else if j <= k then j - 1 else j] {}
    forall b: nat | b < |o| ensures b in o {
      var m := IndexIn(order, b);
      assert o[if m == k then 0 else if m < k then m + 1 else m] == b;
    }
  }

  /** brelse of a buffer that is pinned or equal to the disk changes no content. */
  lemma ReleaseCorrect(c: Cache, i: nat)
    requires Inv(c) && i < |c.bufs| && c.bufs[i].locked && c.bufs[i].valid
    requires c.bufs[i].dirty || c.bufs[i].data == c.disk[c.bufs[i].blockno]
    ensures i in c.order && Inv(Release(c, i))
    ensures forall x: nat :: x < |c.disk| ==> Latest(Release(c, i), x) == Latest(c, x)
  {
    var c' := Release(c, i);
    ToFrontPermutation(c.order, IndexIn(c.order, i));
    assert Inv(c');
    LatestAt(c, i);
    LatestAt(c', i);
    forall x: nat | x < |c.disk| && x != c.bufs[i].blockno ensures Latest(c', x) == Latest(c, x) {
      UpdateOne(c, c', i, x);
    }
  }

  lemma PinCorrect(c: Cache, i: nat)
    requires Inv(c) && i < |c.bufs| && c.bufs[i].locked && c.bufs[i].valid
    ensures Inv(Pin(c, i))
    ensures forall x: nat :: x < |c.disk| ==> Latest(Pin(c, i), x) == Latest(c, x)
  {
    var c' := Pin(c, i);
    LatestAt(c, i);
    LatestAt(c', i);
    forall x: nat | x < |c.disk| && x != c.bufs[i].blockno ensures Latest(c', x) == Latest(c, x) {
      UpdateOne(c, c', i, x);
    }
  }

  // ---------- the code ----------

  /** The positions visited when walking `next` once around from the head. */
  function Ring(order: seq<nat>): seq<nat> {
    [|order|] + order + [|order|]
  }

  /** next and prev are inverse along the ring; the head is the entry after the last buffer. */
  ghost predicate Linked(next: seq<nat>, prev: seq<nat>, order: seq<nat>) {
    && |next| == |prev| == |order| + 1
    && (forall k :: 0 <= k <= |order| ==> Ring(order)[k] <= |order| && next[Ring(order)[k]] == Ring(order)[k + 1])
    && (forall k :: 0 < k <= |order| + 1 ==> Ring(order)[k] <= |order| && prev[Ring(order)[k]] == Ring(order)[k - 1])
  }

  /** The order binit leaves: the last buffer inserted comes first. */
  function Descending(n: nat): seq<nat> {
    seq(n, i requires 0 <= i < n => n - 1 - i)
  }

  lemma DescendingLinked(next: seq<nat>, prev: seq<nat>, n: nat)
    requires |next| == |prev| == n + 1
    requires next[n] == if n == 0 then n else n - 1
    requires prev[n] == if n == 0 then n else 0
    requires forall i :: 0 <= i < n ==> next[i] == if i == 0 then n else i - 1
    requires forall i :: 0 <= i < n ==> prev[i] == if i == n - 1 then n else i + 1
    ensures Permutation(Descending(n)) && Linked(next, prev, Descending(n))
  {
    var order := Descending(n);
    forall b: nat | b < n ensures b in order {
      assert order[n - 1 - b] == b;
    }
    forall k | 0 <= k <= n ensures Ring(order)[k] <= n && next[Ring(order)[k]] == Ring(order)[k + 1] {}
    forall k | 0 < k <= n + 1 ensures Ring(order)[k] <= n && prev[Ring(order)[k]] == Ring(order)[k - 1] {}
  }

  /** The ring with position k of the order left out. */
  function RingWithout(order: seq<nat>, k: nat): seq<nat>
    requires k < |order|
  {
    [|order|] + order[..k] + order[k + 1..] + [|order|]
  }

  ghost predicate LinkedWithout(next: seq<nat>, prev: seq<nat>, order: seq<nat>, k: nat)
    requires k < |order|
  {
    var ring := RingWithout(order, k);
    && |next| == |prev| == |order| + 1
    && (forall j :: 0 <= j < |order| ==> ring[j] <= |order| && next[ring[j]] == ring[j + 1])
    && (forall j :: 0 < j <= |order| ==> ring[j] <= |order| && prev[ring[j]] == ring[j - 1])
  }

  lemma UnlinkCorrect(next: seq<nat>, prev: seq<nat>, next': seq<nat>, prev': seq<nat>, order: seq<nat>, k: nat)
    requires Permutation(order) && Linked(next, prev, order) && k < |order|
    requires next[order[k]] <= |order| && prev[order[k]] <= |order|
    requires prev' == prev[next[order[k]] := prev[order[k]]]
    requires next' == next[prev[order[k]] := next[order[k]]]
    ensures LinkedWithout(next', prev', order, k)
  {
    var ring, r := Ring(order), RingWithout(order, k);
    assert ring[k + 1] == order[k];
    forall j | 0 <= j <= |order| ensures r[j] == ring[if j <= k then j else j + 1] {}
    forall a, b | 0 <= a < b <= |order| ensures ring[a] != ring[b] {}
    forall a, b | 0 < a < b <= |order| + 1 ensures ring[a] != ring[b] {}
    assert prev[order[k]] == ring[k] && next[order[k]] == ring[k + 2];
    forall j | 0 <= j < |order| ensures r[j] <= |order| && next'[r[j]] == r[j + 1] {
      assert r[j + 1] == ring[if j + 1 <= k then j + 1 else j + 2];
    }
    forall j | 0 < j <= |order| ensures r[j] <= |order| && prev'[r[j]] == r[j - 1] {
      assert r[j - 1] == ring[if j - 1 <= k then j - 1 else j];
    }
  }

  lemma PushFrontCorrect(next: seq<nat>, prev: seq<nat>, next': seq<nat>, prev': seq<nat>, order: seq<nat>, k: nat)
    requires Permutation(order) && k < |order| && LinkedWithout(next, prev, order, k)
    requires next[|order|] <= |order|
    requires next' == next[order[k] := next[|order|]][|order| := order[k]]
    requires prev' == prev[order[k] := |order|][next[|order|] := order[k]]
    ensures Linked(next', prev', ToFront(order, k))
  {
    var n, o, r := |order|, ToFront(order, k), RingWithout(order, k);
    var ring := Ring(o);
    assert r[0] == n && next[n] == r[1];
    forall j | 1 < j <= n + 1 ensures ring[j] == r[j - 1] {}
    assert ring[0] == n && ring[1] == order[k];
    forall j | 0 < j < n ensures r[j] != order[k] && r[j] != n {}
    forall a, b | 0 < a < b <= n ensures r[a] != r[b] {}
  }

  class Bcache {
    const nbuf: nat
    const buf: array<Buf>
    const next: array<nat> // entry nbuf is the list head
    const prev: array<nat>
    var disk: seq<Block>
    ghost var order: seq<nat>
    ghost var trace: seq<Write>

    ghost function Abs(): Cache
      reads this, buf
    {
      Cache(buf[..], order, disk, trace)
    }

    ghost predicate Valid()
      reads this, buf, next, prev
    {
      && buf.Length == nbuf && next.Length == prev.Length == nbuf + 1 && next != prev
      && Inv(Abs())
      && Linked(next[..], prev[..], order)
    }

    /** binit, on a machine whose disk holds `disk`. */
    constructor (nbuf: nat, disk: seq<Block>)
      ensures Valid() && fresh(buf) && fresh(next) && fresh(prev)
      ensures this.nbuf == nbuf && this.disk == disk && trace == []
      ensures forall i :: 0 <= i < nbuf ==> buf[i].dev == 0
      ensures order == Descending(nbuf)
    {
      this.nbuf := nbuf;
      this.disk := disk;
      buf := new Buf[nbuf](_ => Buf(false, false, 0, 0, false, 0, ZeroBlock()));
      next := new nat[nbuf + 1](_ => nbuf);
      prev := new nat[nbuf + 1](_ => nbuf);
      order, trace := [], [];
      new;
      var b := 0;
      while b < nbuf
        modifies next, prev
        invariant 0 <= b <= nbuf
        invariant next[nbuf] == if b == 0 then nbuf else b - 1
        invariant prev[nbuf] == if b == 0 then nbuf else 0
        invariant forall i :: 0 <= i < b ==> next[i] == if i == 0 then nbuf else i - 1
        invariant forall i :: 0 <= i < b ==> prev[i] == if i == b - 1 then nbuf else i + 1
      {
        next[b] := next[nbuf];
        prev[b] := nbuf;
        prev[next[nbuf]] := b;
        next[nbuf] := b;
        b := b + 1;
      }
      order := Descending(nbuf);
      DescendingLinked(next[..], prev[..], nbuf);
    }

    /** bget: look for the block from the front of the list, else recycle from the back.
        None is the panic "bget: no buffers". */
    method Bget(dev: nat, blockno: nat) returns (r: Option<nat>)
      requires Valid() && dev == DISK_DEV && blockno < |disk| && Unlocked(Abs(), blockno)
      modifies buf
      ensures next[..] == old(next[..]) && prev[..] == old(prev[..])
      ensures old(Cached(Abs(), blockno)) ==>
                && r == Some(old(Slot(Abs(), blockno)))
                && buf[..] == old(buf[..])[r.value :=
                   old(buf[..])[r.value].(refcnt := old(buf[..])[r.value].refcnt + 1, locked := true)]
      ensures !old(Cached(Abs(), blockno)) ==>
                && r == old(Victim(buf[..], order))
                && (r.None? ==> buf[..] == old(buf[..]))
                && (r.Some? ==> LastIdle(old(buf[..]), order, r.value))
                && (r.Some? ==> buf[..] == old(buf[..])[r.value :=
                   Buf(false, false, dev, blockno, true, 1, old(buf[..])[r.value].data)])
    {
      var hit := FindCached(dev, blockno);
      if hit.Some? {
        var b := hit.value;
        buf[b] := buf[b].(refcnt := buf[b].refcnt + 1, locked := true);
        return hit;
      }
      r := FindVictim();
      if r.Some? {
        buf[r.value] := Buf(false, false, dev, blockno, true, 1, buf[r.value].data);
      }
    }

    /** Is the block already cached? From the front of the list. */
    method FindCached(dev: nat, blockno: nat) returns (r: Option<nat>)
      requires Valid() && dev == DISK_DEV && Unlocked(Abs(), blockno)
      ensures r.Some? <==> Cached(Abs(), blockno)
      ensures r.Some? ==> r.value == Slot(Abs(), blockno)
    {
      var b := next[nbuf];
      ghost var k := 0;
      assert Ring(order)[0] == nbuf;
      while b != nbuf
        invariant 0 <= k <= nbuf && b == Ring(order)[k + 1]
        invariant forall i :: 0 <= i < k ==> !buf[order[i]].Holds(blockno)
        decreases nbuf - k
      {
        assert b == order[k];
        if buf[b].dev == dev && buf[b].blockno == blockno {
          assert buf[..][b].Holds(blockno);
          LatestAt(Abs(), b);
          return Some(b);
        }
        k := k + 1;
        b := next[b];
      }
      forall i | 0 <= i < nbuf ensures !buf[i].Holds(blockno) {
        assert i in order;
      }
      return None;
    }

    /** An unused buffer, from the back of the list. */
    method FindVictim() returns (r: Option<nat>)
      requires Valid()
      ensures r == Victim(buf[..], order)
      ensures r.Some? ==> LastIdle(buf[..], order, r.value)
    {
      var b := prev[nbuf];
      ghost var k := nbuf;
      assert Ring(order)[nbuf + 1] == nbuf;
      while b != nbuf
        invariant 0 <= k <= nbuf && b == Ring(order)[k]
        invariant BusyFrom(buf[..], order, k)
        decreases k
      {
        assert b == order[k - 1];
        if buf[b].refcnt == 0 && !buf[b].dirty {
          VictimExact(buf[..], order, k - 1);
          return Some(b);
        }
        k := k - 1;
        b := prev[b];
      }
      VictimNone(buf[..], order);
      return None;
    }

    /** bread (with the read half of iderw). */
    method Bread(dev: nat, blockno: nat) returns (r: Option<nat>)
      requires Valid() && dev == DISK_DEV && blockno < |disk| && Unlocked(Abs(), blockno)
      modifies buf
      ensures Valid() && next[..] == old(next[..]) && prev[..] == old(prev[..])
      ensures r.None? <==> Read(old(Abs()), blockno).None?
      ensures r.None? ==> Abs() == old(Abs())
      ensures r.Some? ==> Read(old(Abs()), blockno) == Some((Abs(), r.value))
      ensures r.Some? ==> r.value < nbuf && buf[r.value].data == Latest(old(Abs()), blockno)
    {
      ReadCorrect(Abs(), blockno);
      r := Bget(dev, blockno);
      if r.Some? {
        var i := r.value;
        if !buf[i].valid {
          buf[i] := buf[i].(data := disk[blockno], valid := true);
        }
        assert Abs().bufs == Read(old(Abs()), blockno).value.0.bufs;
      }
    }

    /** memmove into the data of a buffer the caller has locked. */
    method Modify(i: nat, d: Block)
      requires Valid() && i < nbuf && buf[i].locked && buf[i].valid
      modifies buf
      ensures Valid() && Abs() == SetData(old(Abs()), i, d)
      ensures next[..] == old(next[..]) && prev[..] == old(prev[..])
    {
      SetDataCorrect(Abs(), i, d);
      buf[i] := buf[i].(data := d);
      assert Abs() == SetData(old(Abs()), i, d);
    }

    /** bwrite (with the write half of iderw). */
    method Bwrite(i: nat)
      requires Valid() && i < nbuf && buf[i].locked && buf[i].valid
      modifies this, buf
      ensures Valid() && Abs() == WriteBack(old(Abs()), i)
      ensures next[..] == old(next[..]) && prev[..] == old(prev[..])
    {
      WriteBackCorrect(Abs(), i);
      buf[i] := buf[i].(dirty := true);
      disk := disk[buf[i].blockno := buf[i].data];
      trace := trace + [Write(buf[i].blockno, buf[i].data)];
      buf[i] := buf[i].(dirty := false, valid := true);
      assert Abs() == WriteBack(old(Abs()), i);
    }

    /** The flag that log_write sets. */
    method SetDirty(i: nat)
      requires Valid() && i < nbuf && buf[i].locked && buf[i].valid
      modifies buf
      ensures Valid() && Abs() == Pin(old(Abs()), i)
      ensures next[..] == old(next[..]) && prev[..] == old(prev[..])
    {
      PinCorrect(Abs(), i);
      buf[i] := buf[i].(dirty := true);
      assert Abs() == Pin(old(Abs()), i);
    }

    /** The list surgery of brelse. */
    method MoveToFront(i: nat, ghost k: nat)
      requires next.Length == prev.Length == nbuf + 1 && next != prev
      requires |order| == nbuf && Permutation(order) && Linked(next[..], prev[..], order)
      requires k < nbuf && order[k] == i
      modifies next, prev
      ensures Linked(next[..], prev[..], ToFront(order, k))
    {
      assert Ring(order)[k + 1] == i && next[..][i] == Ring(order)[k + 2] && prev[..][i] == Ring(order)[k];
      prev[next[i]] := prev[i];
      next[prev[i]] := next[i];
      UnlinkCorrect(old(next[..]), old(prev[..]), next[..], prev[..], order, k);
      label unlinked:
      assert RingWithout(order, k)[0] == nbuf && next[..][nbuf] == RingWithout(order, k)[1];
      next[i] := next[nbuf];
      prev[i] := nbuf;
      prev[next[nbuf]] := i;
      next[nbuf] := i;
      PushFrontCorrect(old@unlinked(next[..]), old@unlinked(prev[..]), next[..], prev[..], order, k);
    }

    /** brelse: unlock; the last reference moves the buffer to the front of the list. */
    method Brelse(i: nat)
      requires Valid() && i < nbuf && buf[i].locked && buf[i].valid
      requires buf[i].dirty || buf[i].data == disk[buf[i].blockno]
      modifies this, buf, next, prev
      ensures Valid() && i in old(order) && Abs() == Release(old(Abs()), i)
    {
      ReleaseCorrect(Abs(), i);
      buf[i] := buf[i].(locked := false, refcnt := buf[i].refcnt - 1);
      if buf[i].refcnt == 0 {
        ghost var k := IndexIn(order, i);
        MoveToFront(i, k);
        order := ToFront(order, k);
      }
      assert Abs() == Release(old(Abs()), i);
    }
  }
}
