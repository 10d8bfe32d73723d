/** The Kernighan and Ritchie allocator of umalloc.c: a circular, address-ordered, coalescing list of
    free blocks kept in headers inside the memory it manages. Addresses count Header-sized units. */
module Umalloc {
  import opened Blocks

  datatype Header = Header(ptr: nat, size: nat)
  type Mem = map<nat, Header>

  /** The headers, and (for the proof) the headers on the free list with the static `base` among them,
      the headers of the blocks handed out, and the units obtained from sbrk. */
  datatype Heap = Heap(base: nat, mem: Mem, free: set<nat>, live: set<nat>, arena: set<nat>)

  function Size(h: Heap, b: nat): nat
    requires b in h.mem
  {
    h.mem[b].size
  }

  function End(h: Heap, b: nat): nat
    requires b in h.mem
  {
    b + h.mem[b].size
  }

  /** c follows b on the list: the next free header upwards, or base after the highest one. */
  ghost predicate Follows(free: set<nat>, base: nat, b: nat, c: nat) {
    && c in free
    && (if b < c then forall x :: x in free ==> x <= b || c <= x
        else c == base && forall x :: x in free ==> x <= b)
  }

  ghost predicate LinkOk(h: Heap, b: nat) {
    b in h.mem && Follows(h.free, h.base, b, h.mem[b].ptr)
  }

  /** The list is circular and in address order with one wrap point, back to base. */
  ghost predicate RingOk(h: Heap) {
    && h.base in h.free
    && (forall b :: b in h.free ==> b in h.mem && h.base <= b && (Size(h, b) == 0 <==> b == h.base))
    && (forall b {:trigger LinkOk(h, b)} :: b in h.free ==> LinkOk(h, b))
  }

  predicate Apart(h: Heap, b: nat, c: nat)
    requires b in h.mem && c in h.mem
  {
    End(h, b) <= c || End(h, c) <= b
  }

  /** Blocks, free and live, are non-empty and do not overlap. */
  ghost predicate BlocksOk(h: Heap)
    requires RingOk(h)
  {
    && h.free !! h.live
    && (forall b :: b in h.live ==> b in h.mem && 0 < Size(h, b) && h.base < b)
    && (forall b, c :: b in h.free + h.live && c in h.free + h.live && b != c ==> Apart(h, b, c))
  }

  /** No free block touches another. */
  ghost predicate Tight(h: Heap)
    requires RingOk(h)
  {
    forall b, c :: b in h.free && c in h.free ==> End(h, b) != c || b == c
  }

  predicate Holds(h: Heap, b: nat, u: nat)
    requires b in h.mem
  {
    b <= u < End(h, b)
  }

  ghost predicate Covered(h: Heap, u: nat)
    requires RingOk(h) && BlocksOk(h)
  {
    exists b :: b in h.free + h.live && Holds(h, b, u)
  }

  /** Free and live blocks partition the arena. */
  ghost predicate Inv(h: Heap) {
    RingOk(h) && BlocksOk(h) && forall u :: u in h.arena <==> Covered(h, u)
  }

  // ---------- free ----------

  /** Block b belongs right after free header p. */
  ghost predicate Place(h: Heap, b: nat, p: nat) {
    p in h.free && p < b && forall x :: x in h.free ==> x <= p || b < x
  }

  /** The test at the head of free's loop, or its break test, holds at p. */
  predicate StopsAt(m: Mem, b: nat, p: nat)
    requires p in m
  {
    (p < b && b < m[p].ptr) || (p >= m[p].ptr && (b > p || b < m[p].ptr))
  }

  /** Walking the list, free stops at the right place and nowhere else. */
  lemma {:induction false} StopsExactly(h: Heap, b: nat, p: nat)
    requires RingOk(h) && p in h.free && h.base < b && b !in h.free
    ensures StopsAt(h.mem, b, p) <==> Place(h, b, p)
  {
    assert LinkOk(h, p);
  }

  /** The free headers still to be visited, going round from p, before the place of b is reached. */
  ghost function Ahead(h: Heap, b: nat, p: nat): set<nat> {
    if p < b then set x | x in h.free && p < x < b
    else (set x | x in h.free && p < x) + (set x | x in h.free && x < b)
  }

  lemma {:induction false} AheadShrinks(h: Heap, b: nat, p: nat)
    requires RingOk(h) && p in h.free && h.base < b && b !in h.free && !Place(h, b, p)
    ensures h.mem[p].ptr in h.free && Ahead(h, b, h.mem[p].ptr) < Ahead(h, b, p)
  {
    var q := h.mem[p].ptr;
    assert LinkOk(h, p);
    assert q in Ahead(h, b, p);
  }

  // Free, as the code does it, is an insertion followed by up to two merges of touching neighbours.

  /** Block b linked after free header p, as a block of its own. */
  function Insert(h: Heap, b: nat, p: nat): Heap
    requires b in h.mem && p in h.mem
  {
    Heap(h.base, h.mem[b := Header(h.mem[p].ptr, h.mem[b].size)][p := Header(b, h.mem[p].size)],
         h.free + {b}, h.live - {b}, h.arena)
  }

  /** Free block p swallows the next one. */
  function Merge(h: Heap, p: nat): Heap
    requires p in h.mem && h.mem[p].ptr in h.mem
  {
    var q := h.mem[p].ptr;
    Heap(h.base, h.mem[p := Header(h.mem[q].ptr, h.mem[p].size + h.mem[q].size)], h.free - {q}, h.live, h.arena)
  }

  /** Blocks with the same extents cover the same units. */
  lemma {:induction false} SameCover(h: Heap, h': Heap, u: nat)
    requires RingOk(h) && BlocksOk(h) && RingOk(h') && BlocksOk(h') && h'.free + h'.live == h.free + h.live
    requires forall b :: b in h.free + h.live ==> Size(h', b) == Size(h, b)
    ensures Covered(h, u) <==> Covered(h', u)
  {
    if Covered(h, u) {
      var b :| b in h.free + h.live && Holds(h, b, u);
      assert Holds(h', b, u);
    }
    if Covered(h', u) {
      var b :| b in h'.free + h'.live && Holds(h', b, u);
      assert Holds(h, b, u);
    }
  }

  lemma {:induction false} InsertRing(h: Heap, b: nat, p: nat)
    requires RingOk(h) && BlocksOk(h) && b in h.live && Place(h, b, p)
    ensures RingOk(Insert(h, b, p))
  {
    var h' := Insert(h, b, p);
    assert LinkOk(h, p);
    forall c | c in h'.free ensures LinkOk(h', c) {
      assert c != b ==> LinkOk(h, c);
    }
  }

  lemma {:induction false} InsertInv(h: Heap, b: nat, p: nat)
    requires Inv(h) && b in h.live && Place(h, b, p)
    ensures Inv(Insert(h, b, p))
  {
    InsertRing(h, b, p);
    var h' := Insert(h, b, p);
    assert h'.free + h'.live == h.free + h.live;
    assert forall c :: c in h.mem ==> Size(h', c) == Size(h, c);
    forall c, d | c in h'.free + h'.live && d in h'.free + h'.live && c != d ensures Apart(h', c, d) {
      assert Apart(h, c, d);
    }
    forall u: nat ensures u in h'.arena <==> Covered(h', u) {
      SameCover(h, h', u);
    }
  }

  lemma {:induction false} MergeRing(h: Heap, p: nat)
    requires RingOk(h) && p in h.free && p != h.base && h.mem[p].ptr == End(h, p) && End(h, p) in h.free
    ensures RingOk(Merge(h, p))
  {
    var h', q := Merge(h, p), h.mem[p].ptr;
    assert LinkOk(h, p) && LinkOk(h, q);
    forall c | c in h'.free ensures LinkOk(h', c) {
      assert LinkOk(h, c);
    }
  }

  lemma {:induction false} MergeBlocks(h: Heap, p: nat)
    requires RingOk(h) && BlocksOk(h) && p in h.free && p != h.base && h.mem[p].ptr == End(h, p)
             && End(h, p) in h.free && RingOk(Merge(h, p))
    ensures BlocksOk(Merge(h, p))
  {
    var h', q := Merge(h, p), h.mem[p].ptr;
    assert LinkOk(h, p);
    forall c, d | c in h'.free + h'.live && d in h'.free + h'.live && c != d ensures Apart(h', c, d) {
      assert c in h.free + h.live && d in h.free + h.live && q in h.free + h.live;
      assert Apart(h, c, d) && Apart(h, c, q) && Apart(h, d, q);
    }
  }

  lemma {:induction false} MergeInv(h: Heap, p: nat)
    requires Inv(h) && p in h.free && p != h.base && h.mem[p].ptr == End(h, p) && End(h, p) in h.free
    ensures Inv(Merge(h, p))
  {
    MergeRing(h, p);
    MergeBlocks(h, p);
    var h', q := Merge(h, p), h.mem[p].ptr;
    assert LinkOk(h, p);
    forall u: nat ensures u in h'.arena <==> Covered(h', u) {
      if b :| b in h.free + h.live && Holds(h, b, u) {
        assert Holds(h', if b == q then p else b, u);
      }
      if b :| b in h'.free + h'.live && Holds(h', b, u) {
        assert Holds(h, if b == p && u >= q then q else b, u);
      }
    }
  }

  /** The block merged with the one after it if they touch. */
  function MergeNext(h: Heap, p: nat): Heap
    requires p in h.mem && h.mem[p].ptr in h.mem
  {
    if p != h.base && End(h, p) == h.mem[p].ptr then Merge(h, p) else h
  }

  lemma {:induction false} MergeNextInv(h: Heap, p: nat)
    requires Inv(h) && p in h.free
    ensures h.mem[p].ptr in h.mem && Inv(MergeNext(h, p)) && p in MergeNext(h, p).free
  {
    assert LinkOk(h, p);
    if p != h.base && End(h, p) == h.mem[p].ptr {
      MergeInv(h, p);
    }
  }

  /** Touching free blocks are list neighbours. */
  lemma {:induction false} TouchIsNext(h: Heap, b: nat, c: nat)
    requires Inv(h) && b in h.free && c in h.free && b != c && End(h, b) == c
    ensures b != h.base && h.mem[b].ptr == c
  {
    assert LinkOk(h, b);
    var q := h.mem[b].ptr;
    assert Apart(h, b, q) || q == b;
  }

  /** The heap after free(b), given the place it found. */
  ghost function Released(h: Heap, b: nat, p: nat): Heap
    requires Inv(h) && b in h.live && Place(h, b, p)
  {
    InsertInv(h, b, p);
    var h1 := Insert(h, b, p);
    MergeNextInv(h1, b);
    var h2 := MergeNext(h1, b);
    MergeNextInv(h2, p);
    MergeNext(h2, p)
  }

  /** Only b and its neighbours can touch after the insertion, and the merges remove that. */
  lemma {:induction false} ReleasedTight(h: Heap, b: nat, p: nat)
    requires Inv(h) && Tight(h) && b in h.live && Place(h, b, p)
    ensures Inv(Released(h, b, p)) && Tight(Released(h, b, p)) && p in Released(h, b, p).free
    ensures Released(h, b, p).live == h.live - {b} && Released(h, b, p).arena == h.arena
    ensures forall c :: c in h.live - {b} ==> c in Released(h, b, p).mem && Released(h, b, p).mem[c] == h.mem[c]
  {
    InsertInv(h, b, p);
    var h1 := Insert(h, b, p);
    MergeNextInv(h1, b);
    var h2 := MergeNext(h1, b);
    MergeNextInv(h2, p);
    var h3 := MergeNext(h2, p);
    forall c, d | c in h2.free && d in h2.free && c != d && End(h2, c) == d ensures c == p && d == b {
      TouchAfterInsert(h, h1, h2, b, p, c, d);
    }
    forall c, d | c in h3.free && d in h3.free && c != d ensures End(h3, c) != d {
      TouchAfterMerge(h2, h3, p, b, c, d);
    }
  }

  lemma {:induction false} TouchAfterInsert(h: Heap, h1: Heap, h2: Heap, b: nat, p: nat, c: nat, d: nat)
    requires Inv(h) && Tight(h) && b in h.live && Place(h, b, p) && h1 == Insert(h, b, p) && Inv(h1)
    requires h1.mem[b].ptr in h1.mem && h2 == MergeNext(h1, b) && Inv(h2)
    requires c in h2.free && d in h2.free && c != d && End(h2, c) == d
    ensures c == p && d == b
  {
    var q := h1.mem[b].ptr;
    TouchIsNext(h2, c, d);
    assert LinkOk(h1, b) && LinkOk(h1, p) && LinkOk(h2, b);
    if c != b && d == b {
      assert LinkOk(h2, p) && LinkOk(h2, c);
      assert p in h2.free && h2.mem[p].ptr == b && p < b && c < b;
    }
  }

  lemma {:induction false} TouchAfterMerge(h2: Heap, h3: Heap, p: nat, b: nat, c: nat, d: nat)
    requires Inv(h2) && p in h2.free && b in h2.free && h2.mem[p].ptr in h2.mem && h3 == MergeNext(h2, p) && Inv(h3)
    requires p != b && h2.mem[p].ptr == b
    requires forall x, y :: x in h2.free && y in h2.free && x != y && End(h2, x) == y ==> x == p && y == b
    requires c in h3.free && d in h3.free && c != d
    ensures End(h3, c) != d
  {
    if End(h3, c) == d {
      TouchIsNext(h3, c, d);
    }
  }

  /** Some free block is at least as large as the one just freed. */
  lemma {:induction false} ReleasedBig(h: Heap, b: nat, p: nat)
    requires Inv(h) && Tight(h) && b in h.live && Place(h, b, p)
    ensures RingOk(Released(h, b, p))
    ensures exists c :: c in Released(h, b, p).free && Size(Released(h, b, p), c) >= Size(h, b)
  {
    ReleasedTight(h, b, p);
    InsertInv(h, b, p);
    var h1 := Insert(h, b, p);
    MergeNextInv(h1, b);
    var h2, h3 := MergeNext(h1, b), Released(h, b, p);
    assert Size(h2, b) >= Size(h, b);
    assert LinkOk(h2, p) && LinkOk(h1, p) && h2.mem[p].ptr == b;
    if h3 == h2 {
      assert Size(h3, b) >= Size(h, b);
    } else {
      assert Size(h3, p) >= Size(h, b);
    }
  }

  /** Every free block is as it was, or holds the block just freed. */
  ghost predicate FreeOrHolds(h: Heap, b: nat, h': Heap) {
    forall c :: c in h'.free && c in h'.mem && b in h.mem ==>
        || (c in h.free && c in h.mem && h'.mem[c].size == h.mem[c].size)
        || (c <= b && End(h, b) <= End(h', c))
  }

  lemma {:induction false} ReleasedSizes(h: Heap, b: nat, p: nat)
    requires Inv(h) && b in h.live && Place(h, b, p)
    ensures FreeOrHolds(h, b, Released(h, b, p))
  {
    InsertInv(h, b, p);
    var h1 := Insert(h, b, p);
    MergeNextInv(h1, b);
    var h2 := MergeNext(h1, b);
    assert LinkOk(h2, p) && LinkOk(h1, p) && h2.mem[p].ptr == b;
  }

  // ---------- malloc ----------

  /** sizeof(Header) is 8, and the arithmetic is on 32-bit unsigned ints. */
  function Units(nbytes: Uint): (n: nat)
    ensures 1 <= n
  {
    (nbytes + 7) % 0x1_0000_0000 / 8 + 1
  }

  /** sbrk takes an int. */
  function AsInt(x: Uint): int {
    if x < 0x8000_0000 then x else x - 0x1_0000_0000
  }

  /** The number of units morecore means to add. */
  function MoreUnits(nu: nat): nat {
    if nu < 4096 then 4096 else nu
  }

  /** The number of bytes it asks sbrk for. */
  function SbrkBytes(nu: nat): int {
    AsInt(MoreUnits(nu) * 8 % 0x1_0000_0000)
  }

  /** A block of the computed size has room for the request, and less than a unit to spare, exactly up to
      2^32 - 8 bytes; beyond that the sum wraps and the size is one unit, the header alone. */
  lemma {:induction false} RoomExact(nbytes: Uint)
    ensures nbytes <= (Units(nbytes) - 1) * 8 <==> nbytes <= 0xffff_fff8
    ensures nbytes <= 0xffff_fff8 ==> (Units(nbytes) - 1) * 8 < nbytes + 8
    ensures nbytes > 0xffff_fff8 ==> Units(nbytes) == 1
  {
    if nbytes <= 0xffff_fff8 {
      var q := (nbytes + 7) / 8;
      assert q * 8 <= nbytes + 7 < q * 8 + 8;
      assert Units(nbytes) == q + 1;
    } else {
      assert (nbytes + 7) % 0x1_0000_0000 == nbytes + 7 - 0x1_0000_0000;
    }
  }

  /** morecore asks sbrk for as much as it means to add, exactly when the request is at most 2^31 - 16 bytes or
      its size has wrapped. */
  lemma {:induction false} SbrkExact(nbytes: Uint)
    ensures SbrkBytes(Units(nbytes)) >= MoreUnits(Units(nbytes)) * 8 <==> nbytes <= 0x7fff_fff0 || nbytes > 0xffff_fff8
  {
    RoomExact(nbytes);
    if nbytes <= 0xffff_fff8 {
      var n := Units(nbytes);
      assert n == (nbytes + 7) / 8 + 1;
      if n < 0x1000_0000 {
        assert MoreUnits(n) * 8 < 0x8000_0000;
      } else if n < 0x2000_0000 {
        assert n * 8 % 0x1_0000_0000 == n * 8;
      } else {
        assert n == 0x2000_0000;
      }
    }
  }

  /** The block malloc takes from free block p: all of it, or its tail. */
  function Taken(h: Heap, p: nat, n: nat): nat
    requires p in h.mem && n <= h.mem[p].size
  {
    p + h.mem[p].size - n
  }

  function Carve(h: Heap, prev: nat, p: nat, n: nat): Heap
    requires prev in h.mem && p in h.mem && n <= h.mem[p].size
  {
    if h.mem[p].size == n then
      Heap(h.base, h.mem[prev := Header(h.mem[p].ptr, h.mem[prev].size)], h.free - {p}, h.live + {p}, h.arena)
    else
      var r := Taken(h, p, n);
      var old_ := if r in h.mem then h.mem[r].ptr else 0;
      Heap(h.base, h.mem[p := Header(h.mem[p].ptr, h.mem[p].size - n)][r := Header(old_, n)],
           h.free, h.live + {r}, h.arena)
  }

  lemma {:induction false} CarveAllRing(h: Heap, prev: nat, p: nat)
    requires RingOk(h) && prev in h.free && p in h.free && h.mem[prev].ptr == p && p != h.base
    ensures RingOk(Carve(h, prev, p, Size(h, p))) && prev != p
  {
    var h' := Carve(h, prev, p, Size(h, p));
    assert LinkOk(h, prev) && LinkOk(h, p);
    forall c | c in h'.free ensures LinkOk(h', c) {
      assert LinkOk(h, c);
    }
  }

  lemma {:induction false} CarveAll(h: Heap, prev: nat, p: nat)
    requires Inv(h) && Tight(h) && prev in h.free && p in h.free && h.mem[prev].ptr == p && p != h.base
    ensures Inv(Carve(h, prev, p, Size(h, p))) && Tight(Carve(h, prev, p, Size(h, p)))
    ensures prev in Carve(h, prev, p, Size(h, p)).free
  {
    CarveAllRing(h, prev, p);
    var h' := Carve(h, prev, p, Size(h, p));
    assert h'.free + h'.live == h.free + h.live;
    assert forall c :: c in h.mem ==> Size(h', c) == Size(h, c);
    forall c, d | c in h'.free + h'.live && d in h'.free + h'.live && c != d ensures Apart(h', c, d) {
      assert Apart(h, c, d);
    }
    forall u: nat ensures u in h'.arena <==> Covered(h', u) {
      SameCover(h, h', u);
    }
  }

  /** The tail of a free block is nobody's header. */
  lemma {:induction false} TailUnused(h: Heap, p: nat, n: nat)
    requires Inv(h) && p in h.free && 0 < n < Size(h, p)
    ensures Taken(h, p, n) !in h.free + h.live
  {
    forall b | b in h.free + h.live ensures b != Taken(h, p, n) {
      assert b == p || Apart(h, p, b);
    }
  }

  lemma {:induction false} CarveTailBlocks(h: Heap, p: nat, n: nat)
    requires Inv(h) && p in h.free && 0 < n < Size(h, p)
    ensures RingOk(Carve(h, p, p, n)) && BlocksOk(Carve(h, p, p, n))
  {
    var h', r := Carve(h, p, p, n), Taken(h, p, n);
    TailUnused(h, p, n);
    forall c | c in h'.free ensures LinkOk(h', c) {
      assert LinkOk(h, c);
    }
    assert RingOk(h');
    assert h'.free + h'.live == h.free + h.live + {r};
    forall c, d | c in h'.free + h'.live && d in h'.free + h'.live && c != d ensures Apart(h', c, d) {
      CarveTailApart(h, p, n, c, d);
    }
  }

  lemma {:induction false} CarveTail(h: Heap, p: nat, n: nat)
    requires Inv(h) && Tight(h) && p in h.free && 0 < n < Size(h, p)
    ensures Inv(Carve(h, p, p, n)) && Tight(Carve(h, p, p, n))
  {
    CarveTailBlocks(h, p, n);
    TailUnused(h, p, n);
    var h', r := Carve(h, p, p, n), Taken(h, p, n);
    forall c, d | c in h'.free && d in h'.free && c != d ensures End(h', c) != d {
      assert End(h', c) == if c == p then r else End(h, c);
    }
    forall u: nat ensures u in h'.arena <==> Covered(h', u) {
      if b :| b in h.free + h.live && Holds(h, b, u) {
        assert Holds(h', if b == p && r <= u then r else b, u);
      }
      if b :| b in h'.free + h'.live && Holds(h', b, u) {
        assert Holds(h, if b == r then p else b, u);
      }
    }
  }

  lemma {:induction false} CarveTailApart(h: Heap, p: nat, n: nat, c: nat, d: nat)
    requires Inv(h) && p in h.free && 0 < n < Size(h, p) && Taken(h, p, n) !in h.free + h.live
    requires c != d && c in h.free + h.live + {Taken(h, p, n)} && d in h.free + h.live + {Taken(h, p, n)}
    ensures Apart(Carve(h, p, p, n), c, d)
  {
    var r := Taken(h, p, n);
    assert c != r && d != r ==> Apart(h, c, d);
    assert c == r && d != p ==> Apart(h, p, d);
    assert d == r && c != p ==> Apart(h, c, p);
  }

  function Span(a: nat, n: nat): (s: set<nat>)
    ensures forall u :: u in s <==> a <= u < a + n
  {
    if n == 0 then {} else Span(a, n - 1) + {a + n - 1}
  }

  /** New memory from sbrk at a, above everything, first counted as a block in use. */
  function Grow(h: Heap, a: nat, n: nat): Heap {
    Heap(h.base, h.mem[a := Header(if a in h.mem then h.mem[a].ptr else 0, n)], h.free, h.live + {a},
         h.arena + Span(a, n))
  }

  /** Everything obtained so far lies below the break. */
  ghost predicate Below(h: Heap, top: nat) {
    h.base < top && forall u :: u in h.arena ==> u < top
  }

  lemma {:induction false} BlockBelow(h: Heap, top: nat, b: nat)
    requires Inv(h) && Below(h, top) && b in h.free + h.live
    ensures b < top && End(h, b) <= top
  {
    if b != h.base {
      assert Holds(h, b, End(h, b) - 1);
      assert Covered(h, End(h, b) - 1);
    }
  }

  lemma {:induction false} GrowBlocks(h: Heap, a: nat, n: nat, top: nat)
    requires Inv(h) && Tight(h) && Below(h, top) && top <= a && 0 < n
    ensures RingOk(Grow(h, a, n)) && BlocksOk(Grow(h, a, n)) && Tight(Grow(h, a, n)) && a !in h.free + h.live
  {
    var h' := Grow(h, a, n);
    forall c | c in h.free + h.live ensures c < a && End(h, c) <= a && h'.mem[c] == h.mem[c] {
      BlockBelow(h, top, c);
    }
    forall c | c in h'.free ensures LinkOk(h', c) {
      assert LinkOk(h, c);
    }
    assert RingOk(h');
    forall c, d | c in h'.free + h'.live && d in h'.free + h'.live && c != d ensures Apart(h', c, d) {
      assert c != a && d != a ==> Apart(h, c, d);
    }
  }

  lemma {:induction false} GrowInv(h: Heap, a: nat, n: nat, top: nat)
    requires Inv(h) && Tight(h) && Below(h, top) && top <= a && 0 < n
    ensures Inv(Grow(h, a, n)) && Tight(Grow(h, a, n)) && Below(Grow(h, a, n), a + n)
    ensures a !in h.free + h.live
  {
    GrowBlocks(h, a, n, top);
    var h' := Grow(h, a, n);
    forall u: nat ensures u in h'.arena <==> Covered(h', u) {
      if b :| b in h.free + h.live && Holds(h, b, u) {
        assert Holds(h', b, u);
      }
      if b :| b in h'.free + h'.live && Holds(h', b, u) {
        assert b == a || Holds(h, b, u);
      }
      if a <= u < a + n {
        assert Holds(h', a, u);
      }
    }
  }

  /** Free headers from p's successor round to `stop`, in the order malloc's search visits them. */
  ghost function Rest(free: set<nat>, p: nat, stop: nat): set<nat> {
    if p == stop then {}
    else if p < stop then set x | x in free && p < x <= stop
    else (set x | x in free && p < x) + (set x | x in free && x <= stop)
  }

  lemma {:induction false} RestShrinks(h: Heap, p: nat, stop: nat)
    requires RingOk(h) && p in h.free && stop in h.free && p != stop
    ensures var q := h.mem[p].ptr;
            q in h.free && Rest(h.free, q, stop) < Rest(h.free, p, stop)
            && Rest(h.free, p, stop) == Rest(h.free, q, stop) + {q}
  {
    var q := h.mem[p].ptr;
    assert LinkOk(h, p);
    assert q in Rest(h.free, p, stop);
  }

  lemma {:induction false} RestIsAll(h: Heap, stop: nat)
    requires RingOk(h) && stop in h.free
    ensures var q := h.mem[stop].ptr;
            q in h.free && Rest(h.free, q, stop) + {q} == h.free
  {
    var q := h.mem[stop].ptr;
    assert LinkOk(h, stop);
    forall x | x in h.free ensures x in Rest(h.free, q, stop) + {q} {}
  }

  /** The four assignments of free. */
  function FreeMem(m: Mem, b: nat, p: nat): Mem
    requires b in m && p in m && m[p].ptr in m && b != p
  {
    var q := m[p].ptr;
    var m1 := m[b := if b + m[b].size == q then Header(m[q].ptr, m[b].size + m[q].size) else Header(q, m[b].size)];
    m1[p := if p + m1[p].size == b then Header(m1[b].ptr, m1[p].size + m1[b].size) else Header(b, m1[p].size)]
  }

  lemma {:induction false} FreeMemIsReleased(h: Heap, b: nat, p: nat)
    requires Inv(h) && b in h.live && Place(h, b, p)
    ensures h.mem[p].ptr in h.mem && FreeMem(h.mem, b, p) == Released(h, b, p).mem
    ensures Released(h, b, p).base == h.base
  {
    assert LinkOk(h, p);
    InsertInv(h, b, p);
    var h1, q := Insert(h, b, p), h.mem[p].ptr;
    MergeNextInv(h1, b);
    var h2 := MergeNext(h1, b);
    MergeNextInv(h2, p);
    var m := h.mem;
    var m1 := m[b := if b + m[b].size == q then Header(m[q].ptr, m[b].size + m[q].size) else Header(q, m[b].size)];
    assert LinkOk(h1, b);
    assert h2.mem == m1[p := Header(b, m[p].size)];
  }

  lemma {:induction false} Freed(h: Heap, b: nat, p: nat, h': Heap, top: nat)
    requires Inv(h) && Tight(h) && b in h.live && Place(h, b, p) && Below(h, top)
    requires h' == Heap(h.base, Released(h, b, p).mem, Released(h, b, p).free, h.live - {b}, h.arena)
    ensures Inv(h') && Tight(h') && p in h'.free && Below(h', top) && FreeOrHolds(h, b, h')
    ensures forall c :: c in h'.live ==> c in h.mem && c in h'.mem && h'.mem[c] == h.mem[c]
    ensures exists c :: c in h'.free && c in h'.mem && h'.mem[c].size >= h.mem[b].size
  {
    FreeMemIsReleased(h, b, p);
    ReleasedTight(h, b, p);
    ReleasedBig(h, b, p);
    ReleasedSizes(h, b, p);
    assert h' == Released(h, b, p);
  }

  /** malloc's first call makes a list of base alone. */
  lemma {:induction false} StartInv(base: nat, brk: nat)
    requires 0 < base < brk
    ensures var h := Heap(base, map[base := Header(base, 0)], {base}, {}, {});
            Inv(h) && Tight(h) && Below(h, brk)
  {
  }

  ghost predicate HasRoom(h: Heap, n: nat) {
    exists x :: x in h.free && x in h.mem && h.mem[x].size >= n
  }

  /** malloc's search stands at p, just after prev; everything it has passed is too small. */
  ghost predicate Searching(h: Heap, prev: nat, p: nat, stop: nat, n: nat) {
    && RingOk(h) && prev in h.free && p in h.free && h.mem[prev].ptr == p && stop in h.free
    && forall x :: x in h.free ==> x == p || x in Rest(h.free, p, stop) || h.mem[x].size < n
  }

  lemma {:induction false} SearchStart(h: Heap, stop: nat, n: nat)
    requires RingOk(h) && stop in h.free
    ensures Searching(h, stop, h.mem[stop].ptr, stop, n)
  {
    RestIsAll(h, stop);
  }

  /** Going round the free list from after s, x comes before p. */
  predicate Before(s: nat, x: nat, p: nat) {
    if s < p then s < x < p else s < x || x < p
  }

  /** p is the first block with room for n that a search from after s meets. */
  ghost predicate FirstFit(h: Heap, s: nat, p: nat, n: nat) {
    && p in h.free && p in h.mem && h.mem[p].size >= n
    && forall x :: x in h.free && x in h.mem && Before(s, x, p) ==> h.mem[x].size < n
  }

  lemma {:induction false} SearchFirst(h: Heap, prev: nat, p: nat, stop: nat, n: nat)
    requires Searching(h, prev, p, stop, n) && h.mem[p].size >= n
    ensures FirstFit(h, stop, p, n)
  {
  }

  /** Only the block that ends at top has room for nu. */
  ghost predicate RoomAt(h: Heap, nu: nat, top: nat) {
    forall c :: c in h.free && c in h.mem && h.mem[c].size >= nu ==> End(h, c) == top
  }

  /** The arena has grown by nu units, or 4096 if that is more, gap units above the break, and the room is there. */
  ghost predicate Grew(h: Heap, brk: nat, gap: nat, nu: nat, h': Heap, brk': nat) {
    && brk' == brk + gap + (if nu < 4096 then 4096 else nu)
    && (forall u :: u in h'.arena <==> u in h.arena || brk + gap <= u < brk')
    && RoomAt(h', nu, brk')
  }

  lemma {:induction false} RoomAtTop(h: Heap, brk: nat, a: nat, n: nat, nu: nat, h1: Heap, h2: Heap)
    requires Inv(h) && Tight(h) && Below(h, brk) && brk <= a && !HasRoom(h, nu) && 0 < n
    requires h1 == Grow(h, a, n) && Inv(h2) && FreeOrHolds(h1, a, h2) && Below(h2, a + n)
    ensures RoomAt(h2, nu, a + n)
  {
    forall c | c in h2.free && c in h2.mem && h2.mem[c].size >= nu ensures End(h2, c) == a + n {
      BlockBelow(h2, a + n, c);
      if c in h.free {
        BlockBelow(h, brk, c);
        assert !(c in h.free && c in h.mem && h.mem[c].size >= nu);
      }
    }
  }

  /** Passing a block that is too small: either the search goes on, or all blocks are too small. */
  lemma {:induction false} SearchStep(h: Heap, prev: nat, p: nat, stop: nat, n: nat)
    requires Searching(h, prev, p, stop, n) && h.mem[p].size < n
    ensures p == stop ==> !HasRoom(h, n)
    ensures p != stop ==>
                Searching(h, p, h.mem[p].ptr, stop, n) && Rest(h.free, h.mem[p].ptr, stop) < Rest(h.free, p, stop)
  {
    if p != stop {
      RestShrinks(h, p, stop);
    }
  }

  /** malloc took the tail of the first block with room after freep, and its search goes on from before it next time. */
  ghost predicate Reuses(h: Heap, freep: nat, brk: nat, n: nat, r: nat, freep': nat, brk': nat) {
    brk' == brk && exists p: nat :: FirstFit(h, freep, p, n) && r - 1 + n == p + h.mem[p].size
                               && freep' in h.mem && h.mem[freep'].ptr == p
  }

  /** malloc took the end of the memory that it had the arena extended by. */
  ghost predicate Extends(arena: set<nat>, brk: nat, sbrk: Option<nat>, n: nat, arena': set<nat>, brk': nat, r: nat) {
    && sbrk.Some? && brk' == brk + sbrk.value + (if n < 4096 then 4096 else n) && r - 1 + n == brk'
    && forall u :: u in arena' <==> u in arena || brk + sbrk.value <= u < brk'
  }

  // ---------- the code ----------

  class Allocator {
    const base: nat
    var mem: Mem
    var freep: nat // 0 is NULL
    var brk: nat   // where the next sbrk will be placed, unless another caller of sbrk moves it up
    ghost var free: set<nat>
    ghost var live: set<nat>
    ghost var arena: set<nat>

    ghost function Abs(): Heap
      reads this
    {
      Heap(base, mem, free, live, arena)
    }

    ghost predicate Valid()
      reads this
    {
      && 0 < base < brk
      && (freep == 0 ==> free == {} && live == {} && arena == {})
      && (freep != 0 ==> Inv(Abs()) && Tight(Abs()) && freep in free && Below(Abs(), brk))
    }

    constructor (base: nat, brk: nat)
      requires 0 < base < brk
      ensures Valid() && live == {} && arena == {}
    {
      this.base, this.brk, mem, freep := base, brk, map[], 0;
      free, live, arena := {}, {}, {};
    }

    /** The loop of free: find the list position of block bp. */
    method FindPlace(bp: nat) returns (p: nat)
      requires Inv(Abs()) && freep in free && bp in live
      ensures Place(Abs(), bp, p)
    {
      ghost var h := Abs();
      p := freep;
      while !(bp > p && bp < mem[p].ptr)
        invariant p in free
        decreases Ahead(h, bp, p)
      {
        StopsExactly(h, bp, p);
        if p >= mem[p].ptr && (bp > p || bp < mem[p].ptr) {
          break;
        }
        AheadShrinks(h, bp, p);
        p := mem[p].ptr;
      }
      StopsExactly(h, bp, p);
    }

    /** free, of the block whose header is at bp. */
    method Free(bp: nat)
      requires Valid() && bp in live
      modifies this
      ensures Valid() && freep != 0 && brk == old(brk)
      ensures live == old(live) - {bp} && arena == old(arena)
      ensures forall c :: c in live ==> c in old(mem) && c in mem && mem[c] == old(mem)[c]
      ensures exists c :: c in free && c in mem && c in old(mem) && mem[c].size >= old(mem)[bp].size
      ensures Place(old(Abs()), bp, freep) && FreeOrHolds(old(Abs()), bp, Abs())
    {
      ghost var h := Abs();
      var p := FindPlace(bp);
      FreeMemIsReleased(h, bp, p);
      LinkIn(bp, p);
      free, live := Released(h, bp, p).free, live - {bp};
      Freed(h, bp, p, Abs(), brk);
    }

    /** The assignments of free. */
    method LinkIn(bp: nat, p: nat)
      requires bp in mem && p in mem && mem[p].ptr in mem && bp != p
      modifies this`mem, this`freep
      ensures mem == FreeMem(old(mem), bp, p) && freep == p
    {
      var q := mem[p].ptr;
      if bp + mem[bp].size == q {
        mem := mem[bp := Header(mem[q].ptr, mem[bp].size + mem[q].size)];
      } else {
        mem := mem[bp := Header(q, mem[bp].size)];
      }
      if p + mem[p].size == bp {
        mem := mem[p := Header(mem[bp].ptr, mem[p].size + mem[bp].size)];
      } else {
        mem := mem[p := Header(bp, mem[p].size)];
      }
      freep := p;
    }

    /** n units from sbrk at a: a block in use. */
    method Extend(a: nat, n: nat)
      requires Valid() && freep != 0 && brk <= a && 0 < n
      modifies this`mem, this`brk, this`live, this`arena
      ensures Valid() && Abs() == Grow(old(Abs()), a, n) && brk == a + n && a !in old(live)
      ensures forall c :: c in old(live) ==> c in old(mem) && c in mem && mem[c] == old(mem)[c]
    {
      GrowInv(Abs(), a, n, brk);
      mem := mem[a := Header(if a in mem then mem[a].ptr else 0, n)];
      brk := a + n;
      live, arena := live + {a}, arena + Span(a, n);
    }

    /** The same, put on the free list. */
    method Obtain(a: nat, n: nat, ghost nu: nat)
      requires Valid() && freep != 0 && brk <= a && 0 < nu <= n
      modifies this
      ensures Valid() && freep != 0 && live == old(live) && arena == old(arena) + Span(a, n) && brk == a + n
      ensures exists c :: c in free && c in mem && mem[c].size >= nu
      ensures !HasRoom(old(Abs()), nu) ==> RoomAt(Abs(), nu, a + n)
      ensures forall c :: c in live ==> c in old(mem) && c in mem && mem[c] == old(mem)[c]
    {
      ghost var h := Abs();
      Extend(a, n);
      ghost var h1 := Abs();
      Free(a);
      assert h1.live - {a} == h.live;
      if !HasRoom(h, nu) {
        RoomAtTop(h, old(brk), a, n, nu, h1, Abs());
      }
    }

    /** morecore: `sbrk` is what the kernel answers: nothing, or memory that many units above the last. When the
        bytes asked for are fewer than the units added, the block overruns the arena: `wild`. */
    method Morecore(nu: nat, sbrk: Option<nat>) returns (p: nat, wild: bool)
      requires Valid() && freep != 0 && 0 < nu
      modifies this
      ensures wild <==> sbrk.Some? && SbrkBytes(nu) < MoreUnits(nu) * 8
      ensures !wild ==> Valid() && freep != 0 && live == old(live) && old(arena) <= arena
      ensures sbrk.None? ==> p == 0 && Abs() == old(Abs()) && freep == old(freep) && brk == old(brk)
      ensures sbrk.Some? && !wild && !HasRoom(old(Abs()), nu) ==>
                  Grew(old(Abs()), old(brk), sbrk.value, nu, Abs(), brk)
      ensures sbrk.Some? && !wild ==> p == freep && exists c :: c in free && c in mem && mem[c].size >= nu
      ensures !wild ==> forall c :: c in live ==> c in old(mem) && c in mem && mem[c] == old(mem)[c]
    {
      var n := MoreUnits(nu);
      if sbrk.None? {
        return 0, false;
      }
      var a := brk + sbrk.value;
      if SbrkBytes(nu) < n * 8 {
        return a, true;
      }
      Obtain(a, n, nu);
      return freep, false;
    }

    /** The part of malloc that takes nunits from free block p, found after prevp. */
    method Take(prevp: nat, p: nat, nunits: nat) returns (r: nat)
      requires Valid() && freep != 0 && prevp in free && p in free && mem[prevp].ptr == p && 0 < nunits <= mem[p].size
      modifies this
      ensures Valid() && freep != 0 && arena == old(arena)
      ensures freep == prevp && brk == old(brk) && p in old(mem) && r + nunits == p + old(mem)[p].size
      ensures r !in old(live) && live == old(live) + {r} && r in mem && mem[r].size == nunits
      ensures forall c :: c in old(live) ==> c in old(mem) && c in mem && mem[c] == old(mem)[c]
    {
      ghost var h := Abs();
      if mem[p].size == nunits {
        CarveAll(h, prevp, p);
        mem := mem[prevp := Header(mem[p].ptr, mem[prevp].size)];
        r := p;
        free, live := free - {p}, live + {p};
      } else {
        CarveTail(h, p, nunits);
        TailUnused(h, p, nunits);
        mem := mem[p := Header(mem[p].ptr, mem[p].size - nunits)];
        r := p + mem[p].size;
        mem := mem[r := Header(if r in mem then mem[r].ptr else 0, nunits)];
        live := live + {r};
      }
      freep := prevp;
      assert Abs() == Carve(h, prevp, p, nunits);
      assert prevp in free;
    }

    /** malloc: the address after the header of a block of its own, or 0. The search ends, and calls morecore at
        most once. The block has room for nbytes exactly when nbytes is at most 2^32 - 8; and malloc goes
        wild exactly when it has to grow the arena by a number of bytes that is not a positive int. */
    method Malloc(nbytes: Uint, sbrk: Option<nat>) returns (r: nat, wild: bool, ghost cores: nat)
      requires Valid()
      modifies this
      ensures cores <= 1
      ensures wild <==> 0x7fff_fff0 < nbytes <= 0xffff_fff8 && !HasRoom(old(Abs()), Units(nbytes)) && sbrk.Some?
      ensures !wild ==> Valid() && old(arena) <= arena
      ensures !wild ==> (r == 0 <==> sbrk.None? && !HasRoom(old(Abs()), Units(nbytes)))
      ensures !wild && r == 0 ==> live == old(live)
      ensures !wild && r != 0 ==> r - 1 !in old(live) && live == old(live) + {r - 1}
      ensures !wild && r != 0 ==> r - 1 in mem && mem[r - 1].size == Units(nbytes)
      ensures HasRoom(old(Abs()), Units(nbytes)) ==> Reuses(old(Abs()), old(freep), old(brk), Units(nbytes), r, freep,
                brk)
      ensures !wild && r != 0 && !HasRoom(old(Abs()), Units(nbytes)) ==>
                  Extends(old(arena), old(brk), sbrk, Units(nbytes), arena, brk, r)
      ensures HasRoom(old(Abs()), Units(nbytes)) ==> arena == old(arena)
      ensures !wild && r != 0 ==> (nbytes <= (mem[r - 1].size - 1) * 8 <==> nbytes <= 0xffff_fff8)
      ensures !wild && r != 0 && nbytes <= 0xffff_fff8 ==> (mem[r - 1].size - 1) * 8 < nbytes + 8
      ensures !wild ==> forall c :: c in old(live) ==> c in old(mem) && c in mem && mem[c] == old(mem)[c]
    {
      RoomExact(nbytes);
      SbrkExact(nbytes);
      ghost var h := Abs();
      if freep == 0 {
        StartInv(base, brk);
        mem, freep := map[base := Header(base, 0)], base;
        free := {base};
      }
      assert HasRoom(Abs(), Units(nbytes)) == HasRoom(h, Units(nbytes));
      r, wild, cores := Search(Units(nbytes), sbrk);
    }

    /** The search loop of malloc. */
    method Search(nunits: nat, sbrk: Option<nat>) returns (r: nat, wild: bool, ghost cores: nat)
      requires Valid() && freep != 0 && 0 < nunits
      modifies this
      ensures cores <= 1
      ensures wild <==> !HasRoom(old(Abs()), nunits) && sbrk.Some? && SbrkBytes(nunits) < MoreUnits(nunits) * 8
      ensures !wild ==> Valid() && old(arena) <= arena
      ensures !wild ==> (r == 0 <==> sbrk.None? && !HasRoom(old(Abs()), nunits))
      ensures !wild && r == 0 ==> live == old(live)
      ensures !wild && r != 0 ==> r - 1 !in old(live) && live == old(live) + {r - 1}
      ensures !wild && r != 0 ==> r - 1 in mem && mem[r - 1].size == nunits
      ensures HasRoom(old(Abs()), nunits) ==> Reuses(old(Abs()), old(freep), old(brk), nunits, r, freep, brk)
      ensures !wild && r != 0 && !HasRoom(old(Abs()), nunits) ==>
                  Extends(old(arena), old(brk), sbrk, nunits, arena, brk, r)
      ensures HasRoom(old(Abs()), nunits) ==> arena == old(arena)
      ensures !wild ==> forall c :: c in old(live) ==> c in old(mem) && c in mem && mem[c] == old(mem)[c]
    {
      ghost var h := Abs();
      cores := 0;
      var prevp := freep;
      var p := mem[prevp].ptr;
      SearchStart(h, freep, nunits);
      while true
        invariant Valid() && freep != 0 && cores <= 1 && Searching(Abs(), prevp, p, freep, nunits)
        invariant live == old(live) && old(arena) <= arena
        invariant forall c :: c in live ==> c in old(mem) && c in mem && mem[c] == old(mem)[c]
        invariant cores == 0 ==> Abs() == h && freep == old(freep) && brk == old(brk)
        invariant cores == 1 ==> sbrk.Some? && HasRoom(Abs(), nunits) && SbrkBytes(nunits) >= MoreUnits(nunits) * 8
        invariant cores == 1 ==> !HasRoom(h, nunits) && Grew(h, old(brk), sbrk.value, nunits, Abs(), brk)
        decreases 1 - cores, Rest(free, p, freep)
      {
        if mem[p].size >= nunits {
          assert HasRoom(Abs(), nunits);
          SearchFirst(Abs(), prevp, p, freep, nunits);
          var b := Take(prevp, p, nunits);
          return b + 1, false, cores;
        }
        SearchStep(Abs(), prevp, p, freep, nunits);
        if p == freep {
          p, wild := Morecore(nunits, sbrk);
          cores := cores + 1;
          if wild || p == 0 {
            return p, wild, cores;
          }
          SearchStart(Abs(), freep, nunits);
        }
        prevp, p := p, mem[p].ptr;
      }
    }
  }

  /** A request of 2^32 - 7 bytes, when sbrk works: a block of one unit, with room for no byte. */
  method GrantsTooLittle(a: Allocator, gap: nat) returns (r: nat)
    requires a.Valid()
    modifies a
    ensures a.Valid() && r != 0 && r - 1 in a.live && r - 1 in a.mem && a.mem[r - 1].size == 1
  {
    RoomExact(0xffff_fff9);
    var wild;
    ghost var cores;
    r, wild, cores := a.Malloc(0xffff_fff9, Some(gap));
  }

  /** A request of 2^31 bytes to an allocator that has nothing yet, when sbrk answers: the arena is overrun. */
  method GoesWild(a: Allocator, gap: nat) returns (r: nat, wild: bool)
    requires a.Valid() && a.free == {}
    modifies a
    ensures wild
  {
    ghost var cores;
    r, wild, cores := a.Malloc(0x8000_0000, Some(gap));
  }
}
