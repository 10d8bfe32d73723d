/** walkpgdir, mappages, setupkvm, allocuvm, deallocuvm, freevm and copyuvm (vm.c) over the page pool of
    kalloc.c, with every failure path. */
module Vm {
  import opened Blocks
  import opened VmSpace

  const PGSIZE := 4096
  const FIRST_MAPPED := 4 * 1024 * 1024 // what entrypgdir maps, in bytes

  /** The bytes of physical pages. */
  type Pages = map<nat, seq<Byte>>

  /** kmem.freelist, first page first, and the bytes of every page. */
  class Kernel {
    var freelist: seq<nat>
    var content: Pages

    /** kinit1 and kinit2: every whole page from the end of the kernel to PHYSTOP, in bytes. */
    constructor (end: nat)
      requires end <= FIRST_MAPPED
      ensures NoDup(freelist) && forall x: nat :: x in freelist <==> PageRoundUp(end) <= x < PHYSTOP
    {
      freelist, content := [], map[];
      new;
      Freerange(end, FIRST_MAPPED);
      Freerange(FIRST_MAPPED, PHYSTOP * PGSIZE);
    }

    /** A pool in use, with this free list. */
    constructor Holding(free: seq<nat>)
      ensures freelist == free && content == map[]
    {
      freelist, content := free, map[];
    }

    /** freerange: the whole pages between two addresses. */
    method Freerange(vstart: nat, vend: nat)
      requires NoDup(freelist) && forall x: nat :: PageRoundUp(vstart) <= x < vend / PGSIZE ==> x !in freelist
      modifies this
      ensures NoDup(freelist)
      ensures forall x: nat :: x in freelist <==> x in old(freelist) || PageRoundUp(vstart) <= x < vend / PGSIZE
    {
      var p := PageRoundUp(vstart);
      while (p + 1) * PGSIZE <= vend
        invariant PageRoundUp(vstart) <= p && NoDup(freelist)
        invariant p <= vend / PGSIZE || p == PageRoundUp(vstart)
        invariant forall x: nat :: x in freelist <==> x in old(freelist) || PageRoundUp(vstart) <= x < p
        decreases vend - p
      {
        assert p + 1 <= vend / PGSIZE;
        assert p !in freelist;
        Kfree(p);
        p := p + 1;
      }
    }

    method Kalloc() returns (r: Option<nat>)
      modifies this`freelist
      ensures r.None? <==> old(freelist) == []
      ensures r.None? ==> freelist == old(freelist)
      ensures r.Some? ==> r.value == old(freelist)[0] && freelist == old(freelist)[1..]
    {
      if freelist == [] {
        return None;
      }
      r := Some(freelist[0]);
      freelist := freelist[1..];
    }

    /** kfree fills the page with junk and puts it first. */
    method Kfree(p: nat)
      modifies this
      ensures freelist == [p] + old(freelist) && content == old(content)[p := Filled(1)]
    {
      content := content[p := Filled(1)];
      freelist := [p] + freelist;
    }
  }

  function Filled(b: Byte): seq<Byte> {
    seq(PGSIZE, _ => b)
  }

  function Bytes(content: Pages, p: nat): seq<Byte> {
    if p in content then content[p] else Filled(0)
  }

  class PageDir {
    var sp: Space

    constructor (sp: Space)
      ensures this.sp == sp
    {
      this.sp := sp;
    }
  }

  ghost predicate SameEntries(sp: Space, sp': Space) {
    Shaped(sp) && Shaped(sp') && forall v: nat :: v < TOP ==> EntryAt(sp', v) == EntryAt(sp, v)
  }

  /** Page table pages are only ever added: no table goes away or moves. */
  ghost predicate TablesKept(sp: Space, sp': Space) {
    && Shaped(sp) && Shaped(sp') && sp'.page == sp.page
    && forall i: nat :: i < NPDENTRIES && Ref(sp, Tab(i)).Some? ==> Ref(sp', Tab(i)) == Ref(sp, Tab(i))
  }

  /** Pages that belong to neither the free list nor this directory keep their bytes. */
  ghost predicate Spared(free: seq<nat>, sp: Space, content: Pages, content': Pages)
    requires Shaped(sp)
  {
    forall x: nat :: !InPool(free, sp, x) ==> Bytes(content', x) == Bytes(content, x)
  }

  lemma {:induction false} SparedTrans(f0: seq<nat>, s0: Space, f1: seq<nat>, s1: Space, c0: Pages, c1: Pages,
                                       c2: Pages)
    requires Conserved(f0, s0, f1, s1) && Spared(f0, s0, c0, c1) && Spared(f1, s1, c1, c2)
    ensures Spared(f0, s0, c0, c2)
  {
    forall x: nat | !InPool(f0, s0, x) ensures Bytes(c2, x) == Bytes(c0, x) {
      assert !InPool(f1, s1, x);
    }
  }

  /** New page tables are pages that were free. */
  ghost predicate FromFree(free: seq<nat>, sp: Space, sp': Space) {
    && Shaped(sp) && Shaped(sp')
    && forall i: nat :: i < NPDENTRIES && Ref(sp, Tab(i)).None? && Ref(sp', Tab(i)).Some? ==>
           Ref(sp', Tab(i)).value in free
  }

  lemma {:induction false} FromFreeTrans(f0: seq<nat>, s0: Space, f1: seq<nat>, s1: Space, s2: Space)
    requires FromFree(f0, s0, s1) && FromFree(f1, s1, s2) && TablesKept(s1, s2) && forall x: nat :: x in f1 ==> x in f0
    ensures FromFree(f0, s0, s2)
  {
  }

  /** The pages that walkpgdir takes for a page table. */
  function NewTable(sp: Space, v: nat): nat
    requires Shaped(sp) && v < TOP
  {
    if sp.dir[PDX(v)].None? then 1 else 0
  }

  /** The same page tables, and that of v. */
  ghost predicate WithTable(sp: Space, sp': Space, v: nat)
    requires Shaped(sp) && Shaped(sp') && v < TOP
  {
    forall i: nat :: i < NPDENTRIES ==> (sp'.dir[i].Some? <==> sp.dir[i].Some? || i == PDX(v))
  }

  /** walkpgdir(pgdir, va, 1): afterwards the page table of v is there, or there was no memory. */
  method Walk(k: Kernel, d: PageDir, v: nat) returns (ok: bool)
    requires Clean(k.freelist, d.sp) && v < TOP
    modifies k`freelist, d
    ensures Clean(k.freelist, d.sp) && Conserved(old(k.freelist), old(d.sp), k.freelist, d.sp)
    ensures SameEntries(old(d.sp), d.sp) && TablesKept(old(d.sp), d.sp)
    ensures ok ==> d.sp.dir[PDX(v)].Some?
    ensures !ok ==> d.sp == old(d.sp) && k.freelist == old(k.freelist) == [] && d.sp.dir[PDX(v)].None?
    ensures |k.freelist| == |old(k.freelist)| - (if ok then NewTable(old(d.sp), v) else 0)
    ensures ok ==> WithTable(old(d.sp), d.sp, v)
    ensures FromFree(old(k.freelist), old(d.sp), d.sp)
    ensures k.freelist == old(k.freelist) || (old(k.freelist) != [] && k.freelist == old(k.freelist)[1..])
    ensures forall p: nat :: Held(old(k.freelist), old(d.sp), p) ==> Held(k.freelist, d.sp, p)
  {
    var i := PDX(v);
    if d.sp.dir[i].Some? {
      return true;
    }
    ghost var sp, free := d.sp, k.freelist;
    var pgtab := k.Kalloc();
    if pgtab.None? {
      return false;
    }
    Pop(free, sp);
    AddTableEffect(sp, i, pgtab.value);
    d.sp := AddTable(d.sp, i, pgtab.value);
    Put(k.freelist, sp, d.sp, Tab(i), pgtab.value);
    forall p: nat | Held(free, sp, p) ensures Held(k.freelist, d.sp, p) {
      assert !InPool(free, sp, p);
      assert !InPool(k.freelist, d.sp, p);
    }
    return true;
  }

  datatype MapResult = Mapped | NoMemory | Remap

  /** One round of mappages for a user page: page p, in the kernel's hands, is mapped at v. */
  method MapUser(k: Kernel, d: PageDir, v: nat, p: nat, flags: nat) returns (r: MapResult)
    requires Clean(k.freelist, d.sp) && v < KERNBASE && Held(k.freelist, d.sp, p)
    modifies k`freelist, d
    ensures Clean(k.freelist, d.sp) && TablesKept(old(d.sp), d.sp)
    ensures r.Remap? <==> EntryAt(old(d.sp), v).Present?
    ensures !r.Mapped? ==> SameEntries(old(d.sp), d.sp) && Conserved(old(k.freelist), old(d.sp), k.freelist, d.sp)
                           && Held(k.freelist, d.sp, p)
    ensures r.Mapped? ==> forall w: nat :: w < TOP ==>
                EntryAt(d.sp, w) == if w == v then Present(p, flags) else EntryAt(old(d.sp), w)
    ensures r.Mapped? ==> forall x: nat :: InPool(k.freelist, d.sp, x) <==>
              InPool(old(k.freelist), old(d.sp), x) || x == p
    ensures forall x :: x in k.freelist ==> x in old(k.freelist)
    ensures FromFree(old(k.freelist), old(d.sp), d.sp)
    ensures r.NoMemory? <==> old(k.freelist) == [] && NewTable(old(d.sp), v) == 1
    ensures r.Mapped? ==> |k.freelist| == |old(k.freelist)| - NewTable(old(d.sp), v) && WithTable(old(d.sp), d.sp, v)
  {
    var ok := Walk(k, d, v);
    ghost var sp := d.sp;
    if !ok {
      return NoMemory;
    }
    if EntryAt(d.sp, v).Present? {
      return Remap;
    }
    SetEntryEffect(sp, v, Present(p, flags));
    d.sp := SetEntry(d.sp, v, Present(p, flags));
    Put(k.freelist, sp, d.sp, User(v), p);
    return Mapped;
  }

  // ---------- how many pages it takes ----------

  /** The first mapped page from lo on, or hi. */
  function FirstMapped(sp: Space, lo: nat, hi: nat): (v: nat)
    requires Shaped(sp) && lo <= hi <= TOP
    ensures lo <= v <= hi && (v < hi ==> EntryAt(sp, v).Present?)
    ensures forall w: nat :: lo <= w < v ==> EntryAt(sp, w).Absent?
    decreases hi - lo
  {
    if lo == hi || EntryAt(sp, lo).Present? then lo else FirstMapped(sp, lo + 1, hi)
  }

  /** The page tables absent among i to j. */
  function Missing(sp: Space, i: nat, j: nat): nat
    requires Shaped(sp) && j <= NPDENTRIES
    decreases j
  {
    if j <= i then 0 else Missing(sp, i, j - 1) + if sp.dir[j - 1].None? then 1 else 0
  }

  /** The page tables that mapping pages lo to hi has to add. */
  function TableNeed(sp: Space, lo: nat, hi: nat): nat
    requires Shaped(sp) && hi <= TOP
  {
    if hi <= lo then 0 else Missing(sp, PDX(lo), PDX(hi - 1) + 1)
  }

  /** The free pages it takes to map fresh pages from lo to hi: one each, and the page tables. */
  function Need(sp: Space, lo: nat, hi: nat): nat
    requires Shaped(sp) && hi <= TOP
  {
    if hi <= lo then 0 else hi - lo + TableNeed(sp, lo, hi)
  }

  lemma {:induction false} MissingGrows(sp: Space, i: nat, j: nat, k: nat)
    requires Shaped(sp) && j <= k <= NPDENTRIES
    ensures Missing(sp, i, j) <= Missing(sp, i, k)
    decreases k
  {
    if j < k {
      MissingGrows(sp, i, j, k - 1);
    }
  }

  lemma {:induction false} NeedGrows(sp: Space, lo: nat, a: nat, hi: nat)
    requires Shaped(sp) && lo <= a < hi <= TOP
    ensures Need(sp, lo, a + 1) <= Need(sp, lo, hi) && Need(sp, lo, a) < Need(sp, lo, hi)
    ensures TableNeed(sp, lo, a + 1) <= TableNeed(sp, lo, hi)
  {
    MissingGrows(sp, PDX(lo), PDX(a) + 1, PDX(hi - 1) + 1);
    if lo < a {
      MissingGrows(sp, PDX(lo), PDX(a - 1) + 1, PDX(hi - 1) + 1);
    }
  }

  /** Tables i to p are there and p to j are not. */
  lemma {:induction false} MissingCount(sp: Space, i: nat, p: nat, j: nat)
    requires Shaped(sp) && i <= p <= j <= NPDENTRIES
    requires forall k: nat :: i <= k < j ==> (sp.dir[k].Some? <==> k < p)
    ensures Missing(sp, i, j) == j - p
    decreases j
  {
    if p < j {
      MissingCount(sp, i, p, j - 1);
    } else if i < j {
      MissingCount(sp, i, p - 1, j - 1);
    }
  }

  /** While pages lo to a have been mapped: the page tables there are now. */
  ghost predicate TablesFor(sp0: Space, sp: Space, lo: nat, a: nat) {
    && Shaped(sp0) && Shaped(sp)
    && forall i: nat :: i < NPDENTRIES ==> (sp.dir[i].Some? <==>
           sp0.dir[i].Some? || (lo < a && PDX(lo) <= i <= PDX(a - 1)))
  }

  lemma {:induction false} TablesMore(sp0: Space, sp: Space, sp': Space, lo: nat, a: nat)
    requires TablesFor(sp0, sp, lo, a) && Shaped(sp') && lo <= a < TOP && WithTable(sp, sp', a)
    ensures TablesFor(sp0, sp', lo, a + 1)
  {
    assert lo < a ==> PDX(a) == if PTX(a) == 0 then PDX(a - 1) + 1 else PDX(a - 1);
  }

  lemma {:induction false} NeedMore(sp0: Space, sp: Space, lo: nat, a: nat)
    requires TablesFor(sp0, sp, lo, a) && lo <= a < TOP
    ensures TableNeed(sp0, lo, a + 1) == TableNeed(sp0, lo, a) + NewTable(sp, a)
    ensures Need(sp0, lo, a + 1) == Need(sp0, lo, a) + 1 + NewTable(sp, a)
  {
    if lo < a {
      assert PDX(a) == if PTX(a) == 0 then PDX(a - 1) + 1 else PDX(a - 1);
      assert PDX(lo) <= PDX(a - 1);
    } else {
      assert Missing(sp0, PDX(lo), PDX(lo)) == 0;
    }
  }

  /** What mappages returns over a range, with n free pages: it runs out at a page table it lacks, or else stops at
      the first page already mapped. */
  function MapOutcome(sp: Space, n: nat, lo: nat, hi: nat): MapResult
    requires Shaped(sp) && lo <= hi <= TOP
  {
    var v := FirstMapped(sp, lo, hi);
    if n < TableNeed(sp, lo, v) then NoMemory else if v < hi then Remap else Mapped
  }

  /** The state of mappages over a kernel range, at page a. */
  ghost predicate Mapping(f0: seq<nat>, s0: Space, f: seq<nat>, s: Space, v: nat, a: nat, pa: nat, flags: nat) {
    && Clean(f, s) && TablesKept(s0, s) && Conserved(f0, s0, f, s) && KERNBASE <= v <= a <= TOP
    && |f| == |f0| - TableNeed(s0, v, a) && TablesFor(s0, s, v, a)
    && (forall w: nat :: w < TOP ==>
          EntryAt(s, w) == if v <= w < a then Present(pa + (w - v), flags) else EntryAt(s0, w))
  }

  lemma {:induction false} MappingStart(f: seq<nat>, s: Space, v: nat, pa: nat, flags: nat)
    requires Clean(f, s) && KERNBASE <= v <= TOP
    ensures Mapping(f, s, f, s, v, v, pa, flags)
  {
  }

  /** One round of it. */
  method MapOne(k: Kernel, d: PageDir, a: nat, v: nat, pa: nat, flags: nat, ghost f0: seq<nat>, ghost s0: Space)
    returns (r: MapResult)
    requires Mapping(f0, s0, k.freelist, d.sp, v, a, pa, flags) && a < TOP
    modifies k`freelist, d
    ensures r.NoMemory? <==> |f0| < TableNeed(s0, v, a + 1)
    ensures r.NoMemory? ==> EntryAt(s0, a).Absent?
    ensures r.Remap? <==> !r.NoMemory? && EntryAt(s0, a).Present?
    ensures r.Mapped? ==> Mapping(f0, s0, k.freelist, d.sp, v, a + 1, pa, flags)
    ensures Clean(k.freelist, d.sp) && TablesKept(s0, d.sp) && Conserved(f0, s0, k.freelist, d.sp)
    ensures forall w: nat :: w < KERNBASE ==> EntryAt(d.sp, w) == EntryAt(s0, w)
  {
    ghost var free1, sp1 := k.freelist, d.sp;
    NeedMore(s0, sp1, v, a);
    var ok := Walk(k, d, a);
    ConservedTrans(f0, s0, free1, sp1, k.freelist, d.sp);
    if !ok {
      return NoMemory;
    }
    if EntryAt(d.sp, a).Present? {
      return Remap;
    }
    ghost var sp := d.sp;
    SetEntryEffect(sp, a, Present(pa + (a - v), flags));
    d.sp := SetEntry(d.sp, a, Present(pa + (a - v), flags));
    SameRefs(k.freelist, sp, d.sp);
    ConservedTrans(f0, s0, k.freelist, sp, k.freelist, d.sp);
    TablesMore(s0, sp1, d.sp, v, a);
    return Mapped;
  }

  /** mappages for a kernel range: n pages from v, all at or above KERNBASE, to n physical pages from pa
      that the directory does not own. */
  method MapKernel(k: Kernel, d: PageDir, v: nat, n: nat, pa: nat, flags: nat) returns (r: MapResult)
    requires Clean(k.freelist, d.sp) && KERNBASE <= v && 0 < n && v + n <= TOP
    modifies k`freelist, d
    ensures r == MapOutcome(old(d.sp), |old(k.freelist)|, v, v + n)
    ensures Clean(k.freelist, d.sp) && TablesKept(old(d.sp), d.sp)
    ensures Conserved(old(k.freelist), old(d.sp), k.freelist, d.sp)
    ensures forall w: nat :: w < KERNBASE ==> EntryAt(d.sp, w) == EntryAt(old(d.sp), w)
    ensures r.Mapped? ==> forall w: nat :: w < TOP ==>
                EntryAt(d.sp, w) == if v <= w < v + n then Present(pa + (w - v), flags) else EntryAt(old(d.sp), w)
    ensures r.Mapped? ==> |k.freelist| == |old(k.freelist)| - TableNeed(old(d.sp), v, v + n)
    ensures r.Mapped? ==> TablesFor(old(d.sp), d.sp, v, v + n)
  {
    ghost var free0, sp0 := k.freelist, d.sp;
    ghost var first := FirstMapped(sp0, v, v + n);
    MappingStart(free0, sp0, v, pa, flags);
    var a := v;
    while true
      invariant v <= a < v + n && a <= first && Mapping(free0, sp0, k.freelist, d.sp, v, a, pa, flags)
      decreases v + n - a
    {
      r := MapOne(k, d, a, v, pa, flags, free0, sp0);
      if a < first {
        NeedGrows(sp0, v, a, first);
      }
      if !r.Mapped? {
        return;
      }
      a := a + 1;
      if a == v + n {
        return;
      }
    }
  }

  // ---------- deallocuvm ----------

  /** The reference: look at every page from lo to hi in turn, free what is mapped. */
  function FreeRange(free: seq<nat>, sp: Space, lo: nat, hi: nat): (r: (seq<nat>, Space))
    requires Shaped(sp) && hi <= KERNBASE
    ensures Shaped(r.1)
    decreases hi
  {
    if hi <= lo then (free, sp)
    else
      var (f, s) := FreeRange(free, sp, lo, hi - 1);
      if EntryAt(s, hi - 1).Absent? then (f, s)
      else
        SetEntryEffect(s, hi - 1, Absent);
        ([EntryAt(s, hi - 1).page] + f, SetEntry(s, hi - 1, Absent))
  }

  lemma {:induction false} FreeRangeEntries(free: seq<nat>, sp: Space, lo: nat, hi: nat)
    requires Shaped(sp) && hi <= KERNBASE
    ensures var s := FreeRange(free, sp, lo, hi).1;
            && (forall w: nat :: w < TOP ==> EntryAt(s, w) == if lo <= w < hi then Absent else EntryAt(sp, w))
            && s.page == sp.page
            && (forall i: nat :: i < NPDENTRIES ==> Ref(s, Tab(i)) == Ref(sp, Tab(i)))
    decreases hi
  {
    if lo < hi {
      FreeRangeEntries(free, sp, lo, hi - 1);
      var s := FreeRange(free, sp, lo, hi - 1).1;
      if EntryAt(s, hi - 1).Present? {
        SetEntryEffect(s, hi - 1, Absent);
      }
    }
  }

  lemma {:induction false} FreeRangeClean(free: seq<nat>, sp: Space, lo: nat, hi: nat)
    requires Clean(free, sp) && hi <= KERNBASE
    ensures var (f, s) := FreeRange(free, sp, lo, hi); Clean(f, s) && Conserved(free, sp, f, s)
    decreases hi
  {
    if lo < hi {
      FreeRangeClean(free, sp, lo, hi - 1);
      var (f, s) := FreeRange(free, sp, lo, hi - 1);
      if EntryAt(s, hi - 1).Present? {
        FreeOne(f, s, hi - 1);
        ConservedTrans(free, sp, f, s, [EntryAt(s, hi - 1).page] + f, SetEntry(s, hi - 1, Absent));
      }
    }
  }

  lemma {:induction false} FreeOne(free: seq<nat>, sp: Space, v: nat)
    requires Clean(free, sp) && v < KERNBASE && EntryAt(sp, v).Present?
    ensures Clean([EntryAt(sp, v).page] + free, SetEntry(sp, v, Absent))
    ensures Conserved(free, sp, [EntryAt(sp, v).page] + free, SetEntry(sp, v, Absent))
  {
    SetEntryEffect(sp, v, Absent);
    var sp' := SetEntry(sp, v, Absent);
    Take(free, sp, sp', User(v));
    Push(free, sp', EntryAt(sp, v).page);
  }

  /** A stretch with no page table has nothing to free, so the jump over it skips nothing. */
  lemma {:induction false} FreeRangeSkip(free: seq<nat>, sp: Space, lo: nat, mid: nat, hi: nat)
    requires Shaped(sp) && mid <= hi <= KERNBASE
    requires forall w: nat :: mid <= w < hi ==> EntryAt(FreeRange(free, sp, lo, mid).1, w).Absent?
    ensures FreeRange(free, sp, lo, hi) == FreeRange(free, sp, lo, mid)
    decreases hi
  {
    if mid < hi {
      FreeRangeSkip(free, sp, lo, mid, hi - 1);
    }
  }

  function PageRoundUp(bytes: nat): nat {
    (bytes + PGSIZE - 1) / PGSIZE
  }

  lemma {:induction false} Jump(free: seq<nat>, sp: Space, lo: nat, a: nat, hi: nat, now: Space)
    requires Shaped(sp) && lo <= a < hi <= KERNBASE && FreeRange(free, sp, lo, a).1 == now && now.dir[PDX(a)].None?
    ensures var next := (PDX(a) + 1) * NPTENTRIES;
            a < next && FreeRange(free, sp, lo, if next < hi then next else hi) == FreeRange(free, sp, lo, a)
  {
    var next := (PDX(a) + 1) * NPTENTRIES;
    var end := if next < hi then next else hi;
    forall w: nat | a <= w < end ensures EntryAt(now, w).Absent? {
      assert PDX(w) == PDX(a);
    }
    FreeRangeSkip(free, sp, lo, a, end);
  }

  /** Where deallocuvm's loop goes from page a, in the 20 bits that page numbers have. */
  function NextPage(sp: Space, a: nat): nat
    requires Shaped(sp) && a < TOP
  {
    (if sp.dir[PDX(a)].None? then (PDX(a) + 1) * NPTENTRIES else a + 1) % TOP
  }

  function Loop(sp: Space, a: nat, n: nat): (r: nat)
    requires Shaped(sp) && a < TOP
    ensures r < TOP
    decreases n
  {
    if n == 0 then a else Loop(sp, NextPage(sp, a), n - 1)
  }

  /** The loop from page a reaches page hi or beyond. */
  ghost predicate Ends(sp: Space, a: nat, hi: nat)
    requires Shaped(sp) && a < TOP
  {
    exists n: nat :: Loop(sp, a, n) >= hi
  }

  /** For any oldsz, whose last page is hi - 1: the loop ends at once, or else exactly when hi can be reached
      without wrapping and without jumping out of the last page table. */
  lemma {:induction false} EndsExactly(sp: Space, a: nat, hi: nat)
    requires Shaped(sp) && a < TOP && hi <= TOP
    ensures Ends(sp, a, hi) <==>
            a >= hi || (hi < TOP && (hi <= (NPDENTRIES - 1) * NPTENTRIES || sp.dir[NPDENTRIES - 1].Some?))
  {
    if a >= hi {
      assert Loop(sp, a, 0) >= hi;
    } else if hi < TOP && (hi <= (NPDENTRIES - 1) * NPTENTRIES || sp.dir[NPDENTRIES - 1].Some?) {
      LoopForward(sp, a, hi);
    } else {
      forall n: nat ensures Loop(sp, a, n) < hi {
        LoopBack(sp, a, hi, n);
      }
    }
  }

  lemma {:induction false} LoopForward(sp: Space, a: nat, hi: nat)
    requires Shaped(sp) && a < TOP && hi < TOP
    requires hi <= (NPDENTRIES - 1) * NPTENTRIES || sp.dir[NPDENTRIES - 1].Some?
    ensures Ends(sp, a, hi)
    decreases hi - a
  {
    if a >= hi {
      assert Loop(sp, a, 0) >= hi;
    } else {
      assert NextPage(sp, a) > a;
      LoopForward(sp, NextPage(sp, a), hi);
      var n: nat :| Loop(sp, NextPage(sp, a), n) >= hi;
      assert Loop(sp, a, n + 1) >= hi;
    }
  }

  lemma {:induction false} LoopBack(sp: Space, a: nat, hi: nat, n: nat)
    requires Shaped(sp) && a < hi <= TOP
    requires hi == TOP || (hi > (NPDENTRIES - 1) * NPTENTRIES && sp.dir[NPDENTRIES - 1].None?)
    ensures Loop(sp, a, n) < hi
    decreases n
  {
    if n > 0 && hi < TOP {
      assert PDX(a) < NPDENTRIES;
      if PDX(a) < NPDENTRIES - 1 {
        assert (PDX(a) + 1) * NPTENTRIES <= (NPDENTRIES - 1) * NPTENTRIES;
      } else {
        assert NextPage(sp, a) == 0;
      }
      assert NextPage(sp, a) < hi;
      LoopBack(sp, NextPage(sp, a), hi, n - 1);
    }
  }

  method FreePage(k: Kernel, d: PageDir, v: nat)
    requires Clean(k.freelist, d.sp) && v < KERNBASE && EntryAt(d.sp, v).Present?
    modifies k, d
    ensures k.freelist == [EntryAt(old(d.sp), v).page] + old(k.freelist) && d.sp == SetEntry(old(d.sp), v, Absent)
    ensures Clean(k.freelist, d.sp) && Conserved(old(k.freelist), old(d.sp), k.freelist, d.sp)
    ensures Spared(old(k.freelist), old(d.sp), old(k.content), k.content)
  {
    FreeOne(k.freelist, d.sp, v);
    ghost var p := EntryAt(d.sp, v).page;
    assert Ref(d.sp, User(v)) == Some(p);
    assert InPool(k.freelist, d.sp, p);
    k.Kfree(EntryAt(d.sp, v).page);
    d.sp := SetEntry(d.sp, v, Absent);
  }

  /** The round of deallocuvm that frees page a. */
  method FreeNext(k: Kernel, d: PageDir, a: nat, ghost free0: seq<nat>, ghost sp0: Space, ghost content0: Pages,
                  ghost lo: nat)
    requires Clean(k.freelist, d.sp) && Conserved(free0, sp0, k.freelist, d.sp)
             && Spared(free0, sp0, content0, k.content)
    requires lo <= a < KERNBASE && (k.freelist, d.sp) == FreeRange(free0, sp0, lo, a) && EntryAt(d.sp, a).Present?
    modifies k, d
    ensures Clean(k.freelist, d.sp) && Conserved(free0, sp0, k.freelist, d.sp)
            && Spared(free0, sp0, content0, k.content)
    ensures (k.freelist, d.sp) == FreeRange(free0, sp0, lo, a + 1)
  {
    ghost var free1, sp1, content1 := k.freelist, d.sp, k.content;
    FreePage(k, d, a);
    ConservedTrans(free0, sp0, free1, sp1, k.freelist, d.sp);
    SparedTrans(free0, sp0, free1, sp1, content0, content1, k.content);
  }

  /** One round of deallocuvm at page a, with its jump; the page it goes on with. */
  method DeallocRound(k: Kernel, d: PageDir, a: nat, ghost free0: seq<nat>, ghost sp0: Space,
                      ghost content0: Pages, ghost lo: nat, ghost hi: nat) returns (next: nat)
    requires Clean(k.freelist, d.sp) && Conserved(free0, sp0, k.freelist, d.sp)
             && Spared(free0, sp0, content0, k.content)
    requires lo <= a < hi <= KERNBASE && (k.freelist, d.sp) == FreeRange(free0, sp0, lo, a)
    modifies k, d
    ensures Clean(k.freelist, d.sp) && Conserved(free0, sp0, k.freelist, d.sp)
            && Spared(free0, sp0, content0, k.content)
    ensures a < next && (k.freelist, d.sp) == FreeRange(free0, sp0, lo, if next < hi then next else hi)
  {
    next := a;
    if d.sp.dir[PDX(a)].None? {
      Jump(free0, sp0, lo, a, hi, d.sp);
      next := (PDX(a) + 1) * NPTENTRIES - 1;
    } else if EntryAt(d.sp, a).Present? {
      FreeNext(k, d, a, free0, sp0, content0, lo);
    }
    next := next + 1;
  }

  /** deallocuvm(pgdir, oldsz, newsz), in bytes: with its jump over absent page tables it frees exactly the
      pages, in exactly the order, that looking at every page would. */
  method Deallocuvm(k: Kernel, d: PageDir, oldsz: nat, newsz: nat) returns (sz: nat)
    requires Clean(k.freelist, d.sp) && oldsz <= KERNBASE * PGSIZE
    modifies k, d
    ensures sz == if newsz < oldsz then newsz else oldsz
    ensures (k.freelist, d.sp) == FreeRange(old(k.freelist), old(d.sp), PageRoundUp(newsz), PageRoundUp(oldsz))
    ensures Clean(k.freelist, d.sp) && Conserved(old(k.freelist), old(d.sp), k.freelist, d.sp)
    ensures Spared(old(k.freelist), old(d.sp), old(k.content), k.content)
  {
    ghost var free0, sp0, content0 := k.freelist, d.sp, k.content;
    ghost var lo, hi := PageRoundUp(newsz), PageRoundUp(oldsz);
    if newsz >= oldsz {
      return oldsz;
    }
    var a := PageRoundUp(newsz);
    while a * PGSIZE < oldsz
      invariant lo <= a && Clean(k.freelist, d.sp) && Conserved(free0, sp0, k.freelist, d.sp)
      invariant (k.freelist, d.sp) == FreeRange(free0, sp0, lo, if a < hi then a else hi)
      invariant Spared(free0, sp0, content0, k.content)
      decreases hi - a
    {
      a := DeallocRound(k, d, a, free0, sp0, content0, lo, hi);
    }
    return newsz;
  }

  // ---------- freevm ----------

  /** The list holds the pages of the pool, each once. */
  ghost predicate AllFree(free: seq<nat>, free0: seq<nat>, sp0: Space)
    requires Shaped(sp0)
  {
    NoDup(free) && forall x: nat :: x in free <==> InPool(free0, sp0, x)
  }

  function EmptyDir(): (dir: seq<Option<Table>>)
    ensures |dir| == NPDENTRIES && forall i :: 0 <= i < NPDENTRIES ==> dir[i] == None
  {
    seq(NPDENTRIES, _ => None)
  }

  function DropTable(sp: Space, i: nat): Space
    requires i < |sp.dir|
  {
    Space(sp.page, sp.dir[i := None])
  }

  ghost predicate NoUser(sp: Space) {
    Shaped(sp) && forall v: nat :: v < KERNBASE ==> EntryAt(sp, v).Absent?
  }

  lemma {:induction false} DropTableEffect(sp: Space, i: nat)
    requires NoUser(sp) && i < NPDENTRIES
    ensures NoUser(DropTable(sp, i)) && Changed(sp, DropTable(sp, i), Tab(i))
  {
    var sp' := DropTable(sp, i);
    forall v: nat | v < KERNBASE ensures EntryAt(sp', v).Absent? {
      assert EntryAt(sp, v).Absent?;
    }
  }

  lemma {:induction false} DropTablePush(free: seq<nat>, sp: Space, i: nat, p: nat)
    requires Clean(free, sp) && NoUser(sp) && i < NPDENTRIES && Ref(sp, Tab(i)) == Some(p)
    ensures Clean([p] + free, DropTable(sp, i)) && Conserved(free, sp, [p] + free, DropTable(sp, i))
  {
    DropTableEffect(sp, i);
    Take(free, sp, DropTable(sp, i), Tab(i));
    Push(free, DropTable(sp, i), p);
  }

  /** What is left when user pages and tables are gone: the directory's own page. */
  lemma {:induction false} OnlyRoot(free: seq<nat>, sp: Space)
    requires Clean(free, sp) && NoUser(sp) && forall i: nat :: i < NPDENTRIES ==> sp.dir[i].None?
    ensures AllFree([sp.page] + free, free, sp)
  {
    assert Ref(sp, Root) == Some(sp.page);
    forall x: nat ensures Owns(sp, x) <==> x == sp.page {
      if s: Slot :| s.Valid() && Ref(sp, s) == Some(x) {
        assert s == Root;
      }
    }
  }

  lemma {:induction false} AllFreeTrans(free: seq<nat>, f1: seq<nat>, s1: Space, f0: seq<nat>, s0: Space)
    requires Conserved(f0, s0, f1, s1) && AllFree(free, f1, s1)
    ensures AllFree(free, f0, s0)
  {
    forall x: nat ensures x in free <==> InPool(f0, s0, x) {
      assert InPool(f0, s0, x) <==> InPool(f1, s1, x);
    }
  }

  method FreeTable(k: Kernel, p: nat, ghost left: Space, ghost i: nat)
    requires Clean(k.freelist, left) && NoUser(left) && i < NPDENTRIES && Ref(left, Tab(i)) == Some(p)
    modifies k
    ensures Clean(k.freelist, DropTable(left, i)) && Conserved(old(k.freelist), left, k.freelist, DropTable(left, i))
    ensures Spared(old(k.freelist), left, old(k.content), k.content)
  {
    DropTablePush(k.freelist, left, i, p);
    assert InPool(k.freelist, left, p);
    k.Kfree(p);
  }

  /** The loop of freevm over the directory: every table page comes back. */
  method FreeTables(k: Kernel, d: PageDir)
    requires Clean(k.freelist, d.sp) && NoUser(d.sp)
    modifies k
    ensures var left := Space(d.sp.page, EmptyDir());
            Clean(k.freelist, left) && NoUser(left) && Conserved(old(k.freelist), d.sp, k.freelist, left)
    ensures Spared(old(k.freelist), d.sp, old(k.content), k.content)
  {
    ghost var free0, content0, left := k.freelist, k.content, d.sp;
    var i := 0;
    while i < NPDENTRIES
      invariant 0 <= i <= NPDENTRIES
      invariant Clean(k.freelist, left) && NoUser(left) && Conserved(free0, d.sp, k.freelist, left)
      invariant left.page == d.sp.page && Spared(free0, d.sp, content0, k.content)
      invariant forall j: nat :: j < NPDENTRIES ==> left.dir[j] == if j < i then None else d.sp.dir[j]
    {
      ghost var free1, left1, content1 := k.freelist, left, k.content;
      DropTableEffect(left, i);
      left := DropTable(left, i);
      if d.sp.dir[i].Some? {
        FreeTable(k, d.sp.dir[i].value.page, left1, i);
        ConservedTrans(free0, d.sp, free1, left1, k.freelist, left);
        SparedTrans(free0, d.sp, free1, left1, content0, content1, k.content);
      } else {
        assert left == left1;
      }
      i := i + 1;
    }
    assert left == Space(d.sp.page, EmptyDir());
  }

  /** freevm: everything the directory owns comes back, each page exactly once. */
  method Freevm(k: Kernel, d: PageDir)
    requires Clean(k.freelist, d.sp)
    modifies k, d
    ensures AllFree(k.freelist, old(k.freelist), old(d.sp))
    ensures Spared(old(k.freelist), old(d.sp), old(k.content), k.content)
  {
    ghost var free0, sp0, content0 := k.freelist, d.sp, k.content;
    var _ := Deallocuvm(k, d, KERNBASE * PGSIZE, 0);
    FreeRangeEntries(free0, sp0, 0, KERNBASE);
    ghost var free1, sp1, content1 := k.freelist, d.sp, k.content;
    FreeTables(k, d);
    SparedTrans(free0, sp0, free1, sp1, content0, content1, k.content);
    ConservedTrans(free0, sp0, free1, sp1, k.freelist, Space(sp1.page, EmptyDir()));
    FreeRoot(k, d.sp.page, free0, sp0, content0);
  }

  method FreeRoot(k: Kernel, p: nat, ghost free0: seq<nat>, ghost sp0: Space, ghost content0: Pages)
    requires var left := Space(p, EmptyDir());
             Clean(k.freelist, left) && NoUser(left) && Conserved(free0, sp0, k.freelist, left)
    requires Spared(free0, sp0, content0, k.content)
    modifies k
    ensures AllFree(k.freelist, free0, sp0) && Spared(free0, sp0, content0, k.content)
  {
    ghost var left := Space(p, EmptyDir());
    OnlyRoot(k.freelist, left);
    assert Ref(left, Root) == Some(p);
    assert InPool(k.freelist, left, p);
    AllFreeTrans([p] + k.freelist, k.freelist, left, free0, sp0);
    k.Kfree(p);
  }

  // ---------- setupkvm ----------

  /** An entry of kmap[], in pages: len pages from virt map to the pages from phys. */
  datatype Range = Range(virt: nat, len: nat, phys: nat, perm: nat)

  const PTE_W := 2
  const PTE_U := 4
  const EXTMEM := 0x100
  const KERNLINK := KERNBASE + EXTMEM
  const PHYSTOP := 0xE000
  const DEVSPACE := 0xF_E000

  /** The kernel's mappings; data, the start of the kernel's data, is set by the linker. */
  function Kmap(data: nat): (km: seq<Range>)
    requires KERNLINK < data < KERNBASE + PHYSTOP
    ensures KmapOk(km)
  {
    [Range(KERNBASE, EXTMEM, 0, PTE_W),
     Range(KERNLINK, data - KERNLINK, EXTMEM, 0),
     Range(data, KERNBASE + PHYSTOP - data, data - KERNBASE, PTE_W),
     Range(DEVSPACE, TOP - DEVSPACE, DEVSPACE, PTE_W)]
  }

  ghost predicate KmapOk(km: seq<Range>) {
    && (forall i :: 0 <= i < |km| ==> KERNBASE <= km[i].virt && 0 < km[i].len && km[i].virt + km[i].len <= TOP)
    && (forall i, j :: 0 <= i < j < |km| ==> km[i].virt + km[i].len <= km[j].virt)
  }

  predicate Covers(r: Range, v: nat) { r.virt <= v < r.virt + r.len }

  /** The mapping of v, if the first n ranges have one. */
  ghost predicate KernelEntry(km: seq<Range>, n: nat, v: nat, e: Entry)
    requires n <= |km|
  {
    && (forall i :: 0 <= i < n && Covers(km[i], v) ==> e == Present(km[i].phys + (v - km[i].virt), km[i].perm))
    && (e.Present? ==> exists i :: 0 <= i < n && Covers(km[i], v))
  }

  /** The directory maps the kernel as the first n ranges say, and nothing else. */
  ghost predicate KernelOnly(km: seq<Range>, n: nat, sp: Space) {
    n <= |km| && Shaped(sp) && forall v: nat :: v < TOP ==> KernelEntry(km, n, v, EntryAt(sp, v))
  }

  /** The kernel's view of memory: physical memory from KERNBASE on, writable but for the kernel's text, the devices at
      their own addresses, and nothing that user code may touch. */
  function KernelPage(data: nat, v: nat): Entry {
    if 0x8_0000 <= v < 0x8_E000 then Present(v - 0x8_0000, if 0x8_0100 <= v < data then 0 else 2)
    else if 0xF_E000 <= v then Present(v, 2)
    else Absent
  }

  /** From page lo on the directory maps what the kernel maps. */
  ghost predicate KernelFrom(sp: Space, lo: nat, data: nat) {
    Shaped(sp) && forall v: nat :: lo <= v < TOP ==> EntryAt(sp, v) == KernelPage(data, v)
  }

  lemma {:induction false} KmapExact(sp: Space, data: nat)
    requires KERNLINK < data < KERNBASE + PHYSTOP
    ensures KernelOnly(Kmap(data), 4, sp) <==> KernelFrom(sp, 0, data)
  {
    var km := Kmap(data);
    if Shaped(sp) {
      forall v: nat | v < TOP
        ensures KernelEntry(km, 4, v, EntryAt(sp, v)) <==> EntryAt(sp, v) == KernelPage(data, v)
      {
        KmapPage(data, v, EntryAt(sp, v));
      }
    }
  }

  lemma {:induction false} KmapPage(data: nat, v: nat, e: Entry)
    requires KERNLINK < data < KERNBASE + PHYSTOP && v < TOP
    ensures KernelEntry(Kmap(data), 4, v, e) <==> e == KernelPage(data, v)
  {
    var km := Kmap(data);
    assert Covers(km[0], v) <==> 0x8_0000 <= v < 0x8_0100;
    assert Covers(km[1], v) <==> 0x8_0100 <= v < data;
    assert Covers(km[2], v) <==> data <= v < 0x8_E000;
    assert Covers(km[3], v) <==> 0xF_E000 <= v;
  }

  lemma {:induction false} OneMore(km: seq<Range>, n: nat, sp: Space, sp': Space)
    requires KmapOk(km) && n < |km| && KernelOnly(km, n, sp) && Shaped(sp')
    requires forall w: nat :: w < TOP ==>
               EntryAt(sp', w) == if km[n].virt <= w < km[n].virt + km[n].len
                   then Present(km[n].phys + (w - km[n].virt), km[n].perm) else EntryAt(sp, w)
    ensures KernelOnly(km, n + 1, sp')
  {
    forall v: nat | v < TOP ensures KernelEntry(km, n + 1, v, EntryAt(sp', v)) {
      assert KernelEntry(km, n, v, EntryAt(sp, v));
      if Covers(km[n], v) {
        forall i | 0 <= i < n ensures !Covers(km[i], v) {}
      }
    }
  }

  lemma {:induction false} NoRemap(km: seq<Range>, n: nat, sp: Space, v: nat)
    requires KmapOk(km) && n < |km| && KernelOnly(km, n, sp) && Covers(km[n], v)
    ensures EntryAt(sp, v).Absent?
  {
    assert KernelEntry(km, n, v, EntryAt(sp, v));
    if i :| 0 <= i < n && Covers(km[i], v) {
      assert false;
    }
  }

  /** A zeroed page as a directory. */
  lemma {:induction false} NewDir(free: seq<nat>)
    requires NoDup(free) && free != []
    ensures var sp := Space(free[0], EmptyDir());
            Clean(free[1..], sp) && KernelOnly([], 0, sp) && NoUser(sp) && AllFree(free, free[1..], sp)
  {
    var sp := Space(free[0], EmptyDir());
    assert free == [free[0]] + free[1..];
    forall s: Slot | s.Valid() ensures Ref(sp, s) == if s == Root then Some(free[0]) else None {}
    assert Clean(free[1..], sp);
    OnlyRoot(free[1..], sp);
  }

  // The page tables of the kernel's mappings: the first of them, the first above PHYSTOP, the first of DEVSPACE.
  const KERN_TABLE := 512
  const RAM_END := 568
  const DEV_TABLE := 1016

  /** The table after the last that the first j ranges need, DEVSPACE apart. */
  function TablesEnd(data: nat, j: nat): nat {
    match j
    case 0 => KERN_TABLE
    case 1 => KERN_TABLE + 1
    case 2 => (data - 1) / NPTENTRIES + 1
    case _ => RAM_END
  }

  /** The number of tables that the first j ranges need. */
  function KernelTables(data: nat, j: nat): nat
    requires KERNLINK < data < KERNBASE + PHYSTOP
  {
    TablesEnd(data, j) - KERN_TABLE + if j == 4 then NPDENTRIES - DEV_TABLE else 0
  }

  /** The page tables there are once the first j ranges are mapped. */
  ghost predicate KernelDir(sp: Space, data: nat, j: nat) {
    && Shaped(sp)
    && forall i: nat :: i < NPDENTRIES ==>
         (sp.dir[i].Some? <==> KERN_TABLE <= i < TablesEnd(data, j) || (j == 4 && DEV_TABLE <= i))
  }

  lemma {:induction false} KernelDirMore(sp: Space, sp': Space, data: nat, j: nat)
    requires KERNLINK < data < KERNBASE + PHYSTOP && j < 4 && KernelDir(sp, data, j)
    requires var r := Kmap(data)[j]; TablesFor(sp, sp', r.virt, r.virt + r.len)
    ensures KernelDir(sp', data, j + 1)
  {
    var r := Kmap(data)[j];
    assert PDX(r.virt + r.len - 1) == if j == 3 then NPDENTRIES - 1 else TablesEnd(data, j + 1) - 1;
    assert PDX(r.virt) == if j == 3 then DEV_TABLE else if j == 2 then data / NPTENTRIES else KERN_TABLE;
  }

  lemma {:induction false} KernelNeed(sp: Space, data: nat, j: nat)
    requires KERNLINK < data < KERNBASE + PHYSTOP && j < 4 && KernelDir(sp, data, j)
    ensures var r := Kmap(data)[j];
            TableNeed(sp, r.virt, r.virt + r.len) == KernelTables(data, j + 1) - KernelTables(data, j)
    ensures KernelTables(data, j + 1) <= KernelTables(data, 4) == 64
  {
    var r := Kmap(data)[j];
    assert PDX(r.virt + r.len - 1) == if j == 3 then NPDENTRIES - 1 else TablesEnd(data, j + 1) - 1;
    assert PDX(r.virt) == if j == 3 then DEV_TABLE else if j == 2 then data / NPTENTRIES else KERN_TABLE;
    MissingCount(sp, PDX(r.virt), if j == 3 then DEV_TABLE else TablesEnd(data, j), PDX(r.virt + r.len - 1) + 1);
  }

  /** The pages of a directory with the kernel's mappings: itself and 64 page tables. */
  const SETUP_PAGES := 65

  /** The state of setupkvm's loop after j ranges, when it started with n free pages. */
  ghost predicate SetupState(data: nat, j: nat, n: nat, f1: seq<nat>, s1: Space, f: seq<nat>, s: Space) {
    && KERNLINK < data < KERNBASE + PHYSTOP && j <= 4
    && Clean(f, s) && Conserved(f1, s1, f, s) && KernelOnly(Kmap(data), j, s) && NoUser(s)
    && KernelDir(s, data, j) && |f| == n - 1 - KernelTables(data, j)
  }

  /** One range; false is running out of pages. */
  method SetupRange(k: Kernel, d: PageDir, data: nat, j: nat, ghost n: nat, ghost f1: seq<nat>, ghost s1: Space)
    returns (ok: bool)
    requires SetupState(data, j, n, f1, s1, k.freelist, d.sp) && j < 4
    modifies k`freelist, d
    ensures !ok ==> n < SETUP_PAGES && Clean(k.freelist, d.sp) && Conserved(f1, s1, k.freelist, d.sp)
    ensures ok ==> SetupState(data, j + 1, n, f1, s1, k.freelist, d.sp)
  {
    var km := Kmap(data);
    ghost var free2, sp2 := k.freelist, d.sp;
    KernelNeed(sp2, data, j);
    forall w: nat | Covers(km[j], w) ensures EntryAt(sp2, w).Absent? {
      NoRemap(km, j, sp2, w);
    }
    var m := MapKernel(k, d, km[j].virt, km[j].len, km[j].phys, km[j].perm);
    ConservedTrans(f1, s1, free2, sp2, k.freelist, d.sp);
    assert !m.Remap?;
    if m.NoMemory? {
      return false;
    }
    OneMore(km, j, sp2, d.sp);
    KernelDirMore(sp2, d.sp, data, j);
    return true;
  }

  /** setupkvm: a directory with the kernel's mappings only, made of free pages, or nothing at all. */
  method Setupkvm(k: Kernel, data: nat) returns (r: Option<PageDir>)
    requires NoDup(k.freelist) && KERNLINK < data < KERNBASE + PHYSTOP
    modifies k
    ensures r.Some? ==>
                fresh(r.value) && Clean(k.freelist, r.value.sp) && AllFree(old(k.freelist), k.freelist, r.value.sp)
    ensures r.None? <==> |old(k.freelist)| < SETUP_PAGES
    ensures r.Some? ==> KernelFrom(r.value.sp, 0, data) && NoUser(r.value.sp)
    ensures r.Some? ==> |k.freelist| == |old(k.freelist)| - SETUP_PAGES && KernelDir(r.value.sp, data, 4)
    ensures r.None? ==> NoDup(k.freelist) && forall x :: x in k.freelist <==> x in old(k.freelist)
    ensures forall x: nat :: x !in old(k.freelist) ==> Bytes(k.content, x) == Bytes(old(k.content), x)
  {
    ghost var free0, content0 := k.freelist, k.content;
    var km := Kmap(data);
    var page := k.Kalloc();
    if page.None? {
      return None;
    }
    NewDir(free0);
    var d := new PageDir(Space(page.value, EmptyDir()));
    ghost var free1, sp1 := k.freelist, d.sp;
    assert KernelOnly(km, 0, d.sp) by {
      forall v: nat | v < TOP ensures KernelEntry(km, 0, v, EntryAt(d.sp, v)) {
        assert KernelEntry([], 0, v, EntryAt(d.sp, v));
      }
    }
    var i := 0;
    while i < |km|
      invariant 0 <= i <= |km| && k.content == content0
      invariant SetupState(data, i, |free0|, free1, sp1, k.freelist, d.sp)
    {
      var ok := SetupRange(k, d, data, i, |free0|, free1, sp1);
      if !ok {
        AllFreeBack(free0, free1, sp1, k.freelist, d.sp);
        Freevm(k, d);
        return None;
      }
      i := i + 1;
    }
    AllFreeBack(free0, free1, sp1, k.freelist, d.sp);
    KmapExact(d.sp, data);
    return Some(d);
  }

  lemma {:induction false} AllFreeBack(free: seq<nat>, f1: seq<nat>, s1: Space, f2: seq<nat>, s2: Space)
    requires Conserved(f1, s1, f2, s2) && AllFree(free, f1, s1)
    ensures AllFree(free, f2, s2)
  {
    forall x: nat ensures x in free <==> InPool(f2, s2, x) {
      assert InPool(f1, s1, x) <==> InPool(f2, s2, x);
    }
  }

  // ---------- allocuvm and copyuvm ----------

  datatype NewPage = Added(page: nat) | NoPage | NoTable(page: nat) | Taken(page: nat)

  /** One round of both loops: kalloc a page, fill it, map it at v. */
  method AddPage(k: Kernel, d: PageDir, v: nat, bytes: seq<Byte>, flags: nat) returns (r: NewPage)
    requires Clean(k.freelist, d.sp) && v < KERNBASE
    modifies k, d
    ensures Clean(k.freelist, d.sp) && TablesKept(old(d.sp), d.sp)
    ensures r.Taken? ==> EntryAt(old(d.sp), v).Present?
    ensures r.Added? ==> EntryAt(old(d.sp), v).Absent? && r.page in old(k.freelist)
    ensures r.Added? ==> forall w: nat :: w < TOP ==>
                EntryAt(d.sp, w) == if w == v then Present(r.page, flags) else EntryAt(old(d.sp), w)
    ensures r.Added? ==> Bytes(k.content, r.page) == bytes
    ensures r.Added? || r.NoPage? ==> Conserved(old(k.freelist), old(d.sp), k.freelist, d.sp)
    ensures !r.Added? ==> SameEntries(old(d.sp), d.sp)
    ensures r.NoPage? ==> d.sp == old(d.sp)
    ensures r.NoTable? ==> Lent(old(k.freelist), old(d.sp), k.freelist, d.sp, r.page)
    ensures forall x: nat :: x !in old(k.freelist) ==> Bytes(k.content, x) == Bytes(old(k.content), x)
    ensures FromFree(old(k.freelist), old(d.sp), d.sp) && forall x: nat :: x in k.freelist ==> x in old(k.freelist)
    ensures r.NoPage? <==> old(k.freelist) == []
    ensures r.Taken? <==> old(k.freelist) != [] && EntryAt(old(d.sp), v).Present?
    ensures r.NoTable? <==> |old(k.freelist)| == NewTable(old(d.sp), v) == 1
    ensures r.Added? ==> |k.freelist| == |old(k.freelist)| - 1 - NewTable(old(d.sp), v) && WithTable(old(d.sp), d.sp, v)
  {
    ghost var free, sp := k.freelist, d.sp;
    var mem := k.Kalloc();
    if mem.None? {
      return NoPage;
    }
    Pop(free, sp);
    k.content := k.content[mem.value := bytes];
    var m := MapUser(k, d, v, mem.value, flags);
    match m {
      case Mapped => return Added(mem.value);
      case NoMemory => return NoTable(mem.value);
      case Remap => return Taken(mem.value);
    }
  }

  /** The pool is what it was but for page p, which is in the kernel's hands. */
  ghost predicate Lent(free: seq<nat>, sp: Space, free': seq<nat>, sp': Space, p: nat) {
    Shaped(sp) && Shaped(sp') && Held(free', sp', p) && p in free
    && forall x: nat :: InPool(free, sp, x) <==> InPool(free', sp', x) || x == p
  }

  /** Giving the lent page back, whatever conserving steps happened in between. */
  lemma {:induction false} GiveBack(f0: seq<nat>, s0: Space, f1: seq<nat>, s1: Space, f2: seq<nat>, s2: Space, p: nat)
    requires Lent(f0, s0, f1, s1, p) && Conserved(f1, s1, f2, s2) && Clean(f2, s2)
    ensures Clean([p] + f2, s2) && Conserved(f0, s0, [p] + f2, s2)
  {
    assert !InPool(f1, s1, p);
    assert Held(f2, s2, p);
    Push(f2, s2, p);
    forall x: nat ensures InPool(f0, s0, x) <==> InPool([p] + f2, s2, x) {
      assert InPool(f1, s1, x) <==> InPool(f2, s2, x);
    }
  }

  /** v is mapped to its own zeroed page, writable by the user. */
  ghost predicate ZeroPage(content: Pages, e: Entry) {
    e.Present? && e.flags == PTE_W + PTE_U && Bytes(content, e.page) == Filled(0)
  }

  /** User pages lo to hi are freshly mapped, everything else is as it was. */
  ghost predicate Grown(sp: Space, sp': Space, lo: nat, hi: nat, content: Pages) {
    && Shaped(sp) && Shaped(sp') && hi <= KERNBASE && TablesKept(sp, sp')
    && forall w: nat :: w < TOP ==> if lo <= w < hi then ZeroPage(content, EntryAt(sp', w))
         else EntryAt(sp', w) == EntryAt(sp, w)
  }

  /** Pages lo to hi are unmapped, everything else is as it was, but for tables added. */
  ghost predicate Cleared(sp: Space, sp': Space, lo: nat, hi: nat) {
    && Shaped(sp) && Shaped(sp') && TablesKept(sp, sp')
    && forall w: nat :: w < TOP ==> EntryAt(sp', w) == if lo <= w < hi then Absent else EntryAt(sp, w)
  }

  /** The failure path of allocuvm: deallocuvm(pgdir, newsz, oldsz), and kfree(mem) if there is one. */
  method UndoGrowth(k: Kernel, d: PageDir, oldsz: nat, newsz: nat, mem: Option<nat>, ghost f1: seq<nat>,
                    ghost s1: Space)
    requires Clean(k.freelist, d.sp) && oldsz <= newsz < KERNBASE * PGSIZE
    requires SameEntries(s1, d.sp) && TablesKept(s1, d.sp)
    requires if mem.None? then Conserved(f1, s1, k.freelist, d.sp) else Lent(f1, s1, k.freelist, d.sp, mem.value)
    modifies k, d
    ensures Clean(k.freelist, d.sp) && Conserved(f1, s1, k.freelist, d.sp)
    ensures Cleared(s1, d.sp, PageRoundUp(oldsz), PageRoundUp(newsz))
    ensures forall i: nat :: i < NPDENTRIES ==> Ref(d.sp, Tab(i)) == Ref(old(d.sp), Tab(i))
    ensures Spared(f1, s1, old(k.content), k.content)
  {
    ghost var f2, s2, c2 := k.freelist, d.sp, k.content;
    var _ := Deallocuvm(k, d, newsz, oldsz);
    FreeRangeEntries(f2, s2, PageRoundUp(oldsz), PageRoundUp(newsz));
    if mem.Some? {
      GiveBack(f1, s1, f2, s2, k.freelist, d.sp, mem.value);
      assert InPool(f1, s1, mem.value);
      k.Kfree(mem.value);
      forall x: nat | !InPool(f1, s1, x) ensures Bytes(k.content, x) == Bytes(c2, x) {
        assert !InPool(f2, s2, x);
      }
    } else {
      ConservedTrans(f1, s1, f2, s2, k.freelist, d.sp);
      forall x: nat | !InPool(f1, s1, x) ensures Bytes(k.content, x) == Bytes(c2, x) {
        assert !InPool(f2, s2, x);
      }
    }
  }

  /** A page added at a extends the growth: pages mapped before keep their zeroes. */
  lemma {:induction false} GrownMore(sp0: Space, sp1: Space, sp2: Space, lo: nat, a: nat, free1: seq<nat>,
                                     c1: Pages, c2: Pages, p: nat)
    requires Grown(sp0, sp1, lo, a, c1) && Clean(free1, sp1) && lo <= a < KERNBASE && TablesKept(sp1, sp2)
    requires forall w: nat :: w < TOP ==> EntryAt(sp2, w) == if w == a then Present(p, PTE_W + PTE_U)
               else EntryAt(sp1, w)
    requires Bytes(c2, p) == Filled(0) && forall x: nat :: x !in free1 ==> Bytes(c2, x) == Bytes(c1, x)
    ensures Grown(sp0, sp2, lo, a + 1, c2)
  {
    forall w: nat | w < TOP
      ensures if lo <= w < a + 1 then ZeroPage(c2, EntryAt(sp2, w)) else EntryAt(sp2, w) == EntryAt(sp0, w)
    {
      if lo <= w < a {
        assert ZeroPage(c1, EntryAt(sp1, w));
        assert Ref(sp1, User(w)) == Some(EntryAt(sp1, w).page);
      }
    }
  }

  datatype AllocResult = Size(sz: nat) | Panic

  /** What allocuvm returns with n free pages: it panics at a mapped page that it has pages enough to reach and one
      to spare, and succeeds if there is none and the pages suffice. */
  function Outcome(sp: Space, n: nat, lo: nat, hi: nat, newsz: nat): AllocResult
    requires Shaped(sp) && lo <= hi <= KERNBASE
  {
    var v := FirstMapped(sp, lo, hi);
    if n < Need(sp, lo, v) || (v < hi && n == Need(sp, lo, v)) then Size(0)
    else if v < hi then Panic else Size(newsz)
  }

  lemma {:induction false} AllGrown(sp: Space, n: nat, lo: nat, hi: nat, newsz: nat)
    requires Shaped(sp) && lo <= hi <= KERNBASE && FirstMapped(sp, lo, hi) == hi && n >= Need(sp, lo, hi)
    ensures Outcome(sp, n, lo, hi, newsz) == Size(newsz)
  {
  }

  /** The round at page a, with n pages free at the start, decides the outcome or goes on. */
  lemma {:induction false} RoundOutcome(sp0: Space, sp: Space, n: nat, lo: nat, a: nat, hi: nat, newsz: nat)
    requires TablesFor(sp0, sp, lo, a) && lo <= a < hi <= KERNBASE && a <= FirstMapped(sp0, lo, hi)
    requires n >= Need(sp0, lo, a) && EntryAt(sp, a) == EntryAt(sp0, a)
    ensures var left, out := n - Need(sp0, lo, a), Outcome(sp0, n, lo, hi, newsz);
            && (left == 0 ==> out == Size(0))
            && (left > 0 && EntryAt(sp, a).Present? ==> out == Panic)
            && (left == 1 && NewTable(sp, a) == 1 ==> out == Size(0))
            && (EntryAt(sp, a).Absent? ==> a < FirstMapped(sp0, lo, hi))
  {
    var v := FirstMapped(sp0, lo, hi);
    NeedMore(sp0, sp, lo, a);
    if a < v {
      NeedGrows(sp0, lo, a, v);
    }
  }

  /** allocuvm(pgdir, oldsz, newsz). Size(0) with newsz below KERNBASE is running out of memory: every page
      mapped is free again, and only page tables, which pgdir owns, may remain. */
  method Allocuvm(k: Kernel, d: PageDir, oldsz: nat, newsz: nat) returns (r: AllocResult)
    requires Clean(k.freelist, d.sp)
    modifies k, d
    ensures newsz >= KERNBASE * PGSIZE ==> r == Size(0)
    ensures newsz < KERNBASE * PGSIZE && newsz < oldsz ==> r == Size(oldsz)
    ensures newsz >= KERNBASE * PGSIZE || newsz < oldsz ==> d.sp == old(d.sp) && k.freelist == old(k.freelist)
    ensures oldsz <= newsz < KERNBASE * PGSIZE ==>
              r == Outcome(old(d.sp), |old(k.freelist)|, PageRoundUp(oldsz), PageRoundUp(newsz), newsz)
    ensures !r.Panic? ==> Clean(k.freelist, d.sp) && Conserved(old(k.freelist), old(d.sp), k.freelist, d.sp)
    ensures oldsz <= newsz < KERNBASE * PGSIZE && r == Size(newsz) && newsz > 0 ==>
              Grown(old(d.sp), d.sp, PageRoundUp(oldsz), PageRoundUp(newsz), k.content)
    ensures oldsz <= newsz < KERNBASE * PGSIZE && r == Size(0) && newsz > 0 ==>
              Cleared(old(d.sp), d.sp, PageRoundUp(oldsz), PageRoundUp(newsz))
    ensures FromFree(old(k.freelist), old(d.sp), d.sp)
    ensures Spared(old(k.freelist), old(d.sp), old(k.content), k.content)
  {
    if newsz >= KERNBASE * PGSIZE {
      return Size(0);
    }
    if newsz < oldsz {
      return Size(oldsz);
    }
    r := GrowRange(k, d, oldsz, newsz);
  }

  /** The state of allocuvm's loop at page a. */
  ghost predicate Growing(f0: seq<nat>, s0: Space, c0: Pages, f: seq<nat>, s: Space, c: Pages,
                          lo: nat, a: nat, hi: nat) {
    && Shaped(s0) && lo <= a <= hi <= KERNBASE && a <= FirstMapped(s0, lo, hi)
    && Clean(f, s) && Conserved(f0, s0, f, s) && Grown(s0, s, lo, a, c) && Spared(f0, s0, c0, c)
    && |f| == |f0| - Need(s0, lo, a) && TablesFor(s0, s, lo, a)
    && FromFree(f0, s0, s) && forall x: nat :: x in f ==> x in f0
  }

  lemma {:induction false} GrowingStart(f: seq<nat>, s: Space, c: Pages, lo: nat, hi: nat)
    requires Clean(f, s) && lo <= hi <= KERNBASE
    ensures Growing(f, s, c, f, s, c, lo, lo, hi)
  {
  }

  /** The loop of allocuvm. */
  method GrowRange(k: Kernel, d: PageDir, oldsz: nat, newsz: nat) returns (r: AllocResult)
    requires Clean(k.freelist, d.sp) && oldsz <= newsz < KERNBASE * PGSIZE
    modifies k, d
    ensures r == Outcome(old(d.sp), |old(k.freelist)|, PageRoundUp(oldsz), PageRoundUp(newsz), newsz)
    ensures !r.Panic? ==> Clean(k.freelist, d.sp) && Conserved(old(k.freelist), old(d.sp), k.freelist, d.sp)
    ensures r == Size(newsz) && newsz > 0 ==> Grown(old(d.sp), d.sp, PageRoundUp(oldsz), PageRoundUp(newsz), k.content)
    ensures r == Size(0) && newsz > 0 ==> Cleared(old(d.sp), d.sp, PageRoundUp(oldsz), PageRoundUp(newsz))
    ensures FromFree(old(k.freelist), old(d.sp), d.sp)
    ensures Spared(old(k.freelist), old(d.sp), old(k.content), k.content)
  {
    ghost var free0, sp0, content0 := k.freelist, d.sp, k.content;
    var a := PageRoundUp(oldsz);
    ghost var lo, hi := a, PageRoundUp(newsz);
    GrowingStart(free0, sp0, content0, lo, hi);
    while a * PGSIZE < newsz
      invariant Growing(free0, sp0, content0, k.freelist, d.sp, k.content, lo, a, hi)
    {
      var done := GrowOne(k, d, oldsz, newsz, a, free0, sp0, content0);
      if done.Some? {
        return done.value;
      }
      a := a + 1;
    }
    AllGrown(sp0, |free0|, lo, hi, newsz);
    return Size(newsz);
  }

  /** One round of it: None is to go on. */
  method GrowOne(k: Kernel, d: PageDir, oldsz: nat, newsz: nat, a: nat,
                 ghost free0: seq<nat>, ghost sp0: Space, ghost content0: Pages) returns (r: Option<AllocResult>)
    requires oldsz <= newsz < KERNBASE * PGSIZE && a < PageRoundUp(newsz)
    requires Growing(free0, sp0, content0, k.freelist, d.sp, k.content, PageRoundUp(oldsz), a, PageRoundUp(newsz))
    modifies k, d
    ensures r.None? ==>
              Growing(free0, sp0, content0, k.freelist, d.sp, k.content, PageRoundUp(oldsz), a + 1, PageRoundUp(newsz))
    ensures r.Some? ==> r.value == Outcome(sp0, |free0|, PageRoundUp(oldsz), PageRoundUp(newsz), newsz)
    ensures r.Some? ==> r.value in {Size(0), Panic}
    ensures r.Some? && newsz > 0 && r.value == Size(0) ==>
              && Clean(k.freelist, d.sp) && Conserved(free0, sp0, k.freelist, d.sp)
              && Cleared(sp0, d.sp, PageRoundUp(oldsz), PageRoundUp(newsz))
    ensures FromFree(free0, sp0, d.sp) && Spared(free0, sp0, content0, k.content)
  {
    ghost var free1, sp1, content1, lo, hi := k.freelist, d.sp, k.content, PageRoundUp(oldsz), PageRoundUp(newsz);
    var added := AddPage(k, d, a, Filled(0), PTE_W + PTE_U);
    SparedTrans(free0, sp0, free1, sp1, content0, content1, k.content);
    RoundOutcome(sp0, sp1, |free0|, lo, a, hi, newsz);
    FromFreeTrans(free0, sp0, free1, sp1, d.sp);
    if added.Taken? {
      return Some(Panic);
    }
    if !added.Added? {
      ghost var content2 := k.content;
      UndoGrowth(k, d, oldsz, newsz, if added.NoTable? then Some(added.page) else None, free1, sp1);
      ConservedTrans(free0, sp0, free1, sp1, k.freelist, d.sp);
      SparedTrans(free0, sp0, free1, sp1, content0, content2, k.content);
      return Some(Size(0));
    }
    GrownMore(sp0, sp1, d.sp, lo, a, free1, content1, k.content, added.page);
    TablesMore(sp0, sp1, d.sp, lo, a);
    NeedMore(sp0, sp1, lo, a);
    ConservedTrans(free0, sp0, free1, sp1, k.freelist, d.sp);
    return None;
  }

  /** Pages 0 to n of the child hold the parent's bytes with the parent's flags, and nothing else of the
      user part is mapped. */
  ghost predicate CopyOf(parent: Space, child: Space, n: nat, before: Pages, content: Pages) {
    && Shaped(parent) && Shaped(child) && n <= KERNBASE
    && forall v: nat :: v < KERNBASE ==> if v < n then SamePage(EntryAt(parent, v), EntryAt(child, v), before, content)
                                         else EntryAt(child, v).Absent?
  }

  ghost predicate SamePage(e: Entry, e': Entry, before: Pages, content: Pages) {
    e.Present? && e'.Present? && e'.flags == e.flags && Bytes(content, e'.page) == Bytes(before, e.page)
  }

  lemma {:induction false} CopyMore(parent: Space, c1: Space, c2: Space, n: nat, free1: seq<nat>, before: Pages,
                                    m1: Pages, m2: Pages, p: nat)
    requires CopyOf(parent, c1, n, before, m1) && Clean(free1, c1) && n < KERNBASE && EntryAt(parent, n).Present?
             && Shaped(c2)
    requires forall w: nat :: w < TOP ==>
               EntryAt(c2, w) == if w == n then Present(p, EntryAt(parent, n).flags) else EntryAt(c1, w)
    requires Bytes(m2, p) == Bytes(before, EntryAt(parent, n).page)
    requires forall x: nat :: x !in free1 ==> Bytes(m2, x) == Bytes(m1, x)
    ensures CopyOf(parent, c2, n + 1, before, m2)
  {
    forall v: nat | v < KERNBASE
      ensures if v < n + 1 then SamePage(EntryAt(parent, v), EntryAt(c2, v), before, m2) else EntryAt(c2, v).Absent?
    {
      if v < n {
        assert SamePage(EntryAt(parent, v), EntryAt(c1, v), before, m1);
        assert Ref(c1, User(v)) == Some(EntryAt(c1, v).page);
      }
    }
  }

  /** Bytes of pages that were not free at the start are never touched. */
  lemma {:induction false} PoolBytes(free0: seq<nat>, free1: seq<nat>, sp1: Space, c0: Pages, c1: Pages, c2: Pages)
    requires Shaped(sp1) && AllFree(free0, free1, sp1)
    requires forall x: nat :: x !in free0 ==> Bytes(c1, x) == Bytes(c0, x)
    requires forall x: nat :: x !in free1 ==> Bytes(c2, x) == Bytes(c1, x)
    ensures forall x: nat :: x !in free0 ==> Bytes(c2, x) == Bytes(c0, x)
  {
    forall x: nat | x !in free0 ensures Bytes(c2, x) == Bytes(c0, x) {
      assert !InPool(free1, sp1, x);
    }
  }

  /** The failure path of copyuvm: kfree(mem) if there is one, and freevm(d). */
  method DropChild(k: Kernel, d: PageDir, mem: Option<nat>, ghost free0: seq<nat>, ghost f1: seq<nat>, ghost s1: Space)
    requires Clean(k.freelist, d.sp) && Shaped(s1) && AllFree(free0, f1, s1)
    requires if mem.None? then Conserved(f1, s1, k.freelist, d.sp) else Lent(f1, s1, k.freelist, d.sp, mem.value)
    modifies k, d
    ensures NoDup(k.freelist) && forall x: nat :: x in k.freelist <==> x in free0
    ensures forall x: nat :: x !in free0 ==> Bytes(k.content, x) == Bytes(old(k.content), x)
  {
    ghost var f2, s2 := k.freelist, d.sp;
    if mem.Some? {
      GiveBack(f1, s1, f2, s2, f2, s2, mem.value);
      assert InPool(f1, s1, mem.value);
      k.Kfree(mem.value);
    }
    AllFreeBack(free0, f1, s1, k.freelist, d.sp);
    Freevm(k, d);
  }

  /** The first page of the parent from lo on that is not there, or hi. */
  function FirstAbsent(sp: Space, lo: nat, hi: nat): (v: nat)
    requires Shaped(sp) && lo <= hi <= KERNBASE
    ensures lo <= v <= hi && (v < hi ==> EntryAt(sp, v).Absent?)
    ensures forall w: nat :: lo <= w < v ==> EntryAt(sp, w).Present?
    decreases hi - lo
  {
    if lo == hi || EntryAt(sp, lo).Absent? then lo else FirstAbsent(sp, lo + 1, hi)
  }

  /** The pages of a user part of n pages from 0: the pages and their page tables. */
  function UserPages(n: nat): nat {
    n + (n + NPTENTRIES - 1) / NPTENTRIES
  }

  lemma {:induction false} UserNeed(sp: Space, data: nat, n: nat)
    requires KernelDir(sp, data, 4) && KERNLINK < data && n <= KERNBASE
    ensures Need(sp, 0, n) == UserPages(n)
  {
    if n > 0 {
      MissingCount(sp, 0, 0, PDX(n - 1) + 1);
    }
  }

  /** A round of copyuvm at page i runs out of memory exactly when its free pages do not reach past it. */
  lemma {:induction false} CopyRound(sp0: Space, sp: Space, data: nat, i: nat, v: nat)
    requires KernelDir(sp0, data, 4) && KERNLINK < data && TablesFor(sp0, sp, 0, i) && i < v <= KERNBASE
    ensures UserPages(i + 1) == UserPages(i) + 1 + NewTable(sp, i) && UserPages(i + 1) <= UserPages(v)
  {
    UserNeed(sp0, data, i);
    UserNeed(sp0, data, i + 1);
    NeedMore(sp0, sp, 0, i);
  }

  datatype CopyResult = Copied(child: PageDir) | OutOfMemory | NotPresent

  /** copyuvm(pgdir, sz): a child made of free pages only, so disjoint from the parent, with equal bytes and
      flags on [0, sz); or, out of memory, the free set of before. */
  method Copyuvm(k: Kernel, parent: PageDir, sz: nat, data: nat) returns (r: CopyResult)
    requires Clean(k.freelist, parent.sp) && sz <= KERNBASE * PGSIZE && KERNLINK < data < KERNBASE + PHYSTOP
    modifies k
    ensures var v := FirstAbsent(parent.sp, 0, PageRoundUp(sz));
            && (r.OutOfMemory? <==> |old(k.freelist)| < SETUP_PAGES + UserPages(v))
            && (r.NotPresent? <==> !r.OutOfMemory? && v < PageRoundUp(sz))
    ensures r.OutOfMemory? ==> NoDup(k.freelist) && forall x: nat :: x in k.freelist <==> x in old(k.freelist)
    ensures r.Copied? ==>
                fresh(r.child) && Clean(k.freelist, r.child.sp) && AllFree(old(k.freelist), k.freelist, r.child.sp)
    ensures r.Copied? ==> CopyOf(parent.sp, r.child.sp, PageRoundUp(sz), old(k.content), k.content)
    ensures r.Copied? ==> KernelFrom(r.child.sp, PageRoundUp(sz), data)
    ensures r.Copied? ==> forall x: nat :: Owns(parent.sp, x) ==> !Owns(r.child.sp, x)
    ensures !r.NotPresent? ==> Clean(k.freelist, parent.sp)
    ensures forall x: nat :: x !in old(k.freelist) ==> Bytes(k.content, x) == Bytes(old(k.content), x)
  {
    ghost var free0, content0 := k.freelist, k.content;
    var made := Setupkvm(k, data);
    if made.None? {
      return OutOfMemory;
    }
    var d := made.value;
    ghost var sp0, v := d.sp, FirstAbsent(parent.sp, 0, PageRoundUp(sz));
    var i := 0;
    while i * PGSIZE < sz
      invariant 0 <= i <= v <= PageRoundUp(sz)
      invariant Copying(free0, content0, parent.sp, sp0, data, i, k.freelist, d.sp, k.content)
    {
      if EntryAt(parent.sp, i).Absent? {
        return NotPresent;
      }
      CopyRound(sp0, d.sp, data, i, v);
      var ok := CopyPage(k, parent, d, data, i, free0, content0, sp0);
      if !ok {
        return OutOfMemory;
      }
      i := i + 1;
    }
    return Copied(d);
  }

  /** The state of copyuvm's loop at page i. */
  ghost predicate Copying(free0: seq<nat>, content0: Pages, parent: Space, sp0: Space, data: nat, i: nat, f: seq<nat>,
                          s: Space, c: Pages) {
    && |f| == |free0| - SETUP_PAGES - UserPages(i) && TablesFor(sp0, s, 0, i)
    && Clean(f, s) && AllFree(free0, f, s)
    && CopyOf(parent, s, i, content0, c) && KernelFrom(s, i, data)
    && forall x: nat :: x !in free0 ==> Bytes(c, x) == Bytes(content0, x)
  }

  /** One round; false is running out of memory, with the child taken down again. */
  method CopyPage(k: Kernel, parent: PageDir, d: PageDir, data: nat, i: nat, ghost free0: seq<nat>,
                  ghost content0: Pages, ghost sp0: Space) returns (ok: bool)
    requires Copying(free0, content0, parent.sp, sp0, data, i, k.freelist, d.sp, k.content)
    requires parent != d && Clean(free0, parent.sp) && i < KERNBASE && EntryAt(parent.sp, i).Present?
    requires UserPages(i + 1) == UserPages(i) + 1 + NewTable(d.sp, i)
    modifies k, d
    ensures ok ==> Copying(free0, content0, parent.sp, sp0, data, i + 1, k.freelist, d.sp, k.content)
    ensures ok <==> |free0| >= SETUP_PAGES + UserPages(i + 1)
    ensures !ok ==> NoDup(k.freelist) && forall x: nat :: x in k.freelist <==> x in free0
    ensures !ok ==> forall x: nat :: x !in free0 ==> Bytes(k.content, x) == Bytes(content0, x)
  {
    var e := EntryAt(parent.sp, i);
    ghost var free1, sp1, content1 := k.freelist, d.sp, k.content;
    assert Ref(parent.sp, User(i)) == Some(e.page);
    var added := AddPage(k, d, i, Bytes(k.content, e.page), e.flags);
    PoolBytes(free0, free1, sp1, content0, content1, k.content);
    if !added.Added? {
      DropChild(k, d, if added.NoTable? then Some(added.page) else None, free0, free1, sp1);
      return false;
    }
    AllFreeBack(free0, free1, sp1, k.freelist, d.sp);
    CopyMore(parent.sp, sp1, d.sp, i, free1, content0, content1, k.content, added.page);
    TablesMore(sp0, sp1, d.sp, 0, i);
    return true;
  }

  // ---------- what conservation gives ----------

  /** After an allocuvm that failed: a page that was free and is no longer is a page table of the directory, and a
      page that is free and was not before was mapped in the range. */
  lemma {:induction false} FailedGrowthPages(f0: seq<nat>, s0: Space, f1: seq<nat>, s1: Space, lo: nat, hi: nat, x: nat)
    requires Clean(f0, s0) && Clean(f1, s1) && Conserved(f0, s0, f1, s1) && Cleared(s0, s1, lo, hi) && hi <= KERNBASE
    requires FromFree(f0, s0, s1)
    ensures x in f1 && x !in f0 <==> exists v: nat :: lo <= v < hi && Ref(s0, User(v)) == Some(x)
    ensures x in f0 && x !in f1 ==> exists i: nat ::
                i < NPDENTRIES && Ref(s1, Tab(i)) == Some(x) && Ref(s0, Tab(i)).None?
  {
    assert InPool(f0, s0, x) <==> InPool(f1, s1, x);
    forall s: Slot | s.Valid() && Ref(s0, s) == Some(x) ensures Ref(s1, s) == Some(x) || (s.User? && lo <= s.v < hi) {
      assert s.User? ==> EntryAt(s1, s.v) == if lo <= s.v < hi then Absent else EntryAt(s0, s.v);
    }
    if s: Slot :| x in f0 && s.Valid() && Ref(s1, s) == Some(x) {
      assert Ref(s0, s) != Some(x);
      assert s.Tab? && Ref(s0, s).None?;
    }
    if v: nat :| lo <= v < hi && Ref(s0, User(v)) == Some(x) {
      GoneIsFree(f0, s0, f1, s1, lo, hi, v, x);
    }
  }

  lemma {:induction false} GoneIsFree(f0: seq<nat>, s0: Space, f1: seq<nat>, s1: Space, lo: nat, hi: nat, v: nat,
                                      x: nat)
    requires Clean(f0, s0) && Clean(f1, s1) && Conserved(f0, s0, f1, s1) && Cleared(s0, s1, lo, hi) && hi <= KERNBASE
    requires FromFree(f0, s0, s1)
    requires lo <= v < hi && Ref(s0, User(v)) == Some(x)
    ensures x in f1 && x !in f0
  {
    assert InPool(f0, s0, x);
    assert InPool(f1, s1, x);
    forall s: Slot | s.Valid() ensures Ref(s1, s) != Some(x) {
      assert s != User(v) ==> Ref(s0, s) != Some(x);
      if s.User? {
        assert EntryAt(s1, s.v) == if lo <= s.v < hi then Absent else EntryAt(s0, s.v);
      }
    }
  }

  /** A failed allocuvm restores the mappings, and takes nothing from the directory, if and only if no page of the
      range was mapped. */
  lemma {:induction false} FailedGrowthExact(f0: seq<nat>, s0: Space, f1: seq<nat>, s1: Space, lo: nat, hi: nat)
    requires Clean(f0, s0) && Clean(f1, s1) && Conserved(f0, s0, f1, s1) && Cleared(s0, s1, lo, hi)
    requires FromFree(f0, s0, s1) && lo <= hi <= KERNBASE
    ensures SameEntries(s0, s1) <==> FirstMapped(s0, lo, hi) == hi
    ensures (forall x: nat :: x in f1 ==> x in f0) <==> FirstMapped(s0, lo, hi) == hi
  {
    var v := FirstMapped(s0, lo, hi);
    if v < hi {
      assert EntryAt(s1, v).Absent?;
      FailedGrowthPages(f0, s0, f1, s1, lo, hi, EntryAt(s0, v).page);
      assert Ref(s0, User(v)) == Some(EntryAt(s0, v).page);
    } else {
      forall x: nat | x in f1 ensures x in f0 {
        FailedGrowthPages(f0, s0, f1, s1, lo, hi, x);
      }
    }
  }

  lemma {:induction false} LosingClean(sp: Space, table: Table)
    requires table == Table(1, EmptyTable()[5 := Present(2, PTE_W + PTE_U)])
             && sp == Space(0, EmptyDir()[0 := Some(table)])
    ensures Clean([], sp)
  {
    forall s: Slot | s.Valid()
      ensures Ref(sp, s) == if s == Root then Some(0) else if s == Tab(0) then Some(1)
                else if s == User(5) then Some(2) else None
    {
      if s.User? && PDX(s.v) == 0 {
        assert s.v == PTX(s.v);
      }
    }
  }

  /** A directory with page 5 mapped and no free page: growing from 0 over it fails, and page 5 is gone. */
  method LosesMapping() returns (k: Kernel, d: PageDir, r: AllocResult)
    ensures r == Size(0) && Shaped(d.sp) && EntryAt(d.sp, 5).Absent? && 2 in k.freelist
  {
    var table := Table(1, EmptyTable()[5 := Present(2, PTE_W + PTE_U)]);
    var sp := Space(0, EmptyDir()[0 := Some(table)]);
    k := new Kernel.Holding([]);
    d := new PageDir(sp);
    LosingClean(sp, table);
    assert EntryAt(sp, 5) == Present(2, PTE_W + PTE_U);
    NeedGrows(sp, 0, 0, FirstMapped(sp, 0, 6));
    r := Allocuvm(k, d, 0, 6 * PGSIZE);
    GoneIsFree([], sp, k.freelist, d.sp, 0, 6, 5, 2);
  }

  ghost predicate Apart(sp: Space, other: Space) {
    Shaped(sp) && Shaped(other) && forall x: nat :: !(Owns(sp, x) && Owns(other, x))
  }

  /** Any conserving step on one directory leaves every other directory's pages out of the free list and
      apart from this one's: ownership stays a partition with any number of address spaces. */
  lemma {:induction false} OtherSpacesSafe(f0: seq<nat>, s0: Space, f1: seq<nat>, s1: Space, other: Space)
    requires Clean(f0, s0) && Clean(f1, s1) && Conserved(f0, s0, f1, s1) && Clean(f0, other) && Apart(s0, other)
    ensures Clean(f1, other) && Apart(s1, other)
  {
    forall x: nat | Owns(other, x) ensures x !in f1 && !Owns(s1, x) {
      var s: Slot :| s.Valid() && Ref(other, s) == Some(x);
      assert x !in f0;
      assert !InPool(f0, s0, x);
      assert !InPool(f1, s1, x);
    }
    forall s: Slot | s.Valid() && Ref(other, s).Some? ensures Ref(other, s).value !in f1 {
      assert Owns(other, Ref(other, s).value);
    }
  }
}
