/** Page directories of vm.c as values: which physical page each directory, table and user mapping
    occupies. Virtual addresses count pages. */
module VmSpace {
  import opened Blocks

  const NPDENTRIES := 1024
  const NPTENTRIES := 1024
  const KERNBASE := 0x8_0000  // 0x80000000 / PGSIZE
  const TOP := 0x10_0000      // 2^32 / PGSIZE

  /** A page table entry: PTE_P with the page it names and its other flags, or not present. */
  datatype Entry = Absent | Present(page: nat, flags: nat)
  datatype Table = Table(page: nat, pte: seq<Entry>)

  /** A page directory: its own page, and the page tables it points to. */
  datatype Space = Space(page: nat, dir: seq<Option<Table>>)

  predicate Shaped(sp: Space) {
    && |sp.dir| == NPDENTRIES
    && forall i :: 0 <= i < NPDENTRIES && sp.dir[i].Some? ==> |sp.dir[i].value.pte| == NPTENTRIES
  }

  function PDX(v: nat): nat { v / NPTENTRIES }
  function PTX(v: nat): nat { v % NPTENTRIES }

  function EntryAt(sp: Space, v: nat): Entry
    requires Shaped(sp) && v < TOP
  {
    if sp.dir[PDX(v)].None? then Absent else sp.dir[PDX(v)].value.pte[PTX(v)]
  }

  /** The places of a directory that own a physical page: itself, its tables, its user mappings. Kernel
      mappings, from KERNBASE up, name pages the directory does not own. */
  datatype Slot = Root | Tab(i: nat) | User(v: nat) {
    predicate Valid() { (Tab? ==> i < NPDENTRIES) && (User? ==> v < KERNBASE) }
  }

  function Ref(sp: Space, s: Slot): Option<nat>
    requires Shaped(sp) && s.Valid()
  {
    match s
    case Root => Some(sp.page)
    case Tab(i) => if sp.dir[i].None? then None else Some(sp.dir[i].value.page)
    case User(v) => var e := EntryAt(sp, v); if e.Absent? then None else Some(e.page)
  }

  ghost predicate Owns(sp: Space, x: nat)
    requires Shaped(sp)
  {
    exists s: Slot :: s.Valid() && Ref(sp, s) == Some(x)
  }

  ghost predicate NoDup(free: seq<nat>) {
    forall i, j :: 0 <= i < j < |free| ==> free[i] != free[j]
  }

  /** No page is owned twice, and none is both owned and free. */
  ghost predicate Clean(free: seq<nat>, sp: Space) {
    && Shaped(sp) && NoDup(free)
    && (forall s: Slot :: s.Valid() && Ref(sp, s).Some? ==> Ref(sp, s).value !in free)
    && (forall s: Slot, t: Slot :: s.Valid() && t.Valid() && s != t && Ref(sp, s).Some? ==> Ref(sp, s) != Ref(sp, t))
  }

  ghost predicate InPool(free: seq<nat>, sp: Space, x: nat)
    requires Shaped(sp)
  {
    x in free || Owns(sp, x)
  }

  /** The pages that are free or owned are the same before and after. */
  ghost predicate Conserved(free: seq<nat>, sp: Space, free': seq<nat>, sp': Space) {
    Shaped(sp) && Shaped(sp') && forall x: nat :: InPool(free, sp, x) <==> InPool(free', sp', x)
  }

  lemma {:induction false} ConservedTrans(f0: seq<nat>, s0: Space, f1: seq<nat>, s1: Space, f2: seq<nat>, s2: Space)
    requires Conserved(f0, s0, f1, s1) && Conserved(f1, s1, f2, s2)
    ensures Conserved(f0, s0, f2, s2)
  {
    forall x: nat ensures InPool(f0, s0, x) <==> InPool(f2, s2, x) {
      assert InPool(f1, s1, x) <==> InPool(f2, s2, x);
    }
  }

  /** One slot differs. */
  ghost predicate Changed(sp: Space, sp': Space, slot: Slot) {
    && Shaped(sp) && Shaped(sp') && slot.Valid()
    && forall s: Slot :: s.Valid() && s != slot ==> Ref(sp', s) == Ref(sp, s)
  }

  /** Page p is in the kernel's hands: neither free nor owned. */
  ghost predicate Held(free: seq<nat>, sp: Space, p: nat)
    requires Shaped(sp)
  {
    p !in free && !Owns(sp, p)
  }

  /** kalloc: the first free page comes into the kernel's hands. */
  lemma {:induction false} Pop(free: seq<nat>, sp: Space)
    requires Clean(free, sp) && free != []
    ensures Clean(free[1..], sp) && Held(free[1..], sp, free[0])
    ensures forall x: nat :: InPool(free, sp, x) <==> InPool(free[1..], sp, x) || x == free[0]
  {
    assert free == [free[0]] + free[1..];
  }

  /** kfree: a page in the kernel's hands becomes free. */
  lemma {:induction false} Push(free: seq<nat>, sp: Space, p: nat)
    requires Clean(free, sp) && Held(free, sp, p)
    ensures Clean([p] + free, sp)
    ensures forall x: nat :: InPool([p] + free, sp, x) <==> InPool(free, sp, x) || x == p
  {
    forall s: Slot | s.Valid() && Ref(sp, s).Some? ensures Ref(sp, s).value !in [p] + free {
      assert Ref(sp, s) != Some(p);
    }
  }

  /** A page in the kernel's hands goes into an empty slot. */
  lemma {:induction false} Put(free: seq<nat>, sp: Space, sp': Space, slot: Slot, p: nat)
    requires Clean(free, sp) && Held(free, sp, p) && Changed(sp, sp', slot) && Ref(sp, slot).None?
             && Ref(sp', slot) == Some(p)
    ensures Clean(free, sp')
    ensures forall x: nat :: InPool(free, sp', x) <==> InPool(free, sp, x) || x == p
  {
    forall s: Slot | s.Valid() && s != slot ensures Ref(sp', s) != Some(p) {
      assert Ref(sp, s) != Some(p);
    }
    forall x: nat ensures Owns(sp', x) <==> Owns(sp, x) || x == p {
      OwnsPut(sp, sp', slot, p, x);
    }
  }

  lemma {:induction false} OwnsPut(sp: Space, sp': Space, slot: Slot, p: nat, x: nat)
    requires Changed(sp, sp', slot) && Ref(sp, slot).None? && Ref(sp', slot) == Some(p)
    ensures Owns(sp', x) <==> Owns(sp, x) || x == p
  {
    if s: Slot :| s.Valid() && Ref(sp, s) == Some(x) {
      assert Ref(sp', s) == Some(x);
    }
    if s: Slot :| s.Valid() && Ref(sp', s) == Some(x) {
      assert s == slot || Ref(sp, s) == Some(x);
    }
    if x == p {
      assert Ref(sp', slot) == Some(x);
    }
  }

  /** A slot is emptied; its page comes into the kernel's hands. */
  lemma {:induction false} Take(free: seq<nat>, sp: Space, sp': Space, slot: Slot)
    requires Clean(free, sp) && Changed(sp, sp', slot) && Ref(sp, slot).Some? && Ref(sp', slot).None?
    ensures Clean(free, sp') && Held(free, sp', Ref(sp, slot).value)
    ensures forall x: nat :: InPool(free, sp, x) <==> InPool(free, sp', x) || x == Ref(sp, slot).value
  {
    var p := Ref(sp, slot).value;
    forall s: Slot | s.Valid() ensures Ref(sp', s) != Some(p) {
      assert s == slot || Ref(sp, s) != Ref(sp, slot);
    }
    forall x: nat ensures Owns(sp, x) <==> Owns(sp', x) || x == p {
      OwnsPut(sp', sp, slot, p, x);
    }
  }

  /** Slots unchanged: everything as before. */
  lemma {:induction false} SameRefs(free: seq<nat>, sp: Space, sp': Space)
    requires Clean(free, sp) && Shaped(sp') && forall s: Slot :: s.Valid() ==> Ref(sp', s) == Ref(sp, s)
    ensures Clean(free, sp') && Conserved(free, sp, free, sp') && forall x: nat :: Owns(sp', x) <==> Owns(sp, x)
  {
    forall x: nat ensures Owns(sp', x) <==> Owns(sp, x) {
      if s: Slot :| s.Valid() && Ref(sp, s) == Some(x) { assert Ref(sp', s) == Some(x); }
      if s: Slot :| s.Valid() && Ref(sp', s) == Some(x) { assert Ref(sp, s) == Some(x); }
    }
  }

  // ---------- changing a directory ----------

  function EmptyTable(): (t: seq<Entry>)
    ensures |t| == NPTENTRIES && forall i :: 0 <= i < NPTENTRIES ==> t[i] == Absent
  {
    seq(NPTENTRIES, _ => Absent)
  }

  /** walkpgdir installs a zeroed page table. */
  function AddTable(sp: Space, i: nat, p: nat): Space
    requires i < |sp.dir|
  {
    Space(sp.page, sp.dir[i := Some(Table(p, EmptyTable()))])
  }

  /** *pte = e */
  function SetEntry(sp: Space, v: nat, e: Entry): Space
    requires Shaped(sp) && v < TOP && sp.dir[PDX(v)].Some?
  {
    var t := sp.dir[PDX(v)].value;
    Space(sp.page, sp.dir[PDX(v) := Some(Table(t.page, t.pte[PTX(v) := e]))])
  }

  lemma {:induction false} AddTableEffect(sp: Space, i: nat, p: nat)
    requires Shaped(sp) && i < NPDENTRIES && sp.dir[i].None?
    ensures Changed(sp, AddTable(sp, i, p), Tab(i)) && Ref(AddTable(sp, i, p), Tab(i)) == Some(p)
    ensures forall v: nat :: v < TOP ==> EntryAt(AddTable(sp, i, p), v) == EntryAt(sp, v)
  {
    var sp' := AddTable(sp, i, p);
    forall v: nat | v < TOP ensures EntryAt(sp', v) == EntryAt(sp, v) {}
    forall s: Slot | s.Valid() && s != Tab(i) ensures Ref(sp', s) == Ref(sp, s) {
      if s.User? {
        assert EntryAt(sp', s.v) == EntryAt(sp, s.v);
      }
    }
  }

  lemma {:induction false} SetEntryAt(sp: Space, v: nat, e: Entry, w: nat)
    requires Shaped(sp) && v < TOP && sp.dir[PDX(v)].Some? && w < TOP
    ensures Shaped(SetEntry(sp, v, e))
    ensures EntryAt(SetEntry(sp, v, e), w) == if w == v then e else EntryAt(sp, w)
  {
    assert w == v <==> PDX(w) == PDX(v) && PTX(w) == PTX(v);
  }

  lemma {:induction false} SetEntryEffect(sp: Space, v: nat, e: Entry)
    requires Shaped(sp) && v < TOP && sp.dir[PDX(v)].Some?
    ensures Shaped(SetEntry(sp, v, e))
    ensures forall w: nat :: w < TOP ==> EntryAt(SetEntry(sp, v, e), w) == if w == v then e else EntryAt(sp, w)
    ensures forall s: Slot :: s.Valid() && s != User(v) ==> Ref(SetEntry(sp, v, e), s) == Ref(sp, s)
  {
    var sp' := SetEntry(sp, v, e);
    SetEntryAt(sp, v, e, v);
    forall w: nat | w < TOP ensures EntryAt(sp', w) == if w == v then e else EntryAt(sp, w) {
      SetEntryAt(sp, v, e, w);
    }
    forall s: Slot | s.Valid() && s != User(v) ensures Ref(sp', s) == Ref(sp, s) {
      if s.User? {
        SetEntryAt(sp, v, e, s.v);
      }
    }
  }
}
