/** bfree and itrunc (fs.c): truncation frees exactly the inode's own blocks. */
module Truncate {
  import opened Blocks
  import opened FsLayout
  import opened FileSystem

  /** Block x is named by a slot of the locked inode. */
  ghost predicate Mine(fs: Fs, x: nat)
    requires Shaped(fs)
  {
    x != 0 && exists s: Slot :: s.Valid(fs.g) && s.i == fs.inum && Ref(fs, s) == x
  }

  /** Bytes of the other files. */
  ghost predicate OtherBytes(fs: Fs, fs': Fs) {
    && Shaped(fs) && Shaped(fs') && fs'.g == fs.g && fs'.inum == fs.inum
    && forall i: nat, o: nat :: i < fs.g.ninodes && i != fs.inum && o < MAXFILE * BSIZE ==>
           FileByte(fs', i, o) == FileByte(fs, i, o)
  }

  /** Some slots of the locked inode now name nothing, and exactly the blocks they named are free. */
  ghost predicate Freed(fs: Fs, fs': Fs) {
    && Shaped(fs) && Shaped(fs') && fs'.g == fs.g && fs'.inum == fs.inum && SameInodes(fs, fs') && OtherBytes(fs, fs')
    && (forall s: Slot :: s.Valid(fs.g) ==> Ref(fs', s) == Ref(fs, s) || (s.i == fs.inum && Ref(fs', s) == 0))
    && (forall x: nat :: x < fs.g.size ==>
          (Used(fs', x) <==> Used(fs, x) && !exists s: Slot :: s.Valid(fs.g) && Ref(fs, s) == x != Ref(fs', s)))
  }

  lemma {:induction false} FreedOwned(fs: Fs, fs': Fs)
    requires Owned(fs) && Freed(fs, fs')
    ensures Owned(fs')
  {
    forall b | 0 <= b < fs.g.datastart ensures Used(fs', b) {
      assert Used(fs, b);
      forall s: Slot | s.Valid(fs.g) ensures !(Ref(fs, s) == b != Ref(fs', s)) {
        assert RefOk(fs, s);
      }
    }
    forall s: Slot | s.Valid(fs.g) ensures RefOk(fs', s) {
      assert RefOk(fs, s);
      if Ref(fs', s) != 0 {
        forall t: Slot | t.Valid(fs.g) ensures !(Ref(fs, t) == Ref(fs, s) != Ref(fs', t)) {
          assert t != s ==> Ref(fs, s) != Ref(fs, t);
        }
      }
    }
  }

  lemma {:induction false} FreedTrans(a: Fs, b: Fs, c: Fs)
    requires Owned(a) && Freed(a, b) && Freed(b, c)
    ensures Freed(a, c)
  {
    forall x: nat | x < a.g.size ensures
      Used(c, x) <==> Used(a, x) && !exists s: Slot :: s.Valid(a.g) && Ref(a, s) == x != Ref(c, s)
    {
      if exists s: Slot :: s.Valid(a.g) && Ref(a, s) == x != Ref(c, s) {
        var s: Slot :| s.Valid(a.g) && Ref(a, s) == x != Ref(c, s);
        assert Ref(b, s) == Ref(a, s) || Ref(b, s) == 0;
        if Ref(b, s) == x {
          assert !Used(c, x);
        } else {
          assert !Used(b, x);
        }
      } else {
        forall s: Slot | s.Valid(a.g) ensures !(Ref(a, s) == x != Ref(b, s)) && !(Ref(b, s) == x != Ref(c, s)) {
          assert !(Ref(a, s) == x != Ref(c, s));
        }
      }
    }
  }

  /** bfree(addrs[k]); addrs[k] = 0 for a direct block. */
  lemma {:induction false} FreeDirect(fs: Fs, k: nat)
    requires Owned(fs) && k < NDIRECT && fs.ip.addrs[k] != 0
    ensures fs.ip.addrs[k] < fs.g.size && Used(fs, fs.ip.addrs[k])
    ensures Freed(fs, SetAddr(SetUsed(fs, fs.ip.addrs[k], false), k, 0))
  {
    var a, slot := fs.ip.addrs[k], Direct(fs.inum, k);
    assert a == Ref(fs, slot) && RefOk(fs, slot);
    var fs1 := SetUsed(fs, a, false);
    SetUsedEffect(fs, a, false);
    var fs' := SetAddr(fs1, k, 0);
    forall s: Slot | s.Valid(fs.g) ensures Ref(fs', s) == if s == slot then 0 else Ref(fs, s) {
      assert Ref(fs1, s) == Ref(fs, s);
    }
    forall x: nat | x < fs.g.size ensures
      Used(fs', x) <==> Used(fs, x) && !exists s: Slot :: s.Valid(fs.g) && Ref(fs, s) == x != Ref(fs', s)
    {
      assert Used(fs', x) == Used(fs1, x);
      assert Ref(fs, slot) == a != Ref(fs', slot);
    }
    forall i: nat, o: nat | i < fs.g.ninodes && i != fs.inum && o < MAXFILE * BSIZE
      ensures FileByte(fs', i, o) == FileByte(fs, i, o)
    {
      assert FileByte(fs1, i, o) == FileByte(fs, i, o);
      assert Ref(fs', DataSlot(i, o / BSIZE)) == Ref(fs1, DataSlot(i, o / BSIZE));
    }
  }

  /** itrunc's loop over the entries of the indirect block has freed the first j of them: only bits of
      the free map changed. */
  ghost predicate EntriesFreed(fs: Fs, fs': Fs, j: nat) {
    && Shaped(fs) && j <= NINDIRECT && fs' == Fs(fs.g, fs'.blocks, fs.inum, fs.ip) && Shaped(fs')
    && (forall x: nat :: x < fs.g.size && !InMap(fs.g, x) ==> fs'.blocks[x] == fs.blocks[x])
    && (forall x: nat :: x < fs.g.size ==>
          (Used(fs', x) <==> Used(fs, x) && !exists t: nat :: t < j && Ref(fs, Entry(fs.inum, t)) == x && x != 0))
  }

  /** One more entry: bfree finds its bit set ("freeing free block" cannot happen). */
  lemma {:induction false} FreeEntry(fs: Fs, fs': Fs, j: nat)
    requires Owned(fs) && EntriesFreed(fs, fs', j) && j < NINDIRECT
    ensures var e := Ref(fs, Entry(fs.inum, j));
            && (e == 0 ==> EntriesFreed(fs, fs', j + 1))
            && (e != 0 ==> e < fs.g.size && Used(fs', e) && EntriesFreed(fs, SetUsed(fs', e, false), j + 1))
  {
    var e := Ref(fs, Entry(fs.inum, j));
    assert RefOk(fs, Entry(fs.inum, j));
    if e != 0 {
      forall t: nat | t < j ensures Ref(fs, Entry(fs.inum, t)) != e {
        assert Entry(fs.inum, t) != Entry(fs.inum, j);
      }
      var fs2 := SetUsed(fs', e, false);
      assert InMap(fs.g, fs.g.BBlock(e));
      forall x: nat | x < fs.g.size ensures
        Used(fs2, x) <==> Used(fs, x) && !exists t: nat :: t < j + 1 && Ref(fs, Entry(fs.inum, t)) == x && x != 0
      {
        UsedAfter(fs', e, false, x);
        MoreEntries(fs, j, x);
      }
    } else {
      forall x: nat | x < fs.g.size ensures
        Used(fs', x) <==> Used(fs, x) && !exists t: nat :: t < j + 1 && Ref(fs, Entry(fs.inum, t)) == x && x != 0
      {
        MoreEntries(fs, j, x);
      }
    }
  }

  lemma {:induction false} MoreEntries(fs: Fs, j: nat, x: nat)
    requires Shaped(fs) && j < NINDIRECT
    ensures (exists t: nat :: t < j + 1 && Ref(fs, Entry(fs.inum, t)) == x && x != 0) <==>
            (exists t: nat :: t < j && Ref(fs, Entry(fs.inum, t)) == x
              && x != 0) || (Ref(fs, Entry(fs.inum, j)) == x && x != 0)
  {
    if t: nat :| t < j + 1 && Ref(fs, Entry(fs.inum, t)) == x && x != 0 {
      assert t < j || t == j;
    }
    if Ref(fs, Entry(fs.inum, j)) == x && x != 0 {
      assert j < j + 1;
    }
  }

  /** All entries and then the indirect block itself. */
  lemma {:induction false} FreeIndirect(fs: Fs, fs1: Fs)
    requires Owned(fs) && fs.ip.addrs[NDIRECT] != 0 && EntriesFreed(fs, fs1, NINDIRECT)
    ensures fs.ip.addrs[NDIRECT] < fs.g.size && Used(fs1, fs.ip.addrs[NDIRECT])
    ensures Freed(fs, SetAddr(SetUsed(fs1, fs.ip.addrs[NDIRECT], false), NDIRECT, 0))
  {
    var a, slot := fs.ip.addrs[NDIRECT], Indirect(fs.inum);
    assert a == Ref(fs, slot) && RefOk(fs, slot);
    forall t: nat | t < NINDIRECT ensures Ref(fs, Entry(fs.inum, t)) != a {
      assert Entry(fs.inum, t) != slot;
    }
    var fs2 := SetUsed(fs1, a, false);
    assert InMap(fs.g, fs.g.BBlock(a));
    MapOnly(fs, fs2);
    var fs' := SetAddr(fs2, NDIRECT, 0);
    forall s: Slot | s.Valid(fs.g) ensures
      Ref(fs', s) == if s == slot || (s.Entry? && s.i == fs.inum) then 0 else Ref(fs, s)
    {
      assert Ref(fs2, s) == Ref(fs, s);
    }
    forall x: nat | x < fs.g.size ensures
      Used(fs', x) <==> Used(fs, x) && !exists s: Slot :: s.Valid(fs.g) && Ref(fs, s) == x != Ref(fs', s)
    {
      UsedAfter(fs1, a, false, x);
      assert Used(fs', x) == Used(fs2, x);
      WhichFreed(fs, fs', x);
    }
    forall i: nat, o: nat | i < fs.g.ninodes && i != fs.inum && o < MAXFILE * BSIZE
      ensures FileByte(fs', i, o) == FileByte(fs, i, o)
    {
      assert FileByte(fs2, i, o) == FileByte(fs, i, o);
      assert Ref(fs', DataSlot(i, o / BSIZE)) == Ref(fs2, DataSlot(i, o / BSIZE));
    }
  }

  lemma {:induction false} WhichFreed(fs: Fs, fs': Fs, x: nat)
    requires Shaped(fs) && Shaped(fs') && fs'.g == fs.g
    requires forall s: Slot :: s.Valid(fs.g) ==>
               Ref(fs', s) == if s == Indirect(fs.inum) || (s.Entry? && s.i == fs.inum) then 0 else Ref(fs, s)
    ensures (exists s: Slot :: s.Valid(fs.g) && Ref(fs, s) == x != Ref(fs', s)) <==>
            x != 0 && (Ref(fs, Indirect(fs.inum)) == x || exists t: nat ::
                t < NINDIRECT && Ref(fs, Entry(fs.inum, t)) == x && x != 0)
  {
    if s: Slot :| s.Valid(fs.g) && Ref(fs, s) == x != Ref(fs', s) {
      assert s == Indirect(fs.inum) || s == Entry(fs.inum, s.k);
    }
    if x != 0 && Ref(fs, Indirect(fs.inum)) == x {
      assert Ref(fs', Indirect(fs.inum)) == 0;
    }
    if t: nat :| t < NINDIRECT && Ref(fs, Entry(fs.inum, t)) == x && x != 0 {
      assert Ref(fs', Entry(fs.inum, t)) == 0;
    }
  }

  /** What itrunc leaves: an empty file, exactly the inode's own blocks free, nothing else changed. */
  ghost predicate Truncated(fs: Fs, fs': Fs) {
    && Shaped(fs) && Shaped(fs') && Settled(fs') && OtherBytes(fs, fs') && OthersSame(fs, fs')
    && fs'.ip.size == 0 && fs'.ip.kind == fs.ip.kind && fs'.ip.links == fs.ip.links
    && (forall s: Slot :: s.Valid(fs.g) && s.i == fs.inum ==> Ref(fs', s) == 0)
    && (forall x: nat :: x < fs.g.size ==> (Used(fs', x) <==> Used(fs, x) && !Mine(fs, x)))
  }

  lemma {:induction false} ExactlyMine(fs: Fs, fs': Fs, x: nat)
    requires Owned(fs) && Freed(fs, fs') && x < fs.g.size
    requires forall k :: 0 <= k <= NDIRECT ==> fs'.ip.addrs[k] == 0
    ensures Used(fs', x) <==> Used(fs, x) && !Mine(fs, x)
    ensures forall s: Slot :: s.Valid(fs.g) && s.i == fs.inum ==> Ref(fs', s) == 0
  {
    if Mine(fs, x) {
      var s: Slot :| s.Valid(fs.g) && s.i == fs.inum && Ref(fs, s) == x;
      assert Ref(fs, s) == x != Ref(fs', s);
    } else {
      forall s: Slot | s.Valid(fs.g) ensures !(Ref(fs, s) == x != Ref(fs', s)) {
        assert s.i == fs.inum ==> Ref(fs, s) != x || x == 0;
      }
    }
  }

  lemma {:induction false} FinishTruncate(fs: Fs, fs1: Fs, fs2: Fs)
    requires Owned(fs) && Freed(fs, fs1) && Owned(fs1)
    requires fs1.ip == Inode(fs.ip.kind, fs.ip.links, fs.ip.size, fs1.ip.addrs)
    requires forall k :: 0 <= k <= NDIRECT ==> fs1.ip.addrs[k] == 0
    requires fs2 == Fs(fs1.g, fs1.blocks, fs1.inum, Inode(fs1.ip.kind, fs1.ip.links, 0, fs1.ip.addrs))
    ensures Truncated(fs, Updated(fs2))
  {
    SizeOnly(fs1, fs2);
    UpdatedEffect(fs2);
    var fs' := Updated(fs2);
    assert Used(fs, 0);
    ExactlyMine(fs, fs1, 0);
    forall s: Slot | s.Valid(fs.g) && s.i == fs.inum ensures Ref(fs', s) == 0 {}
    forall x: nat | x < fs.g.size ensures Used(fs', x) <==> Used(fs, x) && !Mine(fs, x) {
      ExactlyMine(fs, fs1, x);
      assert Used(fs2, x) == Used(fs1, x);
    }
    assert OtherBytes(fs, fs') by {
      SameBytesTrans(fs1, fs2, fs');
    }
  }

  /** bfree; false is the panic "freeing free block". */
  method Bfree(f: FileSys, b: nat) returns (ok: bool)
    requires Shaped(f.Abs()) && b < f.g.size
    modifies f`blocks, f`logged
    ensures ok <==> Used(old(f.Abs()), b)
    ensures ok ==> f.Abs() == SetUsed(old(f.Abs()), b, false) && f.logged == old(f.logged) + {f.g.BBlock(b)}
    ensures !ok ==> f.Abs() == old(f.Abs())
    ensures Logs(f.g, old(f.blocks), old(f.logged), f.blocks, f.logged)
  {
    var bb := f.g.BBlock(b);
    if !Bit(f.blocks[bb], b % BPB) {
      return false;
    }
    f.LogWrite(bb, PutBit(f.blocks[bb], b % BPB, false));
    return true;
  }

  /** The loop over the direct addresses. */
  method FreeDirects(f: FileSys)
    requires Owned(f.Abs())
    modifies f`blocks, f`ip, f`logged
    ensures Freed(old(f.Abs()), f.Abs()) && Owned(f.Abs())
    ensures f.ip == Inode(old(f.ip).kind, old(f.ip).links, old(f.ip).size, f.ip.addrs)
    ensures f.ip.addrs[NDIRECT] == old(f.ip.addrs[NDIRECT]) && forall k :: 0 <= k < NDIRECT ==> f.ip.addrs[k] == 0
    ensures Logs(f.g, old(f.blocks), old(f.logged), f.blocks, f.logged)
  {
    ghost var fs0 := f.Abs();
    var i := 0;
    while i < NDIRECT
      invariant 0 <= i <= NDIRECT && Freed(fs0, f.Abs()) && Owned(f.Abs())
      invariant f.ip == Inode(fs0.ip.kind, fs0.ip.links, fs0.ip.size, f.ip.addrs)
      invariant Logs(f.g, fs0.blocks, old(f.logged), f.blocks, f.logged)
      invariant f.ip.addrs[NDIRECT] == fs0.ip.addrs[NDIRECT] && forall k :: 0 <= k < i ==> f.ip.addrs[k] == 0
    {
      if f.ip.addrs[i] != 0 {
        ghost var fs := f.Abs();
        FreeDirect(fs, i);
        var ok := Bfree(f, f.ip.addrs[i]);
        assert ok;
        f.ip := Inode(f.ip.kind, f.ip.links, f.ip.size, f.ip.addrs[i := 0]);
        FreedOwned(fs, f.Abs());
        FreedTrans(fs0, fs, f.Abs());
      }
      i := i + 1;
    }
  }

  /** The part of itrunc that frees the indirect block and all it lists. */
  method FreeIndirects(f: FileSys)
    requires Owned(f.Abs()) && f.ip.addrs[NDIRECT] != 0
    modifies f`blocks, f`ip, f`logged
    ensures Freed(old(f.Abs()), f.Abs())
    ensures f.ip == Inode(old(f.ip).kind, old(f.ip).links, old(f.ip).size, old(f.ip).addrs[NDIRECT := 0])
    ensures Logs(f.g, old(f.blocks), old(f.logged), f.blocks, f.logged)
  {
    ghost var fs := f.Abs();
    var addr := f.ip.addrs[NDIRECT];
    assert RefOk(fs, Indirect(f.inum));
    var a := f.blocks[addr];
    var j := 0;
    while j < NINDIRECT
      modifies f`blocks, f`logged
      invariant 0 <= j <= NINDIRECT && EntriesFreed(fs, f.Abs(), j)
      invariant Logs(f.g, fs.blocks, old(f.logged), f.blocks, f.logged)
    {
      FreeEntry(fs, f.Abs(), j);
      assert Word(a, j) == Ref(fs, Entry(f.inum, j));
      if Word(a, j) != 0 {
        var ok := Bfree(f, Word(a, j));
        assert ok;
      }
      j := j + 1;
    }
    FreeIndirect(fs, f.Abs());
    var ok := Bfree(f, addr);
    assert ok;
    f.ip := Inode(f.ip.kind, f.ip.links, f.ip.size, f.ip.addrs[NDIRECT := 0]);
  }

  /** itrunc: no bfree in it panics, and it frees exactly the inode's blocks. */
  method Itrunc(f: FileSys)
    requires Owned(f.Abs())
    modifies f`blocks, f`ip, f`logged
    ensures Truncated(old(f.Abs()), f.Abs())
    ensures Logs(f.g, old(f.blocks), old(f.logged), f.blocks, f.logged)
  {
    ghost var fs0 := f.Abs();
    FreeDirects(f);
    if f.ip.addrs[NDIRECT] != 0 {
      ghost var fs := f.Abs();
      FreeIndirects(f);
      FreedOwned(fs, f.Abs());
      FreedTrans(fs0, fs, f.Abs());
    }
    ghost var fs1 := f.Abs();
    f.ip := Inode(f.ip.kind, f.ip.links, 0, f.ip.addrs);
    FinishTruncate(fs0, fs1, f.Abs());
    SizeOnly(fs1, f.Abs());
    f.Iupdate();
  }
}
