/** Block allocation, block mapping, and reading and writing of inodes (fs.c). Block contents are those
    that bread returns; `logged` collects the blocks passed to log_write since the operation began. */
module FileSystem {
  import opened Blocks
  import opened FsLayout

  /** The source's overflow test, off + n < off. */
  lemma {:induction false} Wraps(a: Uint, b: Uint)
    ensures AddUint(a, b) < a <==> a + b >= 0x1_0000_0000
    ensures a + b < 0x1_0000_0000 ==> AddUint(a, b) == a + b
  {
  }

  /** min(n - tot, BSIZE - off % BSIZE): what one round of readi or writei moves. */
  function Chunk(o: nat, rest: nat): (m: nat)
    requires 0 < rest
    ensures 0 < m <= rest && m <= BSIZE - o % BSIZE
    ensures m == rest || (o + m) % BSIZE == 0
    ensures (o + m - 1) / BSIZE == o / BSIZE
  {
    if rest < BSIZE - o % BSIZE then rest else BSIZE - o % BSIZE
  }

  // ---------- shape of a file ----------

  /** Block n is there exactly when it starts before byte `end`, and so is the indirect block. */
  ghost predicate NoHoles(fs: Fs, i: nat, end: nat)
    requires Shaped(fs) && i < fs.g.ninodes
  {
    && end <= MAXFILE * BSIZE
    && (forall n: nat :: n < MAXFILE ==> (Ref(fs, DataSlot(i, n)) != 0 <==> n * BSIZE < end))
    && (Ref(fs, Indirect(i)) != 0 <==> NDIRECT * BSIZE < end)
  }

  /** bmap found or made block n of the locked inode's file, as block a. */
  ghost predicate Mapped(fs: Fs, fs': Fs, n: nat, a: nat) {
    && Shaped(fs) && Shaped(fs') && n < MAXFILE && fs'.g == fs.g && fs'.inum == fs.inum
    && fs'.ip == Inode(fs.ip.kind, fs.ip.links, fs.ip.size, fs'.ip.addrs)
    && a == Ref(fs', DataSlot(fs.inum, n)) && a != 0
    && Owned(fs') && SameBytes(fs, fs') && SameInodes(fs, fs')
    && (forall s: Slot :: s.Valid(fs.g) && s != DataSlot(fs.inum, n) && s != Indirect(fs.inum) ==>
           Ref(fs', s) == Ref(fs, s))
    && (Ref(fs', Indirect(fs.inum)) == Ref(fs, Indirect(fs.inum)) || (Ref(fs, Indirect(fs.inum)) == 0 && NDIRECT <= n))
    && (NDIRECT <= n ==> Ref(fs', Indirect(fs.inum)) != 0)
    && (Ref(fs, DataSlot(fs.inum, n)) != 0 ==> fs' == fs)
  }

  /** The blocks that bmap has to allocate for block n: the block, and the indirect block it needs. */
  function Absent(fs: Fs, n: nat): nat
    requires Shaped(fs) && n < MAXFILE
  {
    (if Ref(fs, DataSlot(fs.inum, n)) == 0 then 1 else 0)
    + if NDIRECT <= n && fs.ip.addrs[NDIRECT] == 0 then 1 else 0
  }

  /** The blocks bmap may have logged: the new block and its bitmap block; for an indirect entry also
      the indirect block, and its bitmap block when it is new too. */
  function Extra(fs: Fs): set<nat>
    requires Shaped(fs)
  {
    var ind := fs.ip.addrs[NDIRECT];
    if ind == 0 then {} else {ind, fs.g.BBlock(ind)}
  }

  lemma {:induction false} MapDirect(fs: Fs, k: nat, b: nat)
    requires Owned(fs) && k < NDIRECT && fs.ip.addrs[k] == 0 && b < fs.g.size && !Used(fs, b)
    ensures Mapped(fs, SetAddr(Allocated(fs, b), k, b), k, b) && Claimed(fs, SetAddr(Allocated(fs, b), k, b), 1)
  {
    AllocatedEffect(fs, b);
    var fs1 := Allocated(fs, b);
    LinkAddr(fs1, k, b);
    SameBytesTrans(fs, fs1, SetAddr(fs1, k, b));
    ClaimedLinked(fs, fs1, SetAddr(fs1, k, b), Direct(fs.inum, k), b);
  }

  lemma {:induction false} SameBytesTrans(a: Fs, b: Fs, c: Fs)
    requires SameBytes(a, b) && SameBytes(b, c)
    ensures SameBytes(a, c)
  {
  }

  /** The indirect block has just been allocated and linked; it has no entries. */
  ghost predicate NewIndirect(fs: Fs, fs': Fs) {
    && Owned(fs') && SameBytes(fs, fs') && SameInodes(fs, fs') && fs'.inum == fs.inum
    && fs'.ip == Inode(fs.ip.kind, fs.ip.links, fs.ip.size, fs'.ip.addrs)
    && Ref(fs, Indirect(fs.inum)) == 0 && Ref(fs', Indirect(fs.inum)) != 0
    && (forall s: Slot :: s.Valid(fs.g) && s != Indirect(fs.inum) ==> Ref(fs', s) == Ref(fs, s))
  }

  lemma {:induction false} MapIndirect(fs: Fs, b: nat)
    requires Owned(fs) && fs.ip.addrs[NDIRECT] == 0 && b < fs.g.size && !Used(fs, b)
    ensures NewIndirect(fs, SetAddr(Allocated(fs, b), NDIRECT, b))
    ensures Claimed(fs, SetAddr(Allocated(fs, b), NDIRECT, b), 1)
  {
    AllocatedEffect(fs, b);
    var fs1 := Allocated(fs, b);
    LinkAddr(fs1, NDIRECT, b);
    SameBytesTrans(fs, fs1, SetAddr(fs1, NDIRECT, b));
    ClaimedLinked(fs, fs1, SetAddr(fs1, NDIRECT, b), Indirect(fs.inum), b);
  }

  lemma {:induction false} MapEntry(fs: Fs, k: nat, b: nat)
    requires Owned(fs) && k < NINDIRECT && fs.ip.addrs[NDIRECT] != 0 && Ref(fs, Entry(fs.inum, k)) == 0
    requires b < fs.g.size && !Used(fs, b)
    ensures var fs1 := Allocated(fs, b);
            && fs1.ip.addrs[NDIRECT] < fs.g.size && Mapped(fs, SetEntry(fs1, k, b), NDIRECT + k, b)
            && Claimed(fs, SetEntry(fs1, k, b), 1)
  {
    AllocatedEffect(fs, b);
    var fs1 := Allocated(fs, b);
    LinkEntry(fs1, k, b);
    SameBytesTrans(fs, fs1, SetEntry(fs1, k, b));
    ClaimedLinked(fs, fs1, SetEntry(fs1, k, b), Entry(fs.inum, k), b);
  }

  lemma {:induction false} MappedTrans(fs: Fs, fs1: Fs, fs2: Fs, n: nat, a: nat)
    requires Owned(fs) && NewIndirect(fs, fs1) && Mapped(fs1, fs2, n, a) && NDIRECT <= n
    ensures Mapped(fs, fs2, n, a)
  {
    SameBytesTrans(fs, fs1, fs2);
    assert Ref(fs, DataSlot(fs.inum, n)) == 0;
  }

  /** An entry made in the indirect block, whether that block was there or is new. */
  lemma {:induction false} MapThrough(fs: Fs, fs1: Fs, k: nat, b: nat)
    requires Owned(fs) && Owned(fs1) && (fs1 == fs || NewIndirect(fs, fs1))
    requires k < NINDIRECT && fs1.ip.addrs[NDIRECT] != 0 && Ref(fs1, Entry(fs.inum, k)) == 0
    requires b < fs.g.size && !Used(fs1, b)
    ensures fs1.ip.addrs[NDIRECT] < fs.g.size && Mapped(fs, SetEntry(Allocated(fs1, b), k, b), NDIRECT + k, b)
    ensures Claimed(fs1, SetEntry(Allocated(fs1, b), k, b), 1)
  {
    MapEntry(fs1, k, b);
    if fs1 != fs {
      MappedTrans(fs, fs1, SetEntry(Allocated(fs1, b), k, b), NDIRECT + k, b);
    }
  }

  /** The content of file i, as far as its size. */
  function Content(fs: Fs, i: nat): (c: seq<Byte>)
    requires Shaped(fs) && i < fs.g.ninodes && Node(fs, i).size <= MAXFILE * BSIZE
    ensures |c| == Node(fs, i).size
  {
    Bytes(fs, i, Node(fs, i).size)
  }

  function Bytes(fs: Fs, i: nat, n: nat): (c: seq<Byte>)
    requires Shaped(fs) && i < fs.g.ninodes && n <= MAXFILE * BSIZE
    ensures |c| == n
  {
    if n == 0 then [] else Bytes(fs, i, n - 1) + [FileByte(fs, i, n - 1)]
  }

  lemma {:induction false} BytesAt(fs: Fs, i: nat, n: nat, o: nat)
    requires Shaped(fs) && i < fs.g.ninodes && o < n <= MAXFILE * BSIZE
    ensures Bytes(fs, i, n)[o] == FileByte(fs, i, o)
  {
    if o < n - 1 {
      BytesAt(fs, i, n - 1, o);
    }
  }

  lemma {:induction false} SliceConcat(c: seq<Byte>, a: nat, b: nat, d: nat)
    requires a <= b <= d <= |c|
    ensures c[a..b] + c[b..d] == c[a..d]
  {
  }

  /** A piece of one block is a piece of the file's content. */
  lemma {:induction false} ReadPiece(fs: Fs, o: nat, m: nat)
    requires Owned(fs) && fs.ip.size <= MAXFILE * BSIZE && o + m <= fs.ip.size && 0 < m <= BSIZE - o % BSIZE
    requires Ref(fs, DataSlot(fs.inum, o / BSIZE)) != 0
    ensures var a := Ref(fs, DataSlot(fs.inum, o / BSIZE));
            a < fs.g.size && fs.blocks[a][o % BSIZE..o % BSIZE + m] == Content(fs, fs.inum)[o..o + m]
  {
    var a, c := Ref(fs, DataSlot(fs.inum, o / BSIZE)), Content(fs, fs.inum);
    assert RefOk(fs, DataSlot(fs.inum, o / BSIZE));
    var p, q := fs.blocks[a][o % BSIZE..o % BSIZE + m], c[o..o + m];
    forall t | 0 <= t < m ensures p[t] == q[t] {
      assert (o + t) / BSIZE == o / BSIZE && (o + t) % BSIZE == o % BSIZE + t;
      BytesAt(fs, fs.inum, fs.ip.size, o + t);
    }
  }

  /** `src` replaces the bytes of the locked inode's file from `at` on; all other bytes of this and of
      every other file are unchanged. */
  ghost predicate Wrote(fs: Fs, fs': Fs, at: nat, src: seq<Byte>) {
    && Shaped(fs) && Shaped(fs') && fs'.g == fs.g && fs'.inum == fs.inum
    && forall i: nat, o: nat :: i < fs.g.ninodes && o < MAXFILE * BSIZE ==>
         FileByte(fs', i, o) == if i == fs.inum && at <= o < at + |src| then src[o - at] else FileByte(fs, i, o)
  }

  lemma {:induction false} WroteMore(fs: Fs, fs1: Fs, fs2: Fs, at: nat, a: seq<Byte>, b: seq<Byte>)
    requires Wrote(fs, fs1, at, a) && Wrote(fs1, fs2, at + |a|, b)
    ensures Wrote(fs, fs2, at, a + b)
  {
  }

  /** memmove of `src` into the block that holds bytes n * BSIZE to (n + 1) * BSIZE. */
  function Patch(d: Block, at: nat, src: seq<Byte>): Block
    requires at + |src| <= BSIZE
  {
    d[..at] + src + d[at + |src|..]
  }

  lemma {:induction false} PatchWrote(fs: Fs, n: nat, at: nat, src: seq<Byte>)
    requires Owned(fs) && n < MAXFILE && at + |src| <= BSIZE && Ref(fs, DataSlot(fs.inum, n)) != 0
    ensures var a := Ref(fs, DataSlot(fs.inum, n));
            && a < fs.g.size
            && var fs' := SetBlock(fs, a, Patch(fs.blocks[a], at, src));
            && Owned(fs') && SameRefs(fs, fs') && SameInodes(fs, fs') && Wrote(fs, fs', n * BSIZE + at, src)
  {
    var a := Ref(fs, DataSlot(fs.inum, n));
    assert RefOk(fs, DataSlot(fs.inum, n));
    var d := Patch(fs.blocks[a], at, src);
    WriteDataEffect(fs, n, d);
    var fs' := SetBlock(fs, a, d);
    forall i: nat, o: nat | i < fs.g.ninodes && o < MAXFILE * BSIZE ensures
      FileByte(fs', i, o) == if i == fs.inum && n * BSIZE + at <= o < n * BSIZE + at + |src|
                             then src[o - (n * BSIZE + at)] else FileByte(fs, i, o)
    {
      if i == fs.inum && o / BSIZE == n {
        assert o == n * BSIZE + o % BSIZE;
        assert FileByte(fs', i, o) == d[o % BSIZE] && FileByte(fs, i, o) == fs.blocks[a][o % BSIZE];
      }
    }
  }

  // ---------- one round of writei ----------

  /** Block n of the locked inode's file is there; only its slot and the indirect slot may be new. */
  ghost predicate Grew(fs: Fs, fs': Fs, n: nat) {
    && Shaped(fs) && Shaped(fs') && n < MAXFILE && fs'.g == fs.g && fs'.inum == fs.inum && SameInodes(fs, fs')
    && fs'.ip == Inode(fs.ip.kind, fs.ip.links, fs.ip.size, fs'.ip.addrs)
    && Ref(fs', DataSlot(fs.inum, n)) != 0
    && (forall s: Slot :: s.Valid(fs.g) && s != DataSlot(fs.inum, n) && s != Indirect(fs.inum) ==>
           Ref(fs', s) == Ref(fs, s))
    && (Ref(fs', Indirect(fs.inum)) == Ref(fs, Indirect(fs.inum)) || (Ref(fs, Indirect(fs.inum)) == 0 && NDIRECT <= n))
    && (NDIRECT <= n ==> Ref(fs', Indirect(fs.inum)) != 0)
    && (Ref(fs, DataSlot(fs.inum, n)) != 0 ==> fs'.ip == fs.ip)
  }

  /** bmap followed by the memmove and log_write. */
  lemma {:induction false} RoundEffect(fs: Fs, fs1: Fs, fs2: Fs, o: nat, a: nat, src: seq<Byte>)
    requires Owned(fs) && o / BSIZE < MAXFILE && Mapped(fs, fs1, o / BSIZE, a) && o % BSIZE + |src| <= BSIZE
    requires a < fs.g.size && fs2 == SetBlock(fs1, a, Patch(fs1.blocks[a], o % BSIZE, src))
    ensures Owned(fs2) && Wrote(fs, fs2, o, src) && Grew(fs, fs2, o / BSIZE)
  {
    assert o / BSIZE * BSIZE + o % BSIZE == o;
    RoundEffectAt(fs, fs1, fs2, o / BSIZE, o % BSIZE, o, a, src);
  }

  lemma {:induction false} RoundEffectAt(fs: Fs, fs1: Fs, fs2: Fs, n: nat, at: nat, o: nat, a: nat, src: seq<Byte>)
    requires Owned(fs) && n < MAXFILE && Mapped(fs, fs1, n, a) && at + |src| <= BSIZE && o == n * BSIZE + at
    requires a < fs.g.size && fs2 == SetBlock(fs1, a, Patch(fs1.blocks[a], at, src))
    ensures Owned(fs2) && Wrote(fs, fs2, o, src) && Grew(fs, fs2, n)
  {
    PatchWrote(fs1, n, at, src);
    WroteAfterMap(fs, fs1, fs2, o, src);
    GrewByMap(fs, fs1, fs2, n, a);
  }

  lemma {:induction false} WroteAfterMap(fs: Fs, fs1: Fs, fs2: Fs, o: nat, src: seq<Byte>)
    requires SameBytes(fs, fs1) && fs1.inum == fs.inum && Wrote(fs1, fs2, o, src)
    ensures Wrote(fs, fs2, o, src)
  {
  }

  lemma {:induction false} GrewByMap(fs: Fs, fs1: Fs, fs2: Fs, n: nat, a: nat)
    requires Mapped(fs, fs1, n, a) && SameRefs(fs1, fs2) && SameInodes(fs1, fs2) && fs2.inum == fs1.inum
             && fs2.ip == fs1.ip
    ensures Grew(fs, fs2, n)
  {
  }

  /** Writing at or before the end, block by block, leaves no hole. */
  lemma {:induction false} NoHolesGrow(fs: Fs, fs': Fs, end: nat, o: nat, m: nat)
    requires Shaped(fs) && NoHoles(fs, fs.inum, end) && o <= end && 0 < m <= BSIZE - o % BSIZE
             && o + m <= MAXFILE * BSIZE
    requires Grew(fs, fs', o / BSIZE)
    ensures NoHoles(fs', fs.inum, if end < o + m then o + m else end)
  {
    var n, end' := o / BSIZE, if end < o + m then o + m else end;
    forall k: nat | k < MAXFILE ensures Ref(fs', DataSlot(fs.inum, k)) != 0 <==> k * BSIZE < end' {
      if k != n {
        assert DataSlot(fs.inum, k).Valid(fs.g) && DataSlot(fs.inum, k) != DataSlot(fs.inum, n);
      }
    }
  }

  /** What the rounds of writei have done after `tot` bytes. */
  ghost predicate Writing(fs0: Fs, fs: Fs, off: nat, src: seq<Byte>, tot: nat) {
    && tot <= |src| && Owned(fs) && Wrote(fs0, fs, off, src[..tot]) && SameInodes(fs0, fs)
    && fs.ip == Inode(fs0.ip.kind, fs0.ip.links, fs0.ip.size, fs.ip.addrs)
    && NoHoles(fs, fs.inum, Max(fs0.ip.size, off + tot))
    && (off + tot <= fs0.ip.size ==> fs.ip == fs0.ip)
    && (forall s: Slot :: s.Valid(fs.g) && s.i != fs.inum ==> Ref(fs, s) == Ref(fs0, s))
  }

  function Max(a: nat, b: nat): nat {
    if a < b then b else a
  }

  lemma {:induction false} WritingStart(fs: Fs, off: nat, src: seq<Byte>)
    requires Owned(fs) && NoHoles(fs, fs.inum, fs.ip.size) && off <= fs.ip.size
    ensures Writing(fs, fs, off, src, 0)
  {
    assert src[..0] == [];
  }

  lemma {:induction false} WritingRound(fs0: Fs, fs: Fs, fs': Fs, off: nat, src: seq<Byte>, tot: nat, m: nat, o: nat,
                                        piece: seq<Byte>)
    requires Shaped(fs0) && off <= fs0.ip.size && Writing(fs0, fs, off, src, tot) && o == off + tot
    requires tot + m <= |src| && off + |src| <= MAXFILE * BSIZE && piece == src[tot..tot + m]
    requires 0 < m <= BSIZE - o % BSIZE
    requires Owned(fs') && Grew(fs, fs', o / BSIZE) && Wrote(fs, fs', o, piece)
    ensures Writing(fs0, fs', off, src, tot + m)
  {
    assert src[..tot + m] == src[..tot] + piece;
    WroteMore(fs0, fs, fs', off, src[..tot], piece);
    NoHolesGrow(fs, fs', Max(fs0.ip.size, o), o, m);
    if o + m <= fs0.ip.size {
      Present(fs, Max(fs0.ip.size, o), o);
    }
  }

  /** With no holes up to the end, the block of a byte before the end is there. */
  lemma {:induction false} Present(fs: Fs, end: nat, o: nat)
    requires Shaped(fs) && NoHoles(fs, fs.inum, end) && (o < end || (o == end && o % BSIZE != 0))
    ensures o / BSIZE < MAXFILE && Ref(fs, DataSlot(fs.inum, o / BSIZE)) != 0
  {
    assert o / BSIZE * BSIZE < end;
  }

  // ---------- how many blocks a write needs ----------

  /** The blocks of a file of this length without holes, with its indirect block. */
  function FileBlocks(end: nat): nat {
    (end + BSIZE - 1) / BSIZE + if end > NDIRECT * BSIZE then 1 else 0
  }

  lemma {:induction false} FileBlocksGrow(a: nat, b: nat)
    requires a <= b
    ensures FileBlocks(a) <= FileBlocks(b)
  {
  }

  /** What a write from off on needs beyond the blocks that a file of this size has. */
  function WriteNeeds(size: nat, off: nat, n: nat): int {
    FileBlocks(Max(size, off + n)) - FileBlocks(size)
  }

  /** The blocks bmap has to allocate for a round of writei are those by which the file grows. */
  lemma {:induction false} AbsentExact(fs: Fs, end: nat, o: nat, m: nat)
    requires Shaped(fs) && NoHoles(fs, fs.inum, end) && o <= end && 0 < m <= BSIZE - o % BSIZE
             && o + m <= MAXFILE * BSIZE
    ensures o / BSIZE < MAXFILE && Absent(fs, o / BSIZE) + FileBlocks(end) == FileBlocks(Max(end, o + m))
  {
    var n := o / BSIZE;
    assert n * BSIZE <= o < n * BSIZE + BSIZE && o + m <= n * BSIZE + BSIZE;
    assert Ref(fs, DataSlot(fs.inum, n)) != 0 <==> n * BSIZE < end;
    if n * BSIZE < end {
      assert end < o + m ==> (end + BSIZE - 1) / BSIZE == n + 1 == (o + m + BSIZE - 1) / BSIZE;
    } else {
      assert o == end == n * BSIZE;
      assert (end + BSIZE - 1) / BSIZE == n && (o + m + BSIZE - 1) / BSIZE == n + 1;
    }
  }

  /** The round from tot to t, in the same count. */
  lemma {:induction false} RoundNeeds(fs0: Fs, fs: Fs, off: nat, tot: nat, t: nat, n: nat)
    requires Shaped(fs0) && Shaped(fs) && off <= fs0.ip.size && tot < t <= n && off + n <= MAXFILE * BSIZE
    requires NoHoles(fs, fs.inum, Max(fs0.ip.size, off + tot)) && t - tot <= BSIZE - (off + tot) % BSIZE
    ensures (off + tot) / BSIZE < MAXFILE && 0 <= WriteNeeds(fs0.ip.size, off, tot)
    ensures Absent(fs, (off + tot) / BSIZE) + WriteNeeds(fs0.ip.size, off, tot) == WriteNeeds(fs0.ip.size, off, t)
    ensures WriteNeeds(fs0.ip.size, off, t) <= WriteNeeds(fs0.ip.size, off, n)
  {
    AbsentExact(fs, Max(fs0.ip.size, off + tot), off + tot, t - tot);
    FileBlocksGrow(fs0.ip.size, Max(fs0.ip.size, off + tot));
    FileBlocksGrow(Max(fs0.ip.size, off + t), Max(fs0.ip.size, off + n));
  }

  /** The blocks claimed so far are those that n bytes from off on need. */
  ghost predicate Claims(fs0: Fs, fs: Fs, off: nat, n: nat) {
    Shaped(fs0) && 0 <= WriteNeeds(fs0.ip.size, off, n) && Claimed(fs0, fs, WriteNeeds(fs0.ip.size, off, n))
  }

  lemma {:induction false} ClaimsStart(fs: Fs, off: nat)
    requires Shaped(fs) && off <= fs.ip.size
    ensures Claims(fs, fs, off, 0)
  {
    ClaimedSame(fs, fs);
  }

  lemma {:induction false} ClaimsMore(fs0: Fs, fs: Fs, fs': Fs, off: nat, tot: nat, t: nat, k: nat)
    requires Claims(fs0, fs, off, tot) && Claimed(fs, fs', k)
    requires k + WriteNeeds(fs0.ip.size, off, tot) == WriteNeeds(fs0.ip.size, off, t)
    ensures Claims(fs0, fs', off, t)
  {
    ClaimedTrans(fs0, fs, fs', WriteNeeds(fs0.ip.size, off, tot), k);
  }

  /** Writing into a data block of the file claims nothing. */
  lemma {:induction false} PatchClaims(fs: Fs, fs1: Fs, n: nat, a: nat, d: Block, k: nat)
    requires Claimed(fs, fs1, k) && Owned(fs1) && n < MAXFILE && a == Ref(fs1, DataSlot(fs1.inum, n)) != 0
    requires a < fs1.g.size
    ensures Claimed(fs, SetBlock(fs1, a, d), k)
  {
    WriteDataEffect(fs1, n, d);
    ClaimedSame(fs1, SetBlock(fs1, a, d));
    ClaimedTrans(fs, fs1, SetBlock(fs1, a, d), k, 0);
  }

  // ---------- how many blocks a write logs ----------

  /** Blocks that bytes off to off + n of a file lie in. */
  function Touched(off: nat, n: nat): nat {
    if n == 0 then 0 else (off + n - 1) / BSIZE - off / BSIZE + 1
  }

  /** Of those, the ones that can be new when the file has no holes: a block entered in its middle is
      already there. */
  function MaybeNew(off: nat, n: nat): nat {
    if n == 0 then 0 else if off % BSIZE == 0 then Touched(off, n) else Touched(off, n) - 1
  }

  lemma {:induction false} TouchedMore(off: nat, tot: nat, m: nat)
    requires 0 < m <= BSIZE - (off + tot) % BSIZE && (tot == 0 || (off + tot) % BSIZE == 0)
    ensures Touched(off, tot + m) == Touched(off, tot) + 1
    ensures tot > 0 || off % BSIZE == 0 ==> MaybeNew(off, tot + m) == MaybeNew(off, tot) + 1
    ensures MaybeNew(off, tot + m) >= MaybeNew(off, tot)
  {
  }

  lemma {:induction false} ChargeOne(x: set<nat>, x': set<nat>, a: nat)
    requires x' <= x + {a}
    ensures |x'| <= |x| + 1
  {
    SubsetSize(x', x + {a});
  }

  lemma {:induction false} ChargeTwo(x: set<nat>, x': set<nat>, a: nat, b: nat)
    requires x' <= x + {a, b}
    ensures |x'| <= |x| + 2
  {
    assert x + {a, b} == x + {a} + {b};
    SubsetSize(x', x + {a} + {b});
  }

  /** Everything a write logs, without the inode, fits the count. */
  ghost predicate Charged(fs: Fs, logged: set<nat>, off: nat, tot: nat)
    requires Shaped(fs)
  {
    |logged - Extra(fs)| <= Touched(off, tot) + MaybeNew(off, tot)
  }

  lemma {:induction false} ChargedRound(fs: Fs, fs': Fs, off: nat, tot: nat, m: nat, l: set<nat>, l': set<nat>,
                                        a: nat, present: bool)
    requires Shaped(fs) && Shaped(fs') && Charged(fs, l, off, tot) && Extra(fs) <= Extra(fs')
    requires (tot == 0 || (off + tot) % BSIZE == 0) && 0 < m <= BSIZE - (off + tot) % BSIZE
    requires l' <= l + {a, fs.g.BBlock(a)} + Extra(fs') && (present ==> l' <= l + {a})
    requires tot == 0 && off % BSIZE != 0 ==> present
    ensures Charged(fs', l', off, tot + m)
  {
    TouchedMore(off, tot, m);
    var x, x' := l - Extra(fs), l' - Extra(fs');
    if tot == 0 && off % BSIZE != 0 {
      ChargeOne(x, x', a);
    } else {
      ChargeTwo(x, x', a, fs.g.BBlock(a));
    }
  }

  lemma {:induction false} RoundCharged(fs0: Fs, fs: Fs, fs1: Fs, fs2: Fs, off: nat, src: seq<Byte>, tot: nat, m: nat,
                                        l: set<nat>, l1: set<nat>, a: nat)
    requires off <= fs0.ip.size && Writing(fs0, fs, off, src, tot) && Charged(fs, l, off, tot)
    requires (tot == 0 || (off + tot) % BSIZE == 0) && 0 < m <= BSIZE - (off + tot) % BSIZE
    requires (off + tot) / BSIZE < MAXFILE && Mapped(fs, fs1, (off + tot) / BSIZE, a)
    requires Shaped(fs2) && fs2.g == fs.g && fs2.ip == fs1.ip
    requires l1 <= l + {a, fs.g.BBlock(a)} + Extra(fs1) && (fs1 == fs ==> l1 == l)
    ensures Charged(fs2, l1 + {a}, off, tot + m)
  {
    if tot == 0 && off % BSIZE != 0 {
      Present(fs, Max(fs0.ip.size, off + tot), off);
    }
    assert Extra(fs2) == Extra(fs1) && Extra(fs) <= Extra(fs1);
    ChargedRound(fs, fs2, off, tot, m, l, l1 + {a}, a, fs1 == fs);
  }

  lemma {:induction false} RoundDone(fs0: Fs, fs: Fs, fs1: Fs, off: nat, src: seq<Byte>, tot: nat, m: nat,
                                     l: set<nat>, l1: set<nat>, a: nat)
    requires Shaped(fs0) && off <= fs0.ip.size && Writing(fs0, fs, off, src, tot) && Charged(fs, l, off, tot)
    requires tot + m <= |src| && off + |src| <= MAXFILE * BSIZE && (off + tot) / BSIZE < MAXFILE
    requires (tot == 0 || (off + tot) % BSIZE == 0) && 0 < m <= BSIZE - (off + tot) % BSIZE
    requires tot + m == |src| || (off + tot + m) % BSIZE == 0
    requires Mapped(fs, fs1, (off + tot) / BSIZE, a)
    requires l1 <= l + {a, fs.g.BBlock(a)} + Extra(fs1) && (fs1 == fs ==> l1 == l)
    ensures fs.g.datastart <= a < fs.g.size
    ensures InLoop(fs0, SetBlock(fs1, a, Patch(fs1.blocks[a], (off + tot) % BSIZE, src[tot..tot + m])), l1 + {a},
                   off, src, tot + m)
  {
    assert RefOk(fs1, DataSlot(fs.inum, (off + tot) / BSIZE));
    var fs2 := SetBlock(fs1, a, Patch(fs1.blocks[a], (off + tot) % BSIZE, src[tot..tot + m]));
    RoundWriting(fs0, fs, fs1, fs2, off, src, tot, m, a);
    RoundCharged(fs0, fs, fs1, fs2, off, src, tot, m, l, l1, a);
  }

  lemma {:induction false} RoundWriting(fs0: Fs, fs: Fs, fs1: Fs, fs2: Fs, off: nat, src: seq<Byte>, tot: nat, m: nat,
                                        a: nat)
    requires Shaped(fs0) && off <= fs0.ip.size && Writing(fs0, fs, off, src, tot)
    requires tot + m <= |src| && off + |src| <= MAXFILE * BSIZE && (off + tot) / BSIZE < MAXFILE
    requires 0 < m <= BSIZE - (off + tot) % BSIZE
    requires Mapped(fs, fs1, (off + tot) / BSIZE, a) && a < fs.g.size
    requires fs2 == SetBlock(fs1, a, Patch(fs1.blocks[a], (off + tot) % BSIZE, src[tot..tot + m]))
    ensures Writing(fs0, fs2, off, src, tot + m)
  {
    var piece := src[tot..tot + m];
    RoundEffect(fs, fs1, fs2, off + tot, a, piece);
    WritingRound(fs0, fs, fs2, off, src, tot, m, off + tot, piece);
  }

  ghost predicate InLoop(fs0: Fs, fs: Fs, logged: set<nat>, off: nat, src: seq<Byte>, tot: nat) {
    && Writing(fs0, fs, off, src, tot) && Charged(fs, logged, off, tot)
    && (tot == 0 || tot == |src| || (off + tot) % BSIZE == 0)
  }

  lemma {:induction false} MapIndex(g: Geometry, b: nat, bi: nat)
    requires b % BPB == 0 && bi < BPB
    ensures g.BBlock(b + bi) == g.BBlock(b) && (b + bi) % BPB == bi
  {
  }

  lemma {:induction false} AllUsed(fs: Fs)
    requires Shaped(fs) && forall x: nat :: x < fs.g.size ==> Used(fs, x)
    ensures FreeCount(fs) == 0
  {
    FreeNone(fs, fs.g.size);
  }

  lemma {:induction false} OneFree(fs: Fs, b: nat)
    requires Shaped(fs) && b < fs.g.size && !Used(fs, b)
    ensures FreeCount(fs) > 0
  {
    FreeNone(fs, fs.g.size);
  }

  // ---------- the whole of writei ----------

  datatype WriteResult = Done(n: nat) | Refused | OutOfBlocks

  /** The locked inode is consistent: its file has no holes and its disk copy is the cached copy. */
  ghost predicate Settled(fs: Fs) {
    Owned(fs) && NoHoles(fs, fs.inum, fs.ip.size) && DiskInode(fs, fs.inum) == fs.ip
  }

  /** Nothing about any other inode changed. */
  ghost predicate OthersSame(fs: Fs, fs': Fs) {
    && Shaped(fs) && Shaped(fs') && fs'.g == fs.g && fs'.inum == fs.inum
    && (forall i: nat :: i < fs.g.ninodes && i != fs.inum ==> DiskInode(fs', i) == DiskInode(fs, i))
    && (forall s: Slot :: s.Valid(fs.g) && s.i != fs.inum ==> Ref(fs', s) == Ref(fs, s))
  }

  /** writei's last step when the file did not grow: the inode never changed, so skipping iupdate is
      harmless. */
  lemma {:induction false} FinishInPlace(fs0: Fs, fs: Fs, off: nat, src: seq<Byte>)
    requires Settled(fs0) && Writing(fs0, fs, off, src, |src|) && (|src| == 0 || off + |src| <= fs0.ip.size)
    requires off <= fs0.ip.size
    ensures Settled(fs) && OthersSame(fs0, fs) && Wrote(fs0, fs, off, src) && fs.ip == fs0.ip
  {
    assert src[..|src|] == src;
  }

  /** writei's last step when it did: the size is stored and iupdate writes the inode through. */
  lemma {:induction false} FinishGrown(fs0: Fs, fs: Fs, fs1: Fs, off: nat, src: seq<Byte>)
    requires Settled(fs0) && Writing(fs0, fs, off, src, |src|) && fs0.ip.size < off + |src| < 0x1_0000_0000
    requires fs1 == Fs(fs.g, fs.blocks, fs.inum, Inode(fs.ip.kind, fs.ip.links, off + |src|, fs.ip.addrs))
    ensures Settled(Updated(fs1)) && OthersSame(fs0, Updated(fs1)) && Wrote(fs0, Updated(fs1), off, src)
  {
    assert src[..|src|] == src;
    SizeOnly(fs, fs1);
    UpdatedEffect(fs1);
    var fs2 := Updated(fs1);
    assert Wrote(fs0, fs2, off, src) by {
      SameBytesTrans(fs, fs1, fs2);
      assert Wrote(fs0, fs, off, src);
    }
    assert NoHoles(fs2, fs2.inum, off + |src|);
  }

  /** The size field alone changes no reference, bit or byte. */
  lemma {:induction false} SizeOnly(fs: Fs, fs1: Fs)
    requires Owned(fs) && fs1 == Fs(fs.g, fs.blocks, fs.inum, Inode(fs.ip.kind, fs.ip.links, fs1.ip.size, fs.ip.addrs))
    ensures Owned(fs1) && SameRefs(fs, fs1) && SameBytes(fs, fs1) && SameInodes(fs, fs1) && SameUsed(fs, fs1)
  {
    forall i: nat | i < fs.g.ninodes ensures DiskInode(fs1, i) == DiskInode(fs, i) {}
    forall s: Slot | s.Valid(fs.g) ensures Ref(fs1, s) == Ref(fs, s) {}
    forall x: nat | x < fs.g.size ensures Used(fs1, x) == Used(fs, x) {}
    OwnedSame(fs, fs1);
    forall i: nat, o: nat | i < fs.g.ninodes && o < MAXFILE * BSIZE ensures FileByte(fs1, i, o) == FileByte(fs, i, o) {
      assert Ref(fs1, DataSlot(i, o / BSIZE)) == Ref(fs, DataSlot(i, o / BSIZE));
    }
  }

  /** The new size and the iupdate claim nothing. */
  lemma {:induction false} GrownClaims(fs0: Fs, fs: Fs, fs1: Fs, k: nat)
    requires Owned(fs) && Claimed(fs0, fs, k)
    requires fs1 == Fs(fs.g, fs.blocks, fs.inum, Inode(fs.ip.kind, fs.ip.links, fs1.ip.size, fs.ip.addrs))
    ensures Owned(fs1) && Claimed(fs0, Updated(fs1), k)
  {
    SizeOnly(fs, fs1);
    UpdatedEffect(fs1);
    ClaimedSame(fs, fs1);
    ClaimedSame(fs1, Updated(fs1));
    ClaimedTrans(fs0, fs, fs1, k, 0);
    ClaimedTrans(fs0, fs1, Updated(fs1), k, 0);
  }

  /** |a| + ... for the final count: the indirect block, its bitmap block and the inode block on top. */
  lemma {:induction false} FinalCount(logged: set<nat>, extra: set<nat>, inode: nat, k: nat)
    requires |logged - extra| <= k && |extra| <= 2
    ensures |logged| <= k + 2 && |logged + {inode}| <= k + 3
  {
    SubsetSize(logged, (logged - extra) + extra);
    assert |(logged - extra) + extra| <= |logged - extra| + |extra|;
  }

  /** Every block that changed was passed to log_write, and none of them lies before the inodes. */
  ghost predicate Logs(g: Geometry, bs: seq<Block>, l: set<nat>, bs': seq<Block>, l': set<nat>) {
    && l <= l' && |bs'| == |bs|
    && (forall x :: x in l' ==> x in l || g.inodestart <= x < |bs|)
    && (forall x: nat :: x < |bs| && x !in l' ==> bs'[x] == bs[x])
  }

  lemma {:induction false} LogsTrans(g: Geometry, a: seq<Block>, l: set<nat>, b: seq<Block>, m: set<nat>,
                                     c: seq<Block>, n: set<nat>)
    requires Logs(g, a, l, b, m) && Logs(g, b, m, c, n)
    ensures Logs(g, a, l, c, n)
  {
  }

  class FileSys {
    const g: Geometry
    var blocks: seq<Block>
    var inum: nat // the inode the caller has locked, and its in-memory copy
    var ip: Inode
    ghost var logged: set<nat>

    constructor (g: Geometry, blocks: seq<Block>, inum: nat, ip: Inode)
      ensures Abs() == Fs(g, blocks, inum, ip) && logged == {}
    {
      this.g, this.blocks, this.inum, this.ip, logged := g, blocks, inum, ip, {};
    }

    ghost function Abs(): Fs
      reads this
    {
      Fs(g, blocks, inum, ip)
    }

    /** log_write of block b with new content d. */
    method LogWrite(b: nat, d: Block)
      requires g.inodestart <= b < |blocks|
      modifies this`blocks, this`logged
      ensures blocks == old(blocks)[b := d] && logged == old(logged) + {b}
      ensures Logs(g, old(blocks), old(logged), blocks, logged)
    {
      blocks := blocks[b := d];
      logged := logged + {b};
    }

    /** balloc: the first free block, marked and zeroed; None is the panic "out of blocks". */
    method Balloc() returns (r: Option<nat>)
      requires Owned(Abs())
      modifies this`blocks, this`logged
      ensures r.None? <==> FreeCount(old(Abs())) == 0
      ensures r.None? ==> Abs() == old(Abs())
      ensures r.Some? ==>
                && r.value < g.size && !Used(old(Abs()), r.value)
                && (forall x: nat :: x < r.value ==> Used(old(Abs()), x))
                && Abs() == Allocated(old(Abs()), r.value)
                && logged == old(logged) + {g.BBlock(r.value), r.value}
      ensures Logs(g, old(blocks), old(logged), blocks, logged)
    {
      r := FindFree();
      if r.None? {
        AllUsed(Abs());
      } else {
        OneFree(Abs(), r.value);
        TakeBlock(r.value);
      }
    }

    /** The search of balloc: bitmap block by bitmap block, bit by bit. */
    method FindFree() returns (r: Option<nat>)
      requires Owned(Abs())
      ensures r.None? ==> forall x: nat :: x < g.size ==> Used(Abs(), x)
      ensures r.Some? ==> r.value < g.size && !Used(Abs(), r.value) && forall x: nat :: x < r.value ==> Used(Abs(), x)
    {
      var b := 0;
      while b < g.size
        invariant 0 <= b && b % BPB == 0
        invariant forall x: nat :: x < b && x < g.size ==> Used(Abs(), x)
        decreases g.size - b
      {
        var bi, bb := 0, g.BBlock(b);
        while bi < BPB && b + bi < g.size
          invariant 0 <= bi <= BPB
          invariant forall x: nat :: x < b + bi && x < g.size ==> Used(Abs(), x)
        {
          MapIndex(g, b, bi);
          if !Bit(blocks[bb], bi) {
            return Some(b + bi);
          }
          bi := bi + 1;
        }
        b := b + BPB;
      }
      return None;
    }

    /** The marking and the bzero of balloc. */
    method TakeBlock(b: nat)
      requires Owned(Abs()) && b < g.size && !Used(Abs(), b)
      modifies this`blocks, this`logged
      ensures Abs() == Allocated(old(Abs()), b) && logged == old(logged) + {g.BBlock(b), b}
      ensures Logs(g, old(blocks), old(logged), blocks, logged)
    {
      var bb := g.BBlock(b);
      LogWrite(bb, PutBit(blocks[bb], b % BPB, true));
      LogWrite(b, ZeroBlock());
    }

    /** bmap: the disk block of block bn of the file, allocated if it was not there; None is a panic
        for want of blocks. */
    method Bmap(bn: nat) returns (r: Option<nat>)
      requires Owned(Abs()) && bn < MAXFILE
      modifies this`blocks, this`ip, this`logged
      ensures r.Some? ==> Mapped(old(Abs()), Abs(), bn, r.value)
      ensures r.Some? && Abs() == old(Abs()) ==> logged == old(logged)
      ensures r.Some? ==> logged <= old(logged) + {r.value, g.BBlock(r.value)} + Extra(Abs())
      ensures r.None? <==> FreeCount(old(Abs())) < Absent(old(Abs()), bn)
      ensures r.Some? ==> Claimed(old(Abs()), Abs(), Absent(old(Abs()), bn))
      ensures Logs(g, old(blocks), old(logged), blocks, logged)
    {
      if bn < NDIRECT {
        var addr := ip.addrs[bn];
        if addr == 0 {
          r := Balloc();
          if r.None? { return; }
          MapDirect(old(Abs()), bn, r.value);
          ip := Inode(ip.kind, ip.links, ip.size, ip.addrs[bn := r.value]);
          return;
        }
        ClaimedSame(Abs(), Abs());
        return Some(addr);
      }
      r := BmapIndirect(bn - NDIRECT);
    }

    /** The part of bmap that goes through the indirect block. */
    method BmapIndirect(bn: nat) returns (r: Option<nat>)
      requires Owned(Abs()) && bn < NINDIRECT
      modifies this`blocks, this`ip, this`logged
      ensures r.Some? ==> Mapped(old(Abs()), Abs(), NDIRECT + bn, r.value)
      ensures r.Some? && Abs() == old(Abs()) ==> logged == old(logged)
      ensures r.Some? ==> logged <= old(logged) + {r.value, g.BBlock(r.value)} + Extra(Abs())
      ensures r.None? <==> FreeCount(old(Abs())) < Absent(old(Abs()), NDIRECT + bn)
      ensures r.Some? ==> Claimed(old(Abs()), Abs(), Absent(old(Abs()), NDIRECT + bn))
      ensures Logs(g, old(blocks), old(logged), blocks, logged)
    {
      ghost var fs0 := Abs();
      var addr := LoadIndirect();
      if addr.None? { return None; }
      ghost var fs1 := Abs();
      var entry := Word(blocks[addr.value], bn);
      if entry != 0 {
        assert Ref(fs1, DataSlot(inum, NDIRECT + bn)) == entry;
        return Some(entry);
      }
      r := NewEntry(fs0, addr.value, bn);
      if r.Some? {
        ClaimedTrans(fs0, fs1, Abs(), if fs0.ip.addrs[NDIRECT] == 0 then 1 else 0, 1);
      }
    }

    /** A new block, entered in the indirect block. */
    method NewEntry(ghost fs0: Fs, addr: nat, bn: nat) returns (r: Option<nat>)
      requires Owned(fs0) && Owned(Abs()) && (Abs() == fs0 || NewIndirect(fs0, Abs()))
      requires bn < NINDIRECT && 0 != addr == ip.addrs[NDIRECT] && Ref(Abs(), Entry(inum, bn)) == 0
      modifies this`blocks, this`logged
      ensures r.Some? ==> Mapped(fs0, Abs(), NDIRECT + bn, r.value)
      ensures r.Some? ==> logged == old(logged) + {g.BBlock(r.value), r.value, addr}
      ensures r.None? <==> FreeCount(old(Abs())) == 0
      ensures r.Some? ==> Claimed(old(Abs()), Abs(), 1)
      ensures Logs(g, old(blocks), old(logged), blocks, logged)
    {
      ghost var fs1 := Abs();
      assert RefOk(fs1, Indirect(inum));
      r := Balloc();
      if r.None? { return; }
      MapThrough(fs0, fs1, bn, r.value);
      LogWrite(addr, PutWord(blocks[addr], bn, r.value));
    }

    /** Load the indirect block, allocating if necessary. */
    method LoadIndirect() returns (r: Option<nat>)
      requires Owned(Abs())
      modifies this`blocks, this`ip, this`logged
      ensures r.None? <==> old(ip.addrs[NDIRECT]) == 0 && FreeCount(old(Abs())) == 0
      ensures r.Some? ==> Claimed(old(Abs()), Abs(), if old(ip.addrs[NDIRECT]) == 0 then 1 else 0)
      ensures old(ip.addrs[NDIRECT]) != 0 ==> Abs() == old(Abs()) && logged == old(logged)
      ensures r.Some? ==> Owned(Abs()) && 0 != r.value == ip.addrs[NDIRECT] < g.size
      ensures r.Some? && old(ip.addrs[NDIRECT]) == 0 ==> NewIndirect(old(Abs()), Abs())
      ensures r.Some? ==> logged <= old(logged) + Extra(Abs())
      ensures Logs(g, old(blocks), old(logged), blocks, logged)
    {
      var addr := ip.addrs[NDIRECT];
      if addr == 0 {
        r := Balloc();
        if r.None? { return; }
        addr := r.value;
        MapIndirect(old(Abs()), addr);
        ip := Inode(ip.kind, ip.links, ip.size, ip.addrs[NDIRECT := addr]);
      } else {
        ClaimedSame(Abs(), Abs());
      }
      assert RefOk(Abs(), Indirect(inum));
      return Some(addr);
    }

    /** One round of readi's loop. */
    method ReadBlock(o: nat, m: nat) returns (piece: seq<Byte>)
      requires Owned(Abs()) && NoHoles(Abs(), inum, ip.size) && o + m <= ip.size && 0 < m <= BSIZE - o % BSIZE
      modifies this`blocks, this`ip, this`logged
      ensures Abs() == old(Abs()) && logged == old(logged)
      ensures piece == Content(Abs(), inum)[o..o + m]
    {
      assert o / BSIZE * BSIZE <= o < ip.size;
      ReadPiece(Abs(), o, m);
      var bp := Bmap(o / BSIZE);
      piece := blocks[bp.value][o % BSIZE..o % BSIZE + m];
    }

    /** readi's loop over the blocks of a range inside the file. */
    method ReadRange(off: nat, len: nat) returns (dst: seq<Byte>)
      requires Owned(Abs()) && NoHoles(Abs(), inum, ip.size) && off + len <= ip.size
      modifies this`blocks, this`ip, this`logged
      ensures Abs() == old(Abs()) && logged == old(logged)
      ensures dst == Content(Abs(), inum)[off..off + len]
    {
      ghost var fs := Abs();
      ghost var c := Content(fs, inum);
      dst := [];
      var tot, o := 0, off;
      while tot < len
        invariant 0 <= tot <= len && o == off + tot && Abs() == fs && logged == old(logged)
        invariant dst == c[off..o]
      {
        var m := Chunk(o, len - tot);
        var piece := ReadBlock(o, m);
        assert piece == c[o..o + m];
        SliceConcat(c, off, o, o + m);
        dst := dst + piece;
        tot, o := tot + m, o + m;
      }
    }

    /** readi: the requested bytes of the file, cut at its end; None is the result -1. Nothing is
        allocated and nothing is written. */
    method Readi(off: Uint, n: Uint) returns (r: Option<seq<Byte>>)
      requires Owned(Abs()) && NoHoles(Abs(), inum, ip.size)
      modifies this`blocks, this`ip, this`logged
      ensures Abs() == old(Abs()) && logged == old(logged)
      ensures r.None? <==> off > ip.size || off + n >= 0x1_0000_0000
      ensures r.Some? ==> r.value == Content(Abs(), inum)[off..if off + n > ip.size then ip.size else off + n]
    {
      Wraps(off, n);
      if off > ip.size || AddUint(off, n) < off {
        return None;
      }
      var len := if AddUint(off, n) > ip.size then ip.size - off else n;
      var dst := ReadRange(off, len);
      return Some(dst);
    }

    /** One round of writei: `m` more bytes of src. */
    method WriteRound(ghost fs0: Fs, off: nat, src: seq<Byte>, tot: nat, m: nat) returns (ok: bool)
      requires Shaped(fs0) && off <= fs0.ip.size && Writing(fs0, Abs(), off, src, tot) && tot + m <= |src|
      requires off + |src| <= MAXFILE * BSIZE && Charged(Abs(), logged, off, tot)
      requires (tot == 0 || (off + tot) % BSIZE == 0) && 0 < m <= BSIZE - (off + tot) % BSIZE
      requires tot + m == |src| || (off + tot + m) % BSIZE == 0
      modifies this`blocks, this`ip, this`logged
      ensures ok ==> InLoop(fs0, Abs(), logged, off, src, tot + m)
      ensures ok <==> FreeCount(old(Abs())) >= Absent(old(Abs()), (off + tot) / BSIZE)
      ensures ok ==> Claimed(old(Abs()), Abs(), Absent(old(Abs()), (off + tot) / BSIZE))
      ensures Logs(g, old(blocks), old(logged), blocks, logged)
    {
      ghost var fs, l := Abs(), logged;
      var bp := Bmap((off + tot) / BSIZE);
      if bp.None? { return false; }
      var a, piece := bp.value, src[tot..tot + m];
      ghost var fs1, l1 := Abs(), logged;
      RoundDone(fs0, fs, fs1, off, src, tot, m, l, l1, a);
      PatchClaims(fs, fs1, (off + tot) / BSIZE, a, Patch(blocks[a], (off + tot) % BSIZE, piece),
                  Absent(fs, (off + tot) / BSIZE));
      LogWrite(a, Patch(blocks[a], (off + tot) % BSIZE, piece));
      LogsTrans(g, fs.blocks, l, fs1.blocks, l1, blocks, logged);
      return true;
    }

    /** The size of the next round, and the round. */
    method NextRound(ghost fs0: Fs, off: nat, src: seq<Byte>, tot: nat) returns (ok: bool, t: nat)
      requires Shaped(fs0) && off <= fs0.ip.size && off + |src| <= MAXFILE * BSIZE
      requires tot < |src| && InLoop(fs0, Abs(), logged, off, src, tot)
      requires Claims(fs0, Abs(), off, tot) && Logs(g, fs0.blocks, {}, blocks, logged)
      modifies this`blocks, this`ip, this`logged
      ensures tot < t <= |src| && (ok ==> InLoop(fs0, Abs(), logged, off, src, t))
      ensures ok ==> Claims(fs0, Abs(), off, t)
      ensures !ok ==> FreeCount(fs0) < WriteNeeds(fs0.ip.size, off, |src|)
      ensures Logs(g, fs0.blocks, {}, blocks, logged)
    {
      var m := Chunk(off + tot, |src| - tot);
      t := tot + m;
      assert off + tot + m == off + t;
      ghost var fs, l := Abs(), logged;
      RoundNeeds(fs0, fs, off, tot, t, |src|);
      ok := WriteRound(fs0, off, src, tot, m);
      LogsTrans(g, fs0.blocks, {}, fs.blocks, l, blocks, logged);
      if ok {
        ClaimsMore(fs0, fs, Abs(), off, tot, t, Absent(fs, (off + tot) / BSIZE));
      }
    }

    /** writei's loop. */
    method WriteRange(off: nat, src: seq<Byte>) returns (ok: bool)
      requires Owned(Abs()) && NoHoles(Abs(), inum, ip.size)
      requires off <= ip.size && off + |src| <= MAXFILE * BSIZE && logged == {}
      modifies this`blocks, this`ip, this`logged
      ensures ok ==> InLoop(old(Abs()), Abs(), logged, off, src, |src|)
      ensures ok ==> Claims(old(Abs()), Abs(), off, |src|)
      ensures !ok ==> FreeCount(old(Abs())) < WriteNeeds(old(ip.size), off, |src|)
      ensures Logs(g, old(blocks), old(logged), blocks, logged)
    {
      ghost var fs0 := Abs();
      WritingStart(fs0, off, src);
      ClaimsStart(fs0, off);
      var tot := 0;
      ok := true;
      while ok && tot < |src|
        invariant 0 <= tot <= |src| && (ok ==> InLoop(fs0, Abs(), logged, off, src, tot))
        invariant Logs(g, fs0.blocks, {}, blocks, logged) && (ok ==> Claims(fs0, Abs(), off, tot))
        invariant !ok ==> FreeCount(fs0) < WriteNeeds(fs0.ip.size, off, |src|)
        decreases ok, |src| - tot
      {
        ok, tot := NextRound(fs0, off, src, tot);
      }
    }

    /** iupdate. */
    method Iupdate()
      requires Owned(Abs())
      modifies this`blocks, this`logged
      ensures Abs() == Updated(old(Abs())) && logged == old(logged) + {g.IBlock(inum)}
      ensures Logs(g, old(blocks), old(logged), blocks, logged)
    {
      var b := g.IBlock(inum);
      LogWrite(b, PutInode(blocks[b], inum % IPB, ip));
    }

    /** writei: the bytes of src become the file's bytes from off on. Every other byte of every file,
        and every other inode, is unchanged; the file still has no holes; the inode on disk equals the
        cached one; and the operation has logged at most one block per file block touched, one bitmap
        block per file block that can be new, the indirect block, its bitmap block and the inode's. */
    method Writei(src: seq<Byte>, off: Uint) returns (r: WriteResult)
      requires Settled(Abs()) && |src| < 0x1_0000_0000 && logged == {}
      modifies this`blocks, this`ip, this`logged
      ensures r.Refused? <==> off > old(ip.size) || off + |src| >= 0x1_0000_0000 || off + |src| > MAXFILE * BSIZE
      ensures r.Refused? ==> Abs() == old(Abs()) && logged == {}
      ensures r.Done? ==>
                  r.n == |src| && Settled(Abs()) && OthersSame(old(Abs()), Abs()) && Wrote(old(Abs()), Abs(), off, src)
      ensures r.Done? ==> ip.kind == old(ip.kind) && ip.links == old(ip.links)
      ensures r.Done? ==> ip.size == if |src| > 0 && off + |src| > old(ip.size) then off + |src| else old(ip.size)
      ensures r.Done? ==> |logged| <= Touched(off, |src|) + MaybeNew(off, |src|) + 3
      ensures r.OutOfBlocks? <==> !r.Refused? && FreeCount(old(Abs())) < WriteNeeds(old(ip.size), off, |src|)
      ensures r.Done? ==> Claims(old(Abs()), Abs(), off, |src|)
      ensures Logs(g, old(blocks), old(logged), blocks, logged)
    {
      Wraps(off, |src|);
      if off > ip.size || AddUint(off, |src|) < off {
        return Refused;
      }
      if AddUint(off, |src|) > MAXFILE * BSIZE {
        return Refused;
      }
      ghost var fs0 := Abs();
      var ok := WriteRange(off, src);
      if !ok { return OutOfBlocks; }
      FinishWrite(fs0, src, off);
      return Done(|src|);
    }

    /** The end of writei: the new size, and iupdate if the file grew. */
    method FinishWrite(ghost fs0: Fs, src: seq<Byte>, off: Uint)
      requires Settled(fs0) && off <= fs0.ip.size && off + |src| < 0x1_0000_0000
      requires InLoop(fs0, Abs(), logged, off, src, |src|)
      requires Claims(fs0, Abs(), off, |src|)
      modifies this`blocks, this`ip, this`logged
      ensures Settled(Abs()) && OthersSame(fs0, Abs()) && Wrote(fs0, Abs(), off, src)
      ensures ip.kind == fs0.ip.kind && ip.links == fs0.ip.links
      ensures ip.size == if |src| > 0 && off + |src| > fs0.ip.size then off + |src| else fs0.ip.size
      ensures |logged| <= Touched(off, |src|) + MaybeNew(off, |src|) + 3
      ensures Claims(fs0, Abs(), off, |src|)
      ensures Logs(g, old(blocks), old(logged), blocks, logged)
    {
      FinalCount(logged, Extra(Abs()), g.IBlock(inum), Touched(off, |src|) + MaybeNew(off, |src|));
      if |src| > 0 && off + |src| > ip.size {
        ghost var fs := Abs();
        ip := Inode(ip.kind, ip.links, off + |src|, ip.addrs);
        FinishGrown(fs0, fs, Abs(), off, src);
        GrownClaims(fs0, fs, Abs(), WriteNeeds(fs0.ip.size, off, |src|));
        Iupdate();
      } else {
        FinishInPlace(fs0, Abs(), off, src);
      }
    }
  }
}
