/** filewrite (file.c): a write of any length as a series of transactions, and what readi and writei
    mean on the file seen as a byte sequence. */
module FileWrite {
  import opened Blocks
  import opened FsLayout
  import opened FileSystem

  // ---------- files as byte sequences ----------

  /** `src` laid over c from `off` on, extending c if it reaches past the end. */
  function Splice(c: seq<Byte>, off: nat, src: seq<Byte>): seq<Byte>
    requires off <= |c|
  {
    c[..off] + src + (if off + |src| < |c| then c[off + |src|..] else [])
  }

  /** writei is a splice on this file's content. */
  lemma {:induction false} WriteiSplices(fs: Fs, fs': Fs, off: nat, src: seq<Byte>)
    requires Settled(fs) && Settled(fs') && Wrote(fs, fs', off, src) && off <= fs.ip.size
    requires fs'.ip.size == if |src| > 0 && off + |src| > fs.ip.size then off + |src| else fs.ip.size
    ensures Content(fs', fs.inum) == Splice(Content(fs, fs.inum), off, src)
  {
    var c, c' := Content(fs, fs.inum), Content(fs', fs.inum);
    var sp := Splice(c, off, src);
    assert |c'| == |sp|;
    forall o: nat | o < |c'| ensures c'[o] == sp[o] {
      BytesAt(fs', fs.inum, fs'.ip.size, o);
      assert c'[o] == FileByte(fs', fs.inum, o);
      if off <= o < off + |src| {
        assert sp[o] == src[o - off];
      } else {
        BytesAt(fs, fs.inum, fs.ip.size, o);
        assert c[o] == sp[o];
      }
    }
  }

  /** And the identity on every other file's. */
  lemma {:induction false} WriteiSparesOthers(fs: Fs, fs': Fs, off: nat, src: seq<Byte>, i: nat)
    requires Shaped(fs) && OthersSame(fs, fs') && Wrote(fs, fs', off, src)
    requires i < fs.g.ninodes && i != fs.inum && Node(fs, i).size <= MAXFILE * BSIZE
    ensures Node(fs', i) == Node(fs, i) && Content(fs', i) == Content(fs, i)
  {
    SameContent(fs, fs', i, Node(fs, i).size);
  }

  lemma {:induction false} SameContent(fs: Fs, fs': Fs, i: nat, n: nat)
    requires Shaped(fs) && Shaped(fs') && fs'.g == fs.g && i < fs.g.ninodes && n <= MAXFILE * BSIZE
    requires forall o: nat :: o < n ==> FileByte(fs', i, o) == FileByte(fs, i, o)
    ensures Bytes(fs', i, n) == Bytes(fs, i, n)
  {
    if n > 0 {
      SameContent(fs, fs', i, n - 1);
    }
  }

  lemma {:induction false} SpliceSlice(c: seq<Byte>, off: nat, src: seq<Byte>)
    requires off <= |c|
    ensures off + |src| <= |Splice(c, off, src)| && Splice(c, off, src)[off..off + |src|] == src
  {
  }

  /** writei and then readi of the same place: the bytes written come back, all other bytes of the file are as
      before, and so is every other file. */
  method WriteThenRead(f: FileSys, src: seq<Byte>, off: Uint) returns (w: WriteResult, back: Option<seq<Byte>>)
    requires Settled(f.Abs()) && |src| < 0x1_0000_0000 && f.logged == {}
    modifies f`blocks, f`ip, f`logged
    ensures w.Refused? <==> off > old(f.ip.size) || off + |src| > MAXFILE * BSIZE
    ensures w.OutOfBlocks? <==> !w.Refused? && FreeCount(old(f.Abs())) < WriteNeeds(old(f.ip.size), off, |src|)
    ensures w.Done? ==> back == Some(src) && off <= old(f.ip.size) && Settled(f.Abs())
    ensures w.Done? ==> Content(f.Abs(), f.inum) == Splice(Content(old(f.Abs()), f.inum), off, src)
    ensures w.Done? ==>
                forall i: nat :: i < f.g.ninodes && i != f.inum && Node(old(f.Abs()), i).size <= MAXFILE * BSIZE ==>
                Node(f.Abs(), i) == Node(old(f.Abs()), i) && Content(f.Abs(), i) == Content(old(f.Abs()), i)
  {
    ghost var fs := f.Abs();
    back := None;
    w := f.Writei(src, off);
    if w.Done? {
      WriteiSplices(fs, f.Abs(), off, src);
      SpliceSlice(Content(fs, f.inum), off, src);
      forall i: nat | i < f.g.ninodes && i != f.inum && Node(fs, i).size <= MAXFILE * BSIZE
        ensures Node(f.Abs(), i) == Node(fs, i) && Content(f.Abs(), i) == Content(fs, i)
      {
        WriteiSparesOthers(fs, f.Abs(), off, src, i);
      }
      back := f.Readi(off, |src|);
    }
  }

  /** Writing in two pieces is writing once. */
  lemma {:induction false} SpliceTwice(c: seq<Byte>, off: nat, a: seq<Byte>, b: seq<Byte>)
    requires off <= |c|
    ensures off + |a| <= |Splice(c, off, a)| && Splice(Splice(c, off, a), off + |a|, b) == Splice(c, off, a + b)
  {
  }

  // ---------- the transaction bound ----------

  /** max in filewrite: ((MAXOPBLOCKS-1-1-2) / 2) * 512. */
  function MaxChunk(maxop: nat): nat
    requires 4 <= maxop
  {
    (maxop - 4) / 2 * 512
  }

  /** A chunk at any offset, however the bitmap blocks fall, logs at most MAXOPBLOCKS blocks. */
  lemma {:induction false} ChunkFits(maxop: nat, off: nat, n: nat)
    requires 4 <= maxop && n <= MaxChunk(maxop)
    ensures Touched(off, n) + MaybeNew(off, n) + 3 <= maxop
  {
    var k := (maxop - 4) / 2;
    if n > 0 {
      var last := off + n - 1;
      assert last / BSIZE <= (off + 512 * k - 1) / BSIZE;
      assert (off + 512 * k - 1) / BSIZE == k + (off - 1) / BSIZE;
    }
  }

  /** The first i bytes of src are in the file. */
  ghost predicate Progress(fs0: Fs, fs: Fs, off: nat, src: seq<Byte>, i: nat) {
    && Settled(fs0) && Settled(fs) && fs.inum == fs0.inum && i <= |src| && off <= fs0.ip.size && off + i <= fs.ip.size
    && Content(fs, fs.inum) == Splice(Content(fs0, fs0.inum), off, src[..i])
  }

  lemma {:induction false} StartProgress(fs: Fs, off: nat, src: seq<Byte>)
    requires Settled(fs)
    ensures off <= fs.ip.size ==> Progress(fs, fs, off, src, 0)
  {
    if off <= fs.ip.size {
      var c := Content(fs, fs.inum);
      assert src[..0] == [];
      assert Splice(c, off, []) == c;
    }
  }

  lemma {:induction false} MoreProgress(fs0: Fs, fs: Fs, fs': Fs, off: nat, src: seq<Byte>, i: nat, t: nat, o: nat,
                                        piece: seq<Byte>)
    requires Progress(fs0, fs, off, src, i) && i <= t <= |src| && piece == src[i..t] && o == off + i
    requires Settled(fs') && Wrote(fs, fs', o, piece)
    requires fs'.ip.size == if |piece| > 0 && o + |piece| > fs.ip.size then o + |piece| else fs.ip.size
    ensures Progress(fs0, fs', off, src, t)
  {
    WriteiSplices(fs, fs', o, piece);
    ProgressContent(Content(fs0, fs0.inum), Content(fs, fs.inum), Content(fs', fs'.inum), off, src, i, t, o, piece);
  }

  lemma {:induction false} ProgressContent(c0: seq<Byte>, c: seq<Byte>, c': seq<Byte>, off: nat, src: seq<Byte>, i: nat,
                                           t: nat, o: nat, piece: seq<Byte>)
    requires off <= |c0| && i <= t <= |src| && piece == src[i..t] && o == off + i <= |c|
    requires c == Splice(c0, off, src[..i]) && c' == Splice(c, o, piece)
    ensures c' == Splice(c0, off, src[..t])
  {
    SpliceTwice(c0, off, src[..i], piece);
    assert src[..i] + piece == src[..t];
  }

  datatype Outcome = Finished(n: nat) | Failed | Panic

  /** The state of filewrite's loop: i bytes written, in transactions of at most MAXOPBLOCKS blocks. */
  ghost predicate Chunked(fs0: Fs, fs: Fs, off: nat, src: seq<Byte>, i: nat) {
    && Settled(fs) && OthersSame(fs0, fs)
    && (off > fs0.ip.size ==> i == 0 && fs == fs0)
    && (off <= fs0.ip.size ==> Progress(fs0, fs, off, src, i))
  }

  /** How far whole chunks of at most max bytes get before one would pass the largest file. */
  function Reach(off: nat, i: nat, n: nat, max: nat): (t: nat)
    requires i <= n && 0 < max
    ensures i <= t <= n
    decreases n - i
  {
    var t := if n - i > max then i + max else n;
    if i == n || off + t > MAXFILE * BSIZE then i else Reach(off, t, n, max)
  }

  lemma {:induction false} ReachStep(off: nat, i: nat, n: nat, max: nat, t: nat)
    requires i < n && 0 < max && t == if n - i > max then i + max else n
    ensures off + t <= MAXFILE * BSIZE ==> Reach(off, i, n, max) == Reach(off, t, n, max) >= t
    ensures off + t > MAXFILE * BSIZE ==> Reach(off, i, n, max) == i
  {
  }

  /** What is needed so far is at most what is needed in the end. */
  lemma {:induction false} NeedsGrow(size: nat, off: nat, t: nat, n: nat)
    requires t <= n
    ensures WriteNeeds(size, off, t) <= WriteNeeds(size, off, n)
  {
    FileBlocksGrow(Max(size, off + t), Max(size, off + n));
  }

  /** The bytes that filewrite can write at off, blocks permitting. */
  function Writable(size: nat, off: nat, n: nat, max: nat): (t: nat)
    requires 0 < max
    ensures t <= n
  {
    if off > size then 0 else Reach(off, 0, n, max)
  }

  /** The size and the blocks after i bytes. */
  ghost predicate Sized(fs0: Fs, fs: Fs, off: nat, i: nat) {
    && Shaped(fs0) && Shaped(fs)
    && (off <= fs0.ip.size ==> fs.ip.size == Max(fs0.ip.size, off + i) && Claims(fs0, fs, off, i))
  }

  lemma {:induction false} SizedStart(fs: Fs, off: nat)
    requires Shaped(fs)
    ensures Sized(fs, fs, off, 0)
  {
    if off <= fs.ip.size {
      ClaimsStart(fs, off);
    }
  }

  /** The needs of a chunk are what it adds to the needs so far. */
  lemma {:induction false} ChunkNeeds(size: nat, off: nat, i: nat, t: nat, n: nat)
    requires off <= size && i <= t <= n
    ensures WriteNeeds(Max(size, off + i), off + i, t - i) == WriteNeeds(size, off, t) - WriteNeeds(size, off, i)
    ensures WriteNeeds(size, off, t) <= WriteNeeds(size, off, n)
  {
    FileBlocksGrow(Max(size, off + t), Max(size, off + n));
  }

  lemma {:induction false} SizedMore(fs0: Fs, fs: Fs, fs': Fs, off: nat, i: nat, t: nat, o: nat, n: nat)
    requires Sized(fs0, fs, off, i) && off <= fs0.ip.size && i <= t && o == off + i && n == t - i
    requires Claims(fs, fs', o, n) && fs'.ip.size == Max(fs.ip.size, o + n)
    ensures Sized(fs0, fs', off, t)
  {
    ChunkNeeds(fs0.ip.size, off, i, t, t);
    ClaimsMore(fs0, fs, fs', off, i, t, WriteNeeds(fs.ip.size, o, n));
  }

  /** filewrite on an inode file: f.Abs() is the locked inode's file system, `off` is f->off; the new
      offset is returned too. Each transaction logs at most MAXOPBLOCKS blocks (see WriteChunk). It panics
      exactly when the blocks do not suffice for what it can write, and otherwise writes exactly that. */
  method Filewrite(f: FileSys, maxop: nat, src: seq<Byte>, off: Uint) returns (r: Outcome, newoff: Uint)
    requires Settled(f.Abs()) && 6 <= maxop && |src| < 0x8000_0000
    modifies f`blocks, f`ip, f`logged
    ensures var n := Writable(old(f.ip.size), off, |src|, MaxChunk(maxop));
            && (r.Panic? <==> off <= old(f.ip.size) && FreeCount(old(f.Abs())) < WriteNeeds(old(f.ip.size), off, n))
            && (!r.Panic? ==> newoff == off + n && Chunked(old(f.Abs()), f.Abs(), off, src, n))
            && (r.Finished? <==> !r.Panic? && n == |src|)
    ensures r.Finished? ==> r.n == |src|
  {
    ghost var fs0 := f.Abs();
    var max := MaxChunk(maxop);
    var i := 0;
    newoff := off;
    StartProgress(fs0, off, src);
    SizedStart(fs0, off);
    while i < |src|
      invariant 0 <= i <= |src| && newoff == off + i && Chunked(fs0, f.Abs(), off, src, i)
                && Sized(fs0, f.Abs(), off, i)
      invariant Reach(off, i, |src|, max) == Reach(off, 0, |src|, max)
    {
      var t := if |src| - i > max then i + max else |src|;
      ReachStep(off, i, |src|, max, t);
      var w := FileRound(f, fs0, maxop, src, off, i, t, newoff);
      if w.OutOfBlocks? {
        NeedsGrow(fs0.ip.size, off, t, Reach(off, t, |src|, max));
        return Panic, newoff;
      }
      if w.Refused? { return Failed, newoff; }
      i, newoff := t, off + t;
    }
    return Finished(|src|), newoff;
  }

  /** One round of filewrite, in terms of the state at its start. */
  method FileRound(f: FileSys, ghost fs0: Fs, maxop: nat, src: seq<Byte>, ghost off: nat, i: nat, t: nat, o: Uint)
    returns (w: WriteResult)
    requires 6 <= maxop && i <= t <= |src| < 0x8000_0000 && t - i <= MaxChunk(maxop) && o == off + i
    requires Chunked(fs0, f.Abs(), off, src, i) && Sized(fs0, f.Abs(), off, i)
    modifies f`blocks, f`ip, f`logged
    ensures w.Refused? <==> off > fs0.ip.size || off + t > MAXFILE * BSIZE
    ensures w.Refused? ==> f.Abs() == old(f.Abs())
    ensures w.OutOfBlocks? <==> !w.Refused? && FreeCount(fs0) < WriteNeeds(fs0.ip.size, off, t)
    ensures w.Done? ==> Chunked(fs0, f.Abs(), off, src, t) && Sized(fs0, f.Abs(), off, t)
  {
    ghost var fs := f.Abs();
    RoundStart(fs0, fs, off, src, i, t, o, t - i);
    var piece := src[i..t];
    w := WriteChunk(f, maxop, piece, o);
    if w.Done? {
      RoundEnd(fs0, fs, f.Abs(), off, src, i, t, o, piece);
    }
  }

  /** What decides a round, in terms of the state at the start of filewrite. */
  lemma {:induction false} RoundStart(fs0: Fs, fs: Fs, off: nat, src: seq<Byte>, i: nat, t: nat, o: nat, n: nat)
    requires Chunked(fs0, fs, off, src, i) && Sized(fs0, fs, off, i) && o == off + i && i <= t && n == t - i
    ensures o > fs.ip.size <==> off > fs0.ip.size
    ensures off > fs0.ip.size ==> i == 0
    ensures off <= fs0.ip.size ==>
              (FreeCount(fs) < WriteNeeds(fs.ip.size, o, n) <==> FreeCount(fs0) < WriteNeeds(fs0.ip.size, off, t))
  {
    if off <= fs0.ip.size {
      ChunkNeeds(fs0.ip.size, off, i, t, t);
    }
  }

  lemma {:induction false} RoundEnd(fs0: Fs, fs: Fs, fs': Fs, off: nat, src: seq<Byte>, i: nat, t: nat, o: nat,
                                    piece: seq<Byte>)
    requires Chunked(fs0, fs, off, src, i) && Sized(fs0, fs, off, i) && i <= t <= |src| && piece == src[i..t]
    requires o == off + i <= fs.ip.size
    requires Settled(fs') && OthersSame(fs, fs') && Wrote(fs, fs', o, piece) && Claims(fs, fs', o, |piece|)
    requires fs'.ip.size == Max(fs.ip.size, o + |piece|)
    ensures Chunked(fs0, fs', off, src, t) && Sized(fs0, fs', off, t)
  {
    ChunkDone(fs0, fs, fs', off, src, i, t, o, piece);
    SizedMore(fs0, fs, fs', off, i, t, o, |piece|);
  }

  /** One transaction of filewrite: begin_op, writei of a piece at o, end_op. */
  method WriteChunk(f: FileSys, maxop: nat, piece: seq<Byte>, o: Uint) returns (w: WriteResult)
    requires Settled(f.Abs()) && 6 <= maxop && |piece| <= MaxChunk(maxop) && |piece| < 0x8000_0000
    modifies f`blocks, f`ip, f`logged
    ensures w.Refused? <==> o > old(f.ip.size) || o + |piece| > MAXFILE * BSIZE
    ensures w.Refused? ==> f.Abs() == old(f.Abs())
    ensures w.OutOfBlocks? <==> !w.Refused? && FreeCount(old(f.Abs())) < WriteNeeds(old(f.ip.size), o, |piece|)
    ensures w.Done? ==> |f.logged| <= maxop
    ensures w.Done? ==> Settled(f.Abs()) && OthersSame(old(f.Abs()), f.Abs()) && Wrote(old(f.Abs()), f.Abs(), o, piece)
    ensures w.Done? ==> Claims(old(f.Abs()), f.Abs(), o, |piece|) && f.ip.size == Max(old(f.ip.size), o + |piece|)
  {
    f.logged := {};
    w := f.Writei(piece, o);
    ChunkFits(maxop, o, |piece|);
  }

  lemma {:induction false} ChunkDone(fs0: Fs, fs: Fs, fs': Fs, off: nat, src: seq<Byte>, i: nat, t: nat, o: nat,
                                     piece: seq<Byte>)
    requires Chunked(fs0, fs, off, src, i) && i <= t <= |src| && piece == src[i..t] && o == off + i <= fs.ip.size
    requires Settled(fs') && OthersSame(fs, fs') && Wrote(fs, fs', o, piece)
    requires fs'.ip.size == if |piece| > 0 && o + |piece| > fs.ip.size then o + |piece| else fs.ip.size
    ensures Chunked(fs0, fs', off, src, t)
  {
    MoreProgress(fs0, fs, fs', off, src, i, t, o, piece);
  }
}
