/** All the files of the disk (fs.c): ilock, ialloc and the freeing of inodes on top of writei and itrunc, over
    runs that go from inode to inode. */
module Inodes {
  import opened Blocks
  import opened FsLayout
  import opened FileSystem
  import opened Truncate
  import FileWrite
  import Mkfs

  /** The type of an inode; 0 is a free inode. The word also holds the major number. */
  function Type(kind: Uint): nat { kind % 0x1_0000 }

  /** The reference: a file is its type word and its bytes. */
  datatype File = File(kind: Uint, content: seq<Byte>)

  /** Inode i has no holes, is empty if it is free, and holds this file. */
  ghost predicate Holds(fs: Fs, i: nat, f: File)
    requires Shaped(fs) && i < fs.g.ninodes
  {
    var n := Node(fs, i);
    && NoHoles(fs, i, n.size) && (Type(n.kind) == 0 ==> n.size == 0)
    && f == File(n.kind, Content(fs, i))
  }

  /** Blocks have one owner each and none leaks, the cached inode is the one on disk, and inode i holds files[i]. */
  ghost predicate Represents(fs: Fs, files: seq<File>) {
    && Owned(fs) && NoLeak(fs) && DiskInode(fs, fs.inum) == fs.ip && |files| == fs.g.ninodes
    && forall i: nat :: i < |files| ==> Holds(fs, i, files[i])
  }

  lemma {:induction false} HoldsSame(fs: Fs, fs': Fs, i: nat, f: File)
    requires Shaped(fs) && Shaped(fs') && fs'.g == fs.g && i < fs.g.ninodes && Node(fs', i) == Node(fs, i)
    requires forall s: Slot :: s.Valid(fs.g) && s.i == i ==> Ref(fs', s) == Ref(fs, s)
    requires forall o: nat :: o < MAXFILE * BSIZE ==> FileByte(fs', i, o) == FileByte(fs, i, o)
    requires Holds(fs, i, f)
    ensures Holds(fs', i, f)
  {
    FileWrite.SameContent(fs, fs', i, Node(fs, i).size);
    forall n: nat | n < MAXFILE ensures Ref(fs', DataSlot(i, n)) == Ref(fs, DataSlot(i, n)) {}
  }

  lemma {:induction false} NoLeakSame(fs: Fs, fs': Fs)
    requires NoLeak(fs) && SameRefs(fs, fs') && SameUsed(fs, fs')
    ensures NoLeak(fs')
  {
    ClaimedSame(fs, fs');
    ClaimedKeeps(fs, fs', 0);
  }

  // ---------- ilock ----------

  /** Another inode is locked and its copy read from disk. */
  function Relock(fs: Fs, j: nat): (r: Fs)
    requires Shaped(fs) && j < fs.g.ninodes
    ensures Shaped(r)
  {
    Fs(fs.g, fs.blocks, j, DiskInode(fs, j))
  }

  /** Because inodes are written through, changing the locked inode changes nothing. */
  lemma {:induction false} RelockKeeps(fs: Fs, j: nat, files: seq<File>)
    requires Represents(fs, files) && j < fs.g.ninodes
    ensures Represents(Relock(fs, j), files)
  {
    var fs' := Relock(fs, j);
    forall i: nat | i < fs.g.ninodes ensures Node(fs', i) == Node(fs, i) && DiskInode(fs', i) == DiskInode(fs, i) {}
    forall s: Slot | s.Valid(fs.g) ensures Ref(fs', s) == Ref(fs, s) {}
    forall x: nat | x < fs.g.size ensures Used(fs', x) == Used(fs, x) {}
    OwnedSame(fs, fs');
    NoLeakSame(fs, fs');
    forall i: nat | i < |files| ensures Holds(fs', i, files[i]) {
      forall o: nat | o < MAXFILE * BSIZE ensures FileByte(fs', i, o) == FileByte(fs, i, o) {
        assert Ref(fs', DataSlot(i, o / BSIZE)) == Ref(fs, DataSlot(i, o / BSIZE));
      }
      HoldsSame(fs, fs', i, files[i]);
    }
  }

  // ---------- writei and itrunc ----------

  /** The locked inode was changed and written through; nothing else changed. */
  lemma {:induction false} EditKeeps(fs: Fs, fs': Fs, files: seq<File>, f: File)
    requires Represents(fs, files) && Settled(fs') && NoLeak(fs') && OthersSame(fs, fs') && OtherBytes(fs, fs')
    requires Holds(fs', fs.inum, f)
    ensures Represents(fs', files[fs.inum := f])
  {
    var files' := files[fs.inum := f];
    forall i: nat | i < |files'| ensures Holds(fs', i, files'[i]) {
      if i != fs.inum {
        HoldsSame(fs, fs', i, files[i]);
      }
    }
  }

  lemma {:induction false} WriteKeeps(fs: Fs, fs': Fs, files: seq<File>, off: nat, src: seq<Byte>)
    requires Represents(fs, files) && Type(fs.ip.kind) != 0 && off <= fs.ip.size
    requires Settled(fs') && OthersSame(fs, fs') && Wrote(fs, fs', off, src) && fs'.ip.kind == fs.ip.kind
    requires Claims(fs, fs', off, |src|)
    requires fs'.ip.size == if |src| > 0 && off + |src| > fs.ip.size then off + |src| else fs.ip.size
    ensures off <= |files[fs.inum].content|
    ensures Represents(fs', files[fs.inum := File(fs.ip.kind, FileWrite.Splice(files[fs.inum].content, off, src))])
  {
    assert Holds(fs, fs.inum, files[fs.inum]);
    FileWrite.WriteiSplices(fs, fs', off, src);
    ClaimedKeeps(fs, fs', WriteNeeds(fs.ip.size, off, |src|));
    EditKeeps(fs, fs', files, File(fs.ip.kind, FileWrite.Splice(files[fs.inum].content, off, src)));
  }

  /** What itrunc leaves in use is named by other inodes. */
  lemma {:induction false} TruncatedNoLeak(fs: Fs, fs': Fs)
    requires NoLeak(fs) && Truncated(fs, fs')
    ensures NoLeak(fs')
  {
    forall x: nat | x < fs.g.size && Used(fs', x) ensures x < fs.g.datastart || Named(fs', x) {
      assert Used(fs, x) && !Mine(fs, x);
      if Named(fs, x) {
        var s: Slot :| s.Valid(fs.g) && Ref(fs, s) == x;
        assert s.i != fs.inum;
        assert Ref(fs', s) == x;
      }
    }
  }

  lemma {:induction false} TruncateKeeps(fs: Fs, fs': Fs, files: seq<File>)
    requires Represents(fs, files) && Truncated(fs, fs')
    ensures Represents(fs', files[fs.inum := File(fs.ip.kind, [])])
  {
    TruncatedNoLeak(fs, fs');
    EditKeeps(fs, fs', files, File(fs.ip.kind, []));
  }

  // ---------- ialloc and the end of iput ----------

  function NoAddrs(): (a: seq<Uint>)
    ensures |a| == NDIRECT + 1 && forall k :: 0 <= k <= NDIRECT ==> a[k] == 0
  {
    seq(NDIRECT + 1, _ => 0)
  }

  /** ialloc of inode i: cleared, given a type, and written. (Its in-memory copy is read at the next ilock.) */
  function Ialloced(fs: Fs, i: nat, kind: Uint): (r: Fs)
    requires Shaped(fs) && i < fs.g.ninodes
    ensures Shaped(r)
  {
    Updated(Fs(fs.g, fs.blocks, i, Inode(kind, 0, 0, NoAddrs())))
  }

  /** Nothing but a type: no link, no byte, no block. */
  predicate Blank(ip: Inode, kind: Uint) {
    ip.Valid() && ip.kind == kind && ip.links == 0 && ip.size == 0 && forall k :: 0 <= k <= NDIRECT ==> ip.addrs[k] == 0
  }

  /** An empty inode has no blocks. */
  lemma {:induction false} EmptyRefs(fs: Fs, i: nat, s: Slot)
    requires Owned(fs) && i < fs.g.ninodes && NoHoles(fs, i, 0) && s.Valid(fs.g) && s.i == i
    ensures Ref(fs, s) == 0
  {
    match s
    case Direct(_, k) => assert s == DataSlot(i, k);
    case Entry(_, k) => assert s == DataSlot(i, NDIRECT + k);
    case Indirect(_) =>
  }

  lemma {:induction false} RetypeRefs(fs: Fs, fs1: Fs)
    requires Owned(fs) && NoLeak(fs) && NoHoles(fs, fs.inum, 0) && fs1 == Fs(fs.g, fs.blocks, fs.inum, fs1.ip)
    requires fs1.ip.Valid() && forall k :: 0 <= k <= NDIRECT ==> fs1.ip.addrs[k] == 0
    ensures Owned(fs1) && NoLeak(fs1) && forall s: Slot :: s.Valid(fs.g) ==> Ref(fs1, s) == Ref(fs, s)
  {
    forall s: Slot | s.Valid(fs.g) ensures Ref(fs1, s) == Ref(fs, s) {
      if s.i == fs.inum {
        EmptyRefs(fs, fs.inum, s);
      }
    }
    forall x: nat | x < fs.g.size ensures Used(fs1, x) == Used(fs, x) {}
    OwnedSame(fs, fs1);
    NoLeakSame(fs, fs1);
  }

  /** A new type word for an inode that stays empty, written through. */
  lemma {:induction false} RetypeKeeps(fs: Fs, fs1: Fs, files: seq<File>)
    requires Represents(fs, files) && fs.ip.size == 0 && fs1 == Fs(fs.g, fs.blocks, fs.inum, fs1.ip)
    requires fs1.ip.Valid() && fs1.ip.size == 0 && forall k :: 0 <= k <= NDIRECT ==> fs1.ip.addrs[k] == 0
    ensures Represents(Updated(fs1), files[fs.inum := File(fs1.ip.kind, [])])
  {
    var i := fs.inum;
    assert Holds(fs, i, files[i]);
    RetypeRefs(fs, fs1);
    UpdatedEffect(fs1);
    var fs' := Updated(fs1);
    NoLeakSame(fs1, fs');
    assert NoHoles(fs', i, 0) by {
      forall n: nat | n < MAXFILE ensures Ref(fs', DataSlot(i, n)) == 0 {
        EmptyRefs(fs, i, DataSlot(i, n));
      }
    }
    forall j: nat, o: nat | j < fs.g.ninodes && j != i && o < MAXFILE * BSIZE
        ensures FileByte(fs', j, o) == FileByte(fs, j, o) {
      assert FileByte(fs', j, o) == FileByte(fs1, j, o);
      assert Ref(fs1, DataSlot(j, o / BSIZE)) == Ref(fs, DataSlot(j, o / BSIZE));
    }
    EditKeeps(fs, fs', files, File(fs1.ip.kind, []));
  }

  lemma {:induction false} IallocKeeps(fs: Fs, i: nat, kind: Uint, files: seq<File>)
    requires Represents(fs, files) && i < fs.g.ninodes && Type(DiskInode(fs, i).kind) == 0
    ensures Represents(Ialloced(fs, i, kind), files[i := File(kind, [])])
    ensures Blank(DiskInode(Ialloced(fs, i, kind), i), kind)
  {
    UpdatedInode(Fs(fs.g, fs.blocks, i, Inode(kind, 0, 0, NoAddrs())), i);
    RelockKeeps(fs, i, files);
    var fs0 := Relock(fs, i);
    assert Holds(fs0, i, files[i]);
    RetypeKeeps(fs0, Fs(fs.g, fs.blocks, i, Inode(kind, 0, 0, NoAddrs())), files);
  }

  /** The type word of an inode that iput frees: type 0. */
  function Free(kind: Uint): (r: Uint)
    ensures Type(r) == 0
  {
    kind - kind % 0x1_0000
  }

  /** What iput does to an inode without links, after itrunc: type 0, written through. */
  function Untyped(fs: Fs): (r: Fs)
    requires Shaped(fs)
    ensures Shaped(r)
  {
    Updated(Fs(fs.g, fs.blocks, fs.inum, Inode(Free(fs.ip.kind), fs.ip.links, fs.ip.size, fs.ip.addrs)))
  }

  lemma {:induction false} TruncatedAddrs(fs: Fs, fs1: Fs)
    requires Truncated(fs, fs1)
    ensures forall k :: 0 <= k <= NDIRECT ==> fs1.ip.addrs[k] == 0
  {
    forall k | 0 <= k <= NDIRECT ensures fs1.ip.addrs[k] == 0 {
      assert Ref(fs1, if k < NDIRECT then Direct(fs.inum, k) else Indirect(fs.inum)) == 0;
    }
  }

  lemma {:induction false} FreeKeeps(fs: Fs, fs1: Fs, files: seq<File>)
    requires Represents(fs, files) && Truncated(fs, fs1)
    ensures Represents(Untyped(fs1), files[fs.inum := File(Free(fs.ip.kind), [])])
  {
    var files1 := files[fs.inum := File(fs.ip.kind, [])];
    TruncateKeeps(fs, fs1, files);
    TruncatedAddrs(fs, fs1);
    UntypedKeeps(fs1, files1);
    assert files1[fs.inum := File(Free(fs.ip.kind), [])] == files[fs.inum := File(Free(fs.ip.kind), [])];
  }

  lemma {:induction false} UntypedKeeps(fs: Fs, files: seq<File>)
    requires Represents(fs, files) && fs.ip.size == 0 && forall k :: 0 <= k <= NDIRECT ==> fs.ip.addrs[k] == 0
    ensures Represents(Untyped(fs), files[fs.inum := File(Free(fs.ip.kind), [])])
  {
    var ip := Inode(Free(fs.ip.kind), fs.ip.links, fs.ip.size, fs.ip.addrs);
    RetypeKeeps(fs, Fs(fs.g, fs.blocks, fs.inum, ip), files);
  }

  // ---------- whole runs ----------

  /** The disk and the locked inode, the files they hold, and the blocks logged so far. */
  datatype State = State(fs: Fs, files: seq<File>, logged: set<nat>)

  datatype Step =
    | Ilock(j: nat)
    | Write(off: nat, src: seq<Byte>)
    | Trunc
    | Ialloc(i: nat, kind: Uint)
    | Ifree(mid: Fs) // mid is the state between its itrunc and its iupdate

  ghost predicate LockTo(fs: Fs, files: seq<File>, j: nat, fs': Fs, files': seq<File>)
    requires Represents(fs, files)
  {
    j < fs.g.ninodes && Type(files[j].kind) != 0 && fs' == Relock(fs, j) && files' == files
  }

  ghost predicate WriteTo(fs: Fs, files: seq<File>, off: nat, src: seq<Byte>, fs': Fs, files': seq<File>)
    requires Represents(fs, files)
  {
    && Type(fs.ip.kind) != 0 && off <= |files[fs.inum].content| == fs.ip.size
    && Settled(fs') && OthersSame(fs, fs') && Wrote(fs, fs', off, src) && fs'.ip.kind == fs.ip.kind
    && fs'.ip.size == (if |src| > 0 && off + |src| > fs.ip.size then off + |src| else fs.ip.size)
    && Claims(fs, fs', off, |src|)
    && files' == files[fs.inum := File(fs.ip.kind, FileWrite.Splice(files[fs.inum].content, off, src))]
  }

  ghost predicate TruncTo(fs: Fs, files: seq<File>, fs': Fs, files': seq<File>)
    requires Represents(fs, files)
  {
    Truncated(fs, fs') && files' == files[fs.inum := File(fs.ip.kind, [])]
  }

  ghost predicate IallocTo(fs: Fs, files: seq<File>, i: nat, kind: Uint, fs': Fs, files': seq<File>)
    requires Represents(fs, files)
  {
    && i < fs.g.ninodes && Type(DiskInode(fs, i).kind) == 0 && Type(kind) != 0
    && fs' == Ialloced(fs, i, kind) && files' == files[i := File(kind, [])]
  }

  ghost predicate IfreeTo(fs: Fs, files: seq<File>, mid: Fs, fs': Fs, files': seq<File>)
    requires Represents(fs, files)
  {
    Truncated(fs, mid) && fs' == Untyped(mid) && files' == files[fs.inum := File(Free(fs.ip.kind), [])]
  }

  /** What one call does, to the disk and to the files. */
  ghost predicate StepTo(s: State, a: Step, s': State)
    requires Represents(s.fs, s.files)
  {
    && Logs(s.fs.g, s.fs.blocks, s.logged, s'.fs.blocks, s'.logged)
    && match a
       case Ilock(j) => LockTo(s.fs, s.files, j, s'.fs, s'.files)
       case Write(off, src) => WriteTo(s.fs, s.files, off, src, s'.fs, s'.files)
       case Trunc => TruncTo(s.fs, s.files, s'.fs, s'.files)
       case Ialloc(i, kind) => IallocTo(s.fs, s.files, i, kind, s'.fs, s'.files)
       case Ifree(mid) => IfreeTo(s.fs, s.files, mid, s'.fs, s'.files)
  }

  lemma {:induction false} LockStep(fs: Fs, files: seq<File>, j: nat, fs': Fs, files': seq<File>)
    requires Represents(fs, files) && LockTo(fs, files, j, fs', files')
    ensures Represents(fs', files') && fs'.g == fs.g
  {
    RelockKeeps(fs, j, files);
  }

  lemma {:induction false} WriteStep(fs: Fs, files: seq<File>, off: nat, src: seq<Byte>, fs': Fs, files': seq<File>)
    requires Represents(fs, files) && WriteTo(fs, files, off, src, fs', files')
    ensures Represents(fs', files') && fs'.g == fs.g
  {
    WriteKeeps(fs, fs', files, off, src);
  }

  lemma {:induction false} TruncStep(fs: Fs, files: seq<File>, fs': Fs, files': seq<File>)
    requires Represents(fs, files) && TruncTo(fs, files, fs', files')
    ensures Represents(fs', files') && fs'.g == fs.g
  {
    TruncateKeeps(fs, fs', files);
  }

  lemma {:induction false} IallocStep(fs: Fs, files: seq<File>, i: nat, kind: Uint, fs': Fs, files': seq<File>)
    requires Represents(fs, files) && IallocTo(fs, files, i, kind, fs', files')
    ensures Represents(fs', files') && fs'.g == fs.g
  {
    IallocKeeps(fs, i, kind, files);
  }

  lemma {:induction false} IfreeStep(fs: Fs, files: seq<File>, mid: Fs, fs': Fs, files': seq<File>)
    requires Represents(fs, files) && IfreeTo(fs, files, mid, fs', files')
    ensures Represents(fs', files') && fs'.g == fs.g
  {
    FreeKeeps(fs, mid, files);
  }

  lemma {:induction false} StepKeeps(s: State, a: Step, s': State)
    requires Represents(s.fs, s.files) && StepTo(s, a, s')
    ensures Represents(s'.fs, s'.files) && s'.fs.g == s.fs.g
  {
    match a
    case Ilock(j) => LockStep(s.fs, s.files, j, s'.fs, s'.files);
    case Write(off, src) => WriteStep(s.fs, s.files, off, src, s'.fs, s'.files);
    case Trunc => TruncStep(s.fs, s.files, s'.fs, s'.files);
    case Ialloc(i, kind) => IallocStep(s.fs, s.files, i, kind, s'.fs, s'.files);
    case Ifree(mid) => IfreeStep(s.fs, s.files, mid, s'.fs, s'.files);
  }

  /** Some call leads from s to s'. (From a state that represents no files, anything may follow.) */
  ghost predicate Next(s: State, s': State) {
    Represents(s.fs, s.files) ==> exists a: Step :: StepTo(s, a, s')
  }

  /** States reached one after the other from the first. */
  ghost predicate Run(h: seq<State>) {
    |h| > 0 && (|h| > 1 ==> Run(h[..|h| - 1]) && Next(h[|h| - 2], h[|h| - 1]))
  }

  lemma {:induction false} RunKeeps(h: seq<State>)
    requires Run(h) && Represents(h[0].fs, h[0].files)
    ensures Represents(h[|h| - 1].fs, h[|h| - 1].files) && h[|h| - 1].fs.g == h[0].fs.g
  {
    if |h| > 1 {
      RunKeeps(h[..|h| - 1]);
      var s, s' := h[|h| - 2], h[|h| - 1];
      var a: Step :| StepTo(s, a, s');
      StepKeeps(s, a, s');
    }
  }

  function NoFiles(n: nat): (files: seq<File>)
    ensures |files| == n && forall i :: 0 <= i < n ==> files[i] == File(0, [])
  {
    seq(n, _ => File(0, []))
  }

  lemma {:induction false} FreshRepresents(g: Geometry, inum: nat)
    requires g.Valid() && inum < g.ninodes && g.datastart < BPB
    ensures Represents(Mkfs.Fresh(g, inum), NoFiles(g.ninodes))
  {
    var fs, files := Mkfs.Fresh(g, inum), NoFiles(g.ninodes);
    forall i: nat | i < |files| ensures Holds(fs, i, files[i]) {
      Mkfs.FreshFile(g, inum, i);
    }
    Mkfs.FreshSettled(g, inum, inum);
    assert NoLeak(fs);
  }

  /** With one owner per block and no leak, a block is in use exactly when it is metadata or named. */
  lemma {:induction false} UsedExactly(fs: Fs)
    requires Owned(fs) && NoLeak(fs)
    ensures forall b: nat :: b < fs.g.size ==> (Used(fs, b) <==> b < fs.g.datastart || Named(fs, b))
  {
    forall b: nat | b < fs.g.size && Named(fs, b) ensures Used(fs, b) {
      var s: Slot :| s.Valid(fs.g) && Ref(fs, s) == b;
      assert RefOk(fs, s);
    }
  }

  /** From the fresh disk, after every sequence of ilock, writei, itrunc, ialloc and iput, over any inodes: no
      block has two owners, a block is marked in use exactly when it is metadata or owned, every file is
      without holes, the inode that is locked is the one on disk, and every file has exactly the bytes
      that splicing and emptying byte sequences gives. */
  lemma {:induction false} FilesSafe(g: Geometry, inum: nat, h: seq<State>, i: nat)
    requires g.Valid() && inum < g.ninodes && g.datastart < BPB && i < g.ninodes
    requires Run(h) && h[0].fs == Mkfs.Fresh(g, inum) && h[0].files == NoFiles(g.ninodes)
    ensures var s := h[|h| - 1];
            && Owned(s.fs) && s.fs.g == g && DiskInode(s.fs, s.fs.inum) == s.fs.ip && |s.files| == g.ninodes
            && NoHoles(s.fs, i, Node(s.fs, i).size) && Content(s.fs, i) == s.files[i].content
            && (forall b: nat :: b < g.size ==> (Used(s.fs, b) <==> b < g.datastart || Named(s.fs, b)))
  {
    FreshRepresents(g, inum);
    RunKeeps(h);
    var s := h[|h| - 1];
    UsedExactly(s.fs);
    assert Holds(s.fs, i, s.files[i]);
  }

  /** Inodes valid in memory but not locked are as on disk. */
  ghost predicate CacheOk(fs: Fs, cached: map<nat, Inode>)
    requires Shaped(fs)
  {
    && fs.inum !in cached
    && forall j :: j in cached ==> j < fs.g.ninodes && cached[j] == DiskInode(fs, j) && Type(cached[j].kind) != 0
  }

  lemma {:induction false} CacheKept(fs: Fs, fs': Fs, cached: map<nat, Inode>)
    requires OthersSame(fs, fs') && CacheOk(fs, cached)
    ensures CacheOk(fs', cached)
  {
  }

  /** iunlock: the inode locked so far stays in memory. */
  function Stow(cached: map<nat, Inode>, inum: nat, ip: Inode): map<nat, Inode> {
    if Type(ip.kind) != 0 then cached[inum := ip] else cached
  }

  lemma {:induction false} LockCache(fs: Fs, cached: map<nat, Inode>, j: nat)
    requires Shaped(fs) && DiskInode(fs, fs.inum) == fs.ip && CacheOk(fs, cached) && j < fs.g.ninodes
    ensures CacheOk(Relock(fs, j), Stow(cached, fs.inum, fs.ip) - {j})
  {
    forall i: nat | i < fs.g.ninodes ensures DiskInode(Relock(fs, j), i) == DiskInode(fs, i) {}
  }

  lemma {:induction false} ClaimCache(fs: Fs, cached: map<nat, Inode>, i: nat, kind: Uint)
    requires Shaped(fs) && DiskInode(fs, fs.inum) == fs.ip && CacheOk(fs, cached)
    requires i < fs.g.ninodes && Type(DiskInode(fs, i).kind) == 0
    ensures CacheOk(Ialloced(fs, i, kind), Stow(cached, fs.inum, fs.ip))
  {
    var fs1 := Fs(fs.g, fs.blocks, i, Inode(kind, 0, 0, NoAddrs()));
    forall j: nat | j < fs.g.ninodes && j != i ensures DiskInode(Ialloced(fs, i, kind), j) == DiskInode(fs, j) {
      UpdatedInode(fs1, j);
      assert DiskInode(fs1, j) == DiskInode(fs, j);
    }
  }

  /** So is what ialloc does. */
  lemma {:induction false} ClaimDone(s: State, i: nat, kind: Uint, fs': Fs, files': seq<File>, m: set<nat>)
    requires Represents(s.fs, s.files) && IallocTo(s.fs, s.files, i, kind, fs', files')
    requires Logs(s.fs.g, s.fs.blocks, s.logged, fs'.blocks, m)
    ensures Represents(fs', files') && StepTo(s, Ialloc(i, kind), State(fs', files', m))
  {
    IallocStep(s.fs, s.files, i, kind, fs', files');
  }

  /** The contract of writei is a step. */
  lemma {:induction false} WriteDone(s: State, off: nat, src: seq<Byte>, fs': Fs, files': seq<File>, m: set<nat>)
    requires Represents(s.fs, s.files) && Type(s.fs.ip.kind) != 0 && off <= s.fs.ip.size
    requires Settled(fs') && OthersSame(s.fs, fs') && Wrote(s.fs, fs', off, src) && fs'.ip.kind == s.fs.ip.kind
    requires fs'.ip.size == if |src| > 0 && off + |src| > s.fs.ip.size then off + |src| else s.fs.ip.size
    requires Claims(s.fs, fs', off, |src|)
    requires off <= |s.files[s.fs.inum].content|
    requires files' == s.files[s.fs.inum := File(s.fs.ip.kind, FileWrite.Splice(s.files[s.fs.inum].content, off, src))]
    requires Logs(s.fs.g, s.fs.blocks, {}, fs'.blocks, m)
    ensures Represents(fs', files') && StepTo(s, Write(off, src), State(fs', files', s.logged + m))
  {
    assert Holds(s.fs, s.fs.inum, s.files[s.fs.inum]);
    LogsMore(s.fs.g, s.fs.blocks, s.logged, fs'.blocks, m);
    WriteStep(s.fs, s.files, off, src, fs', files');
  }

  /** The inode cache: the locked inode is the one of f; the others that are valid in memory are in `cached`. */
  class Icache {
    const f: FileSys
    var cached: map<nat, Inode>
    ghost var files: seq<File>

    ghost function Abs(): State
      reads this, f
    {
      State(f.Abs(), files, f.logged)
    }

    ghost predicate Valid()
      reads this, f
    {
      Represents(f.Abs(), files) && CacheOk(f.Abs(), cached)
    }

    /** At mount, with no inode in memory. */
    constructor (f: FileSys, files: seq<File>)
      requires Represents(f.Abs(), files)
      ensures this.f == f && this.files == files && cached == map[] && Valid()
    {
      this.f, this.files, cached := f, files, map[];
    }

    /** ilock, after the iunlock of the inode locked before; false is the panic "ilock: no type". */
    method Lock(j: nat) returns (ok: bool)
      requires Valid() && j < f.g.ninodes
      modifies this`cached, f`inum, f`ip
      ensures ok <==> Type(files[j].kind) != 0
      ensures !ok ==> f.Abs() == old(f.Abs())
      ensures Valid() && (ok ==> StepTo(old(Abs()), Ilock(j), Abs()))
    {
      RelockKeeps(f.Abs(), j, files);
      assert Holds(f.Abs(), j, files[j]);
      var ip: Inode;
      if j == f.inum {
        ip := f.ip;
      } else if j in cached {
        ip := cached[j];
      } else {
        ip := GetInode(f.blocks[f.g.IBlock(j)], j % IPB);
      }
      if Type(ip.kind) == 0 {
        return false;
      }
      LockCache(f.Abs(), cached, j);
      cached := Stow(cached, f.inum, f.ip) - {j};
      f.inum, f.ip := j, ip;
      return true;
    }

    /** writei to the locked inode. */
    method Writei(src: seq<Byte>, off: Uint) returns (r: WriteResult)
      requires Valid() && |src| < 0x1_0000_0000 && Type(f.ip.kind) != 0
      modifies this`files, f`blocks, f`ip, f`logged
      ensures r.Refused? <==> off > old(f.ip.size) || off + |src| > MAXFILE * BSIZE
      ensures r.Refused? ==> Abs() == old(Abs())
      ensures r.OutOfBlocks? <==> !r.Refused? && FreeCount(old(f.Abs())) < WriteNeeds(old(f.ip.size), off, |src|)
      ensures r.Done? ==> Valid() && StepTo(old(Abs()), Write(off, src), Abs())
    {
      ghost var s, l := Abs(), f.logged;
      assert Holds(s.fs, f.inum, files[f.inum]);
      f.logged := {};
      r := f.Writei(src, off);
      if r.Done? {
        files := files[f.inum := File(f.ip.kind, FileWrite.Splice(files[f.inum].content, off, src))];
        WriteDone(s, off, src, f.Abs(), files, f.logged);
        CacheKept(s.fs, f.Abs(), cached);
      }
      f.logged := l + f.logged;
    }

    /** itrunc of the locked inode. */
    method Itrunc()
      requires Valid()
      modifies this`files, f`blocks, f`ip, f`logged
      ensures Valid() && StepTo(old(Abs()), Trunc, Abs())
    {
      ghost var s := Abs();
      Truncate.Itrunc(f);
      files := files[f.inum := File(f.ip.kind, [])];
      TruncStep(s.fs, s.files, f.Abs(), files);
    }

    /** ialloc: the first free inode gets this type; None is the panic "no inodes". */
    method Ialloc(kind: Uint) returns (r: Option<nat>)
      requires Valid() && Type(kind) != 0
      modifies this`files, this`cached, f`blocks, f`inum, f`ip, f`logged
      ensures r.None? ==> Abs() == old(Abs()) && forall k: nat :: 1 <= k < f.g.ninodes ==> Type(files[k].kind) != 0
      ensures r.Some? ==> Valid() && StepTo(old(Abs()), Step.Ialloc(r.value, kind), Abs())
      ensures r.Some? ==> 1 <= r.value && forall k: nat :: 1 <= k < r.value ==> Type(old(files)[k].kind) != 0
      ensures r.Some? ==> r.value < f.g.ninodes && Blank(DiskInode(f.Abs(), r.value), kind)
    {
      r := FreeInode();
      if r.Some? {
        Claim(r.value, kind);
      }
    }

    /** The scan of ialloc over the inodes on disk. */
    method FreeInode() returns (r: Option<nat>)
      requires Valid()
      ensures r.None? ==> forall k: nat :: 1 <= k < f.g.ninodes ==> Type(files[k].kind) != 0
      ensures r.Some? ==> 1 <= r.value < f.g.ninodes && Type(DiskInode(f.Abs(), r.value).kind) == 0
      ensures r.Some? ==> forall k: nat :: 1 <= k < r.value ==> Type(files[k].kind) != 0
    {
      var i := 1;
      while i < f.g.ninodes
        invariant 1 <= i && forall k: nat :: 1 <= k < i && k < f.g.ninodes ==> Type(files[k].kind) != 0
      {
        DiskKind(f.Abs(), files, i);
        if Type(GetInode(f.blocks[f.g.IBlock(i)], i % IPB).kind) == 0 {
          return Some(i);
        }
        i := i + 1;
      }
      return None;
    }

    /** The memset, type and log_write of ialloc; the inode locked so far stays in memory. */
    method Claim(i: nat, kind: Uint)
      requires Valid() && i < f.g.ninodes && Type(DiskInode(f.Abs(), i).kind) == 0 && Type(kind) != 0
      modifies this`files, this`cached, f`blocks, f`inum, f`ip, f`logged
      ensures Valid() && StepTo(old(Abs()), Step.Ialloc(i, kind), Abs())
      ensures Blank(DiskInode(f.Abs(), i), kind)
    {
      ghost var s := Abs();
      ClaimCache(s.fs, cached, i, kind);
      cached := Stow(cached, f.inum, f.ip);
      var ip := Inode(kind, 0, 0, NoAddrs());
      var b := f.g.IBlock(i);
      f.LogWrite(b, PutInode(f.blocks[b], i % IPB, ip));
      f.inum, f.ip := i, ip;
      files := files[i := File(kind, [])];
      ClaimDone(s, i, kind, f.Abs(), files, f.logged);
      IallocKeeps(s.fs, i, kind, s.files);
    }

    /** The end of iput for an inode without links: itrunc, type 0, iupdate. */
    method Ifree() returns (ghost mid: Fs)
      requires Valid()
      modifies this`files, f`blocks, f`ip, f`logged
      ensures Valid() && StepTo(old(Abs()), Step.Ifree(mid), Abs())
    {
      ghost var s := Abs();
      Truncate.Itrunc(f);
      mid := f.Abs();
      ghost var l := f.logged;
      f.ip := Inode(Free(f.ip.kind), f.ip.links, f.ip.size, f.ip.addrs);
      ghost var fs1 := f.Abs();
      var b := f.g.IBlock(f.inum);
      f.LogWrite(b, PutInode(f.blocks[b], f.inum % IPB, f.ip));
      LogsTrans(f.g, s.fs.blocks, s.logged, mid.blocks, l, f.blocks, f.logged);
      files := files[f.inum := File(f.ip.kind, [])];
      IfreeStep(s.fs, s.files, mid, f.Abs(), files);
      forall j: nat | j < f.g.ninodes && j != f.inum ensures DiskInode(f.Abs(), j) == DiskInode(s.fs, j) {
        UpdatedInode(fs1, j);
        assert DiskInode(fs1, j) == DiskInode(mid, j);
      }
    }
  }

  lemma {:induction false} LogsMore(g: Geometry, bs: seq<Block>, l: set<nat>, bs': seq<Block>, m: set<nat>)
    requires Logs(g, bs, {}, bs', m)
    ensures Logs(g, bs, l, bs', l + m)
  {
  }

  lemma {:induction false} DiskKind(fs: Fs, files: seq<File>, i: nat)
    requires Represents(fs, files) && i < fs.g.ninodes
    ensures DiskInode(fs, i).kind == files[i].kind
  {
    assert Holds(fs, i, files[i]);
  }

  // ---------- any list of calls ----------

  datatype Call = LockCall(j: nat) | WriteCall(src: seq<Byte>, off: Uint) | TruncCall | AllocCall(kind: Uint) | FreeCall

  /** What a caller passes: an inode number of the disk, a length that fits, a type. */
  predicate CallOk(g: Geometry, c: Call) {
    match c
    case LockCall(j) => j < g.ninodes
    case WriteCall(src, _) => |src| < 0x1_0000_0000
    case AllocCall(kind) => Type(kind) != 0
    case TruncCall => true
    case FreeCall => true
  }

  predicate Refuses(s: State, off: nat, n: nat) {
    off > s.fs.ip.size || off + n > MAXFILE * BSIZE
  }

  /** The call ends in a panic: an inode without a type, too few blocks, or no free inode. */
  ghost predicate Panics(s: State, c: Call)
    requires Represents(s.fs, s.files) && CallOk(s.fs.g, c)
  {
    match c
    case LockCall(j) => Type(s.files[j].kind) == 0
    case WriteCall(src, off) =>
      || Type(s.fs.ip.kind) == 0
      || (!Refuses(s, off, |src|) && FreeCount(s.fs) < WriteNeeds(s.fs.ip.size, off, |src|))
    case AllocCall(_) => forall k: nat :: 1 <= k < s.fs.g.ninodes ==> Type(s.files[k].kind) != 0
    case TruncCall => false
    case FreeCall => false
  }

  /** What the call does when it returns. */
  ghost predicate CallTo(s: State, c: Call, s': State)
    requires Represents(s.fs, s.files)
  {
    match c
    case LockCall(j) => StepTo(s, Ilock(j), s')
    case WriteCall(src, off) => if Refuses(s, off, |src|) then s' == s else StepTo(s, Write(off, src), s')
    case TruncCall => StepTo(s, Trunc, s')
    case AllocCall(kind) => exists i: nat :: StepTo(s, Ialloc(i, kind), s')
    case FreeCall => exists mid: Fs :: StepTo(s, Ifree(mid), s')
  }

  method PerformLock(ic: Icache, j: nat) returns (ok: bool)
    requires ic.Valid() && j < ic.f.g.ninodes
    modifies ic, ic.f
    ensures ok <==> !Panics(old(ic.Abs()), LockCall(j))
    ensures ok ==> ic.Valid() && CallTo(old(ic.Abs()), LockCall(j), ic.Abs())
  {
    ok := ic.Lock(j);
  }

  method PerformWrite(ic: Icache, src: seq<Byte>, off: Uint) returns (ok: bool)
    requires ic.Valid() && |src| < 0x1_0000_0000
    modifies ic, ic.f
    ensures ok <==> !Panics(old(ic.Abs()), WriteCall(src, off))
    ensures ok ==> ic.Valid() && CallTo(old(ic.Abs()), WriteCall(src, off), ic.Abs())
  {
    if Type(ic.f.ip.kind) == 0 {
      return false;
    }
    var r := ic.Writei(src, off);
    return !r.OutOfBlocks?;
  }

  method PerformAlloc(ic: Icache, kind: Uint) returns (ok: bool)
    requires ic.Valid() && Type(kind) != 0
    modifies ic, ic.f
    ensures ok <==> !Panics(old(ic.Abs()), AllocCall(kind))
    ensures ok ==> ic.Valid() && CallTo(old(ic.Abs()), AllocCall(kind), ic.Abs())
  {
    ghost var s := ic.Abs();
    var r := ic.Ialloc(kind);
    if r.Some? {
      AllocNeedsFree(s, kind, r.value, ic.Abs());
    }
    return r.Some?;
  }

  lemma {:induction false} AllocNeedsFree(s: State, kind: Uint, i: nat, s': State)
    requires Represents(s.fs, s.files) && Type(kind) != 0 && 1 <= i && StepTo(s, Ialloc(i, kind), s')
    ensures !Panics(s, AllocCall(kind)) && CallTo(s, AllocCall(kind), s')
  {
    DiskKind(s.fs, s.files, i);
    assert Type(s.files[i].kind) == 0;
  }

  method PerformFree(ic: Icache)
    requires ic.Valid()
    modifies ic, ic.f
    ensures ic.Valid() && CallTo(old(ic.Abs()), FreeCall, ic.Abs())
  {
    ghost var mid := ic.Ifree();
  }

  /** One call; ok is false exactly at a panic. */
  method PerformOne(ic: Icache, c: Call) returns (ok: bool)
    requires ic.Valid() && CallOk(ic.f.g, c)
    modifies ic, ic.f
    ensures ok <==> !Panics(old(ic.Abs()), c)
    ensures ok ==> ic.Valid() && CallTo(old(ic.Abs()), c, ic.Abs())
  {
    match c {
      case LockCall(j) => ok := PerformLock(ic, j);
      case WriteCall(src, off) => ok := PerformWrite(ic, src, off);
      case AllocCall(kind) => ok := PerformAlloc(ic, kind);
      case TruncCall =>
        ic.Itrunc();
        ok := true;
      case FreeCall =>
        PerformFree(ic);
        ok := true;
    }
  }

  /** Call i leads from state i to the next, and in both the disk holds the files of the reference. */
  ghost predicate MadeOne(h: seq<State>, calls: seq<Call>, i: nat) {
    && i < |calls| && i + 1 < |h| && Represents(h[i].fs, h[i].files) && Represents(h[i + 1].fs, h[i + 1].files)
    && CallTo(h[i], calls[i], h[i + 1])
  }

  /** Making these calls leads through the states h. */
  ghost predicate Made(h: seq<State>, calls: seq<Call>) {
    |h| == |calls| + 1 && forall i: nat :: i < |calls| ==> MadeOne(h, calls, i)
  }

  lemma {:induction false} MadeMore(h: seq<State>, calls: seq<Call>, h': seq<State>, calls': seq<Call>, s: State,
                                    c: Call)
    requires Made(h, calls) && Represents(h[|calls|].fs, h[|calls|].files)
    requires CallTo(h[|calls|], c, s) && Represents(s.fs, s.files) && h' == h + [s] && calls' == calls + [c]
    ensures Made(h', calls')
  {
    forall i: nat | i < |calls'| ensures MadeOne(h', calls', i) {
      if i < |calls| {
        assert MadeOne(h, calls, i);
        MadeStill(h, calls, h', calls', i);
      }
    }
  }

  lemma {:induction false} MadeStill(h: seq<State>, calls: seq<Call>, h': seq<State>, calls': seq<Call>, i: nat)
    requires MadeOne(h, calls, i) && h <= h' && calls <= calls'
    ensures MadeOne(h', calls', i)
  {
    assert h'[i] == h[i] && h'[i + 1] == h[i + 1] && calls'[i] == calls[i];
  }

  /** Any list of calls, up to the first that panics: n of them are made, through the states h. */
  method Perform(ic: Icache, calls: seq<Call>) returns (n: nat, ghost h: seq<State>)
    requires ic.Valid() && forall i :: 0 <= i < |calls| ==> CallOk(ic.f.g, calls[i])
    modifies ic, ic.f
    ensures n <= |calls| && Made(h, calls[..n]) && h[0] == old(ic.Abs())
    ensures n < |calls| ==> Represents(h[n].fs, h[n].files) && h[n].fs.g == ic.f.g && Panics(h[n], calls[n])
    ensures n == |calls| ==> ic.Valid() && h[n] == ic.Abs()
  {
    h, n := [ic.Abs()], 0;
    while n < |calls|
      invariant n <= |calls| && Made(h, calls[..n]) && h[0] == old(ic.Abs()) && ic.Valid() && h[n] == ic.Abs()
    {
      assert calls[..n + 1] == calls[..n] + [calls[n]];
      var ok := PerformOne(ic, calls[n]);
      if !ok {
        return;
      }
      MadeMore(h, calls[..n], h + [ic.Abs()], calls[..n + 1], ic.Abs(), calls[n]);
      h := h + [ic.Abs()];
      n := n + 1;
    }
  }
}
