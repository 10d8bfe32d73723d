/** The file system through crashes: calls of fs.c grouped into transactions of log.c, each cut after any number
    of its disk writes and recovered. */
module FsCrash {
  import opened Blocks
  import opened CrashRecovery
  import opened FsLayout
  import opened FileSystem
  import opened Inodes
  import BlockStore
  import Log
  import Mkfs

  /** The file system that a kernel finds on disk, with inode j read from it. */
  function OnDisk(g: Geometry, d: seq<Block>, j: nat): (fs: Fs)
    requires g.Valid() && |d| == g.size && j < g.ninodes
    ensures Shaped(fs)
  {
    Fs(g, d, j, GetInode(d[g.IBlock(j)], j % IPB))
  }

  /** The log lies before the inodes, the bitmap and the data. */
  predicate Placed(lay: Layout, g: Geometry) {
    g.Valid() && 0 < g.ninodes && lay.start + lay.size <= g.inodestart
  }

  /** Between transactions: the log is empty and the disk holds these files. */
  ghost predicate DiskHolds(lay: Layout, g: Geometry, d: seq<Block>, files: seq<File>) {
    Placed(lay, g) && |d| == g.size && Idle(lay, d) && Represents(OnDisk(g, d, 0), files)
  }

  /** Everything the file system reads is outside the log. */
  lemma {:induction false} HomesDetermine(lay: Layout, g: Geometry, a: seq<Block>, b: seq<Block>, files: seq<File>)
    requires Placed(lay, g) && |a| == |b| == g.size && SameHomes(lay, a, b) && Represents(OnDisk(g, a, 0), files)
    ensures Represents(OnDisk(g, b, 0), files)
  {
    var fs, fs' := OnDisk(g, a, 0), OnDisk(g, b, 0);
    forall i: nat | i < g.ninodes ensures DiskInode(fs', i) == DiskInode(fs, i) {
      assert a[g.IBlock(i)] == b[g.IBlock(i)];
    }
    assert fs'.ip == fs.ip by {
      assert a[g.IBlock(0)] == b[g.IBlock(0)];
    }
    SameView(fs, fs', lay);
    OwnedSame(fs, fs');
    NoLeakSame(fs, fs');
    forall i: nat | i < |files| ensures Holds(fs', i, files[i]) {
      HoldsSame(fs, fs', i, files[i]);
    }
  }

  lemma {:induction false} SameView(fs: Fs, fs': Fs, lay: Layout)
    requires Owned(fs) && Shaped(fs') && fs'.g == fs.g && fs'.inum == fs.inum && fs'.ip == fs.ip && Placed(lay, fs.g)
    requires SameHomes(lay, fs.blocks, fs'.blocks) && SameInodes(fs, fs')
    ensures SameRefs(fs, fs') && SameUsed(fs, fs') && SameBytes(fs, fs')
  {
    forall x: nat | x < fs.g.size ensures Used(fs', x) == Used(fs, x) {
      assert !lay.InLog(fs.g.BBlock(x));
    }
    forall s: Slot | s.Valid(fs.g) ensures Ref(fs', s) == Ref(fs, s) {
      assert Node(fs', s.i) == Node(fs, s.i);
      if s.Entry? {
        assert RefOk(fs, Indirect(s.i));
      }
    }
    forall i: nat, o: nat | i < fs.g.ninodes && o < MAXFILE * BSIZE ensures FileByte(fs', i, o) == FileByte(fs, i, o) {
      var s := DataSlot(i, o / BSIZE);
      assert RefOk(fs, s) && Ref(fs', s) == Ref(fs, s);
    }
  }

  // ---------- one transaction ----------

  /** The states of its calls, the logged blocks in the order of log.lh, the number of commit's disk writes before
      the machine stops, and where the recoveries that follow are cut. */
  datatype Transaction = Transaction(h: seq<State>, lh: seq<nat>, cut: nat, rebooted: bool, cuts: seq<nat>) {
    function Last(): State
      requires h != []
    {
      h[|h| - 1]
    }

    /** A transaction that logged nothing has nothing to commit. */
    predicate Durable() { lh == [] || cut > |lh| }
  }

  /** The blocks that commit writes. */
  ghost function Data(t: Transaction): seq<Block>
    requires t.h != [] && forall i :: 0 <= i < |t.lh| ==> t.lh[i] < |t.Last().fs.blocks|
  {
    seq(|t.lh|, i requires 0 <= i < |t.lh| => t.Last().fs.blocks[t.lh[i]])
  }

  /** Calls that start from the disk d with these files, and whose logged blocks fit the log. */
  ghost predicate Fits(lay: Layout, g: Geometry, d: seq<Block>, files: seq<File>, t: Transaction) {
    && Run(t.h) && t.h[0].fs.g == g && t.h[0].fs.blocks == d && t.h[0].files == files && t.h[0].logged == {}
    && Represents(t.h[0].fs, files)
    && Log.Distinct(t.lh) && (forall x :: x in t.lh <==> x in t.Last().logged)
    && |t.lh| <= lay.logsize && |t.lh| < lay.size
    && t.cut <= 2 * |t.lh| + 2 && (t.cut < 2 * |t.lh| + 2 ==> t.rebooted)
  }

  /** A run of calls changes only blocks that it logs, all of them behind the log. */
  lemma {:induction false} RunLogs(h: seq<State>)
    requires Run(h) && Represents(h[0].fs, h[0].files)
    ensures Logs(h[0].fs.g, h[0].fs.blocks, h[0].logged, h[|h| - 1].fs.blocks, h[|h| - 1].logged)
  {
    if |h| > 1 {
      var h' := h[..|h| - 1];
      RunLogs(h');
      RunKeeps(h');
      var s, s' := h[|h| - 2], h[|h| - 1];
      var a: Inodes.Step :| Inodes.StepTo(s, a, s');
      LogsTrans(s.fs.g, h[0].fs.blocks, h[0].logged, s.fs.blocks, s.logged, s'.fs.blocks, s'.logged);
    }
  }

  lemma {:induction false} FitsHomes(lay: Layout, g: Geometry, d: seq<Block>, files: seq<File>, t: Transaction)
    requires DiskHolds(lay, g, d, files) && Fits(lay, g, d, files, t)
    ensures HomesOk(lay, |d|, t.lh) && |t.Last().fs.blocks| == |d|
    ensures InRange(Installs(t.lh, Data(t)), |d|) && Apply(d, Installs(t.lh, Data(t))) == t.Last().fs.blocks
  {
    RunLogs(t.h);
    forall i | 0 <= i < |t.lh| ensures t.lh[i] < |d| && !lay.InLog(t.lh[i]) {
      assert t.lh[i] in t.Last().logged;
    }
    var after, ws := t.Last().fs.blocks, Installs(t.lh, Data(t));
    forall x: nat | x < |d| ensures Apply(d, ws)[x] == after[x] {
      BlockStore.InstallsAt(d, t.lh, Data(t), x);
      if x in t.lh {
        var i :| 0 <= i < |t.lh| && t.lh[i] == x;
      }
    }
  }

  /** The disk after the transaction, and the crash and recoveries if it was cut. */
  ghost function DiskAfter(lay: Layout, g: Geometry, d: seq<Block>, files: seq<File>, t: Transaction): seq<Block>
    requires DiskHolds(lay, g, d, files) && Fits(lay, g, d, files, t)
  {
    FitsHomes(lay, g, d, files, t);
    if t.lh == [] then d else CrashRecovery.Step(lay, d, Txn(t.lh, Data(t), t.cut, t.rebooted, t.cuts))
  }

  function FilesAfter(files: seq<File>, t: Transaction): seq<File>
    requires t.h != []
  {
    if t.Durable() then t.Last().files else files
  }

  /** Whole or not at all, as files. */
  lemma {:induction false} TransactionAtomic(lay: Layout, g: Geometry, d: seq<Block>, files: seq<File>, t: Transaction)
    requires DiskHolds(lay, g, d, files) && Fits(lay, g, d, files, t)
    ensures DiskHolds(lay, g, DiskAfter(lay, g, d, files, t), FilesAfter(files, t))
  {
    FitsHomes(lay, g, d, files, t);
    RunKeeps(t.h);
    var s, d' := t.Last(), DiskAfter(lay, g, d, files, t);
    RelockKeeps(s.fs, 0, s.files);
    assert Relock(s.fs, 0) == OnDisk(g, s.fs.blocks, 0);
    if t.lh == [] {
      assert Apply(d, Installs(t.lh, Data(t))) == d;
    } else {
      var txn := Txn(t.lh, Data(t), t.cut, t.rebooted, t.cuts);
      OneTransaction(lay, d, txn);
      if t.Durable() {
        HomesDetermine(lay, g, s.fs.blocks, d', s.files);
      } else {
        HomesDetermine(lay, g, d, d', files);
      }
    }
  }

  /** A step of the history is its transaction, or nothing. */
  lemma {:induction false} OneTransaction(lay: Layout, d: seq<Block>, t: Txn)
    requires Idle(lay, d) && t.Valid(lay, |d|)
    ensures InRange(Installs(t.lh, t.data), |d|)
    ensures SameHomes(lay, if t.Durable() then Apply(d, Installs(t.lh, t.data)) else d, CrashRecovery.Step(lay, d, t))
  {
    CrashAtomic(lay, d, t.lh, t.data, t.cut, t.cuts);
    if !t.rebooted {
      AfterHead(lay, d, t.lh, t.data, t.cut);
      BlockStore.EmptyLogical(lay, CutCommit(lay, d, t.lh, t.data, t.cut));
    }
  }

  // ---------- whole histories ----------

  /** A disk and the files that its durable transactions have left. */
  datatype Store = Store(d: seq<Block>, files: seq<File>)

  /** (From a disk that does not hold its files, anything may follow.) */
  ghost predicate Becomes(lay: Layout, g: Geometry, s: Store, s': Store) {
    DiskHolds(lay, g, s.d, s.files) ==>
      exists t: Transaction :: Fits(lay, g, s.d, s.files, t)
        && s' == Store(DiskAfter(lay, g, s.d, s.files, t), FilesAfter(s.files, t))
  }

  ghost predicate Chain(lay: Layout, g: Geometry, h: seq<Store>) {
    |h| > 0 && (|h| > 1 ==> Chain(lay, g, h[..|h| - 1]) && Becomes(lay, g, h[|h| - 2], h[|h| - 1]))
  }

  lemma {:induction false} ChainHolds(lay: Layout, g: Geometry, h: seq<Store>)
    requires Chain(lay, g, h) && DiskHolds(lay, g, h[0].d, h[0].files)
    ensures DiskHolds(lay, g, h[|h| - 1].d, h[|h| - 1].files)
  {
    if |h| > 1 {
      ChainHolds(lay, g, h[..|h| - 1]);
      var s := h[|h| - 2];
      var t: Transaction :| Fits(lay, g, s.d, s.files, t)
        && h[|h| - 1] == Store(DiskAfter(lay, g, s.d, s.files, t), FilesAfter(s.files, t));
      TransactionAtomic(lay, g, s.d, s.files, t);
    }
  }

  lemma {:induction false} FreshHolds(lay: Layout, g: Geometry)
    requires Placed(lay, g) && lay.Valid(g.size) && g.datastart < BPB
    ensures DiskHolds(lay, g, Mkfs.FreshBlocks(g, g.size), NoFiles(g.ninodes))
  {
    var d := Mkfs.FreshBlocks(g, g.size);
    assert d[lay.start] == ZeroBlock();
    WordOfZero(0);
    Mkfs.ZeroInode(0);
    assert OnDisk(g, d, 0) == Mkfs.Fresh(g, 0);
    FreshRepresents(g, 0);
  }

  /** From the fresh disk, over every sequence of transactions of ilock, writei, itrunc, ialloc and iput calls, each
      cut after any number of disk writes and recovered through any number of interrupted recoveries: the disk
      keeps ownership without leaks, no-holes and written-through inodes, and file i is exactly what the durable
      transactions, and they alone, make of it. */
  lemma {:induction false} FilesSurvive(lay: Layout, g: Geometry, h: seq<Store>, i: nat)
    requires Placed(lay, g) && lay.Valid(g.size) && g.datastart < BPB && i < g.ninodes
    requires Chain(lay, g, h) && h[0] == Store(Mkfs.FreshBlocks(g, g.size), NoFiles(g.ninodes))
    ensures var s := h[|h| - 1];
            && |s.d| == g.size && |s.files| == g.ninodes
            && var fs := OnDisk(g, s.d, 0);
            && Owned(fs) && NoHoles(fs, i, Node(fs, i).size) && Content(fs, i) == s.files[i].content
            && (forall b: nat :: b < g.size ==> (Used(fs, b) <==> b < g.datastart || Named(fs, b)))
  {
    FreshHolds(lay, g);
    ChainHolds(lay, g, h);
    var s := h[|h| - 1];
    UsedExactly(OnDisk(g, s.d, 0));
    assert Holds(OnDisk(g, s.d, 0), i, s.files[i]);
  }
}
