/** The on-disk structures of fs.c: free map, inodes, direct and indirect blocks, and which block
    every block reference of every inode names. */
module FsLayout {
  import opened Blocks

  const NDIRECT := 12
  const NINDIRECT := 128
  const MAXFILE := 140 // NDIRECT + NINDIRECT
  const IPB := 8       // inodes per block
  const BPB := 4096    // bitmap bits per block

  /** The superblock fields that locate things; `datastart` is the first block mkfs leaves for data. */
  datatype Geometry = Geometry(size: nat, ninodes: nat, inodestart: nat, bmapstart: nat, datastart: nat) {
    predicate Valid() {
      && 0 < inodestart && inodestart + ninodes / IPB < bmapstart
      && bmapstart + size / BPB < datastart <= size < 0x1_0000_0000
    }

    /** IBLOCK */
    function IBlock(inum: nat): nat { inum / IPB + inodestart }

    /** BBLOCK */
    function BBlock(b: nat): nat { b / BPB + bmapstart }
  }

  /** An inode: the two words that hold type, major, minor and nlink, then size and addrs. */
  datatype Inode = Inode(kind: Uint, links: Uint, size: Uint, addrs: seq<Uint>) {
    predicate Valid() { |addrs| == NDIRECT + 1 }
  }

  function InodeWords(ip: Inode): (ws: seq<Uint>)
    requires ip.Valid()
    ensures |ws| == 16
  {
    [ip.kind, ip.links, ip.size] + ip.addrs
  }

  function PutInode(b: Block, slot: nat, ip: Inode): Block
    requires ip.Valid() && slot < IPB
  {
    PutWords(b, 16 * slot, InodeWords(ip))
  }

  function GetInode(b: Block, slot: nat): (ip: Inode)
    requires slot < IPB
    ensures ip.Valid()
  {
    Inode(Word(b, 16 * slot), Word(b, 16 * slot + 1), Word(b, 16 * slot + 2), GetWords(b, 16 * slot + 3, NDIRECT + 1))
  }

  /** The words of an inode slot determine the inode. */
  lemma {:induction false} SameInode(b: Block, c: Block, slot: nat)
    requires slot < IPB && forall w :: 16 * slot <= w < 16 * slot + 16 ==> Word(b, w) == Word(c, w)
    ensures GetInode(b, slot) == GetInode(c, slot)
  {
    var r, q := GetInode(b, slot).addrs, GetInode(c, slot).addrs;
    forall k | 0 <= k < NDIRECT + 1 ensures r[k] == q[k] {
      assert Word(b, 16 * slot + 3 + k) == Word(c, 16 * slot + 3 + k);
    }
  }

  lemma {:induction false} InodeStored(b: Block, slot: nat, ip: Inode)
    requires ip.Valid() && slot < IPB
    ensures GetInode(PutInode(b, slot, ip), slot) == ip
  {
    var ws := InodeWords(ip);
    WordOfPutWords(b, 16 * slot, ws, 16 * slot);
    WordOfPutWords(b, 16 * slot, ws, 16 * slot + 1);
    WordOfPutWords(b, 16 * slot, ws, 16 * slot + 2);
    var r := GetInode(PutInode(b, slot, ip), slot).addrs;
    forall k | 0 <= k < NDIRECT + 1 ensures r[k] == ip.addrs[k] {
      WordOfPutWords(b, 16 * slot, ws, 16 * slot + 3 + k);
    }
    assert r == ip.addrs;
  }

  /** iupdate then ilock: the inode round-trips and its neighbours in the block are untouched. */
  /** struct dinode in its slot of 64 bytes: the words from 64 * slot on, and nothing else of the block. */
  lemma {:induction false} InodeLayout(b: Block, slot: nat, ip: Inode, j: nat)
    requires ip.Valid() && slot < IPB && j < WORDS
    ensures Word(PutInode(b, slot, ip), j) ==
              if j == 16 * slot then ip.kind else if j == 16 * slot + 1 then ip.links
              else if j == 16 * slot + 2 then ip.size
              else if 16 * slot + 3 <= j < 16 * slot + 16 then ip.addrs[j - 16 * slot - 3] else Word(b, j)
  {
    WordOfPutWords(b, 16 * slot, InodeWords(ip), j);
  }

  lemma {:induction false} InodeOfPutInode(b: Block, slot: nat, ip: Inode, j: nat)
    requires ip.Valid() && slot < IPB && j < IPB
    ensures GetInode(PutInode(b, slot, ip), j) == if j == slot then ip else GetInode(b, j)
  {
    if j == slot {
      InodeStored(b, slot, ip);
    } else {
      forall w | 16 * j <= w < 16 * j + 16 ensures Word(PutInode(b, slot, ip), w) == Word(b, w) {
        WordOfPutWords(b, 16 * slot, InodeWords(ip), w);
      }
      SameInode(PutInode(b, slot, ip), b, j);
    }
  }

  // ---------- the file system as blocks plus one locked inode ----------

  /** Block contents as bread returns them, and the in-memory copy of the inode being worked on. */
  datatype Fs = Fs(g: Geometry, blocks: seq<Block>, inum: nat, ip: Inode)

  predicate Shaped(fs: Fs) {
    fs.g.Valid() && |fs.blocks| == fs.g.size && fs.inum < fs.g.ninodes && fs.ip.Valid()
  }

  function DiskInode(fs: Fs, i: nat): (r: Inode)
    requires Shaped(fs) && i < fs.g.ninodes
    ensures r.Valid()
  {
    GetInode(fs.blocks[fs.g.IBlock(i)], i % IPB)
  }

  /** Inode i as the kernel knows it. */
  function Node(fs: Fs, i: nat): (r: Inode)
    requires Shaped(fs) && i < fs.g.ninodes
    ensures r.Valid()
  {
    if i == fs.inum then fs.ip else DiskInode(fs, i)
  }

  predicate Used(fs: Fs, b: nat)
    requires Shaped(fs) && b < fs.g.size
  {
    Bit(fs.blocks[fs.g.BBlock(b)], b % BPB)
  }

  /** A place that can name a block: addrs[k], addrs[NDIRECT], or entry k of the indirect block. */
  datatype Slot = Direct(i: nat, k: nat) | Indirect(i: nat) | Entry(i: nat, k: nat) {
    predicate Valid(g: Geometry) {
      i < g.ninodes && (Direct? ==> k < NDIRECT) && (Entry? ==> k < NINDIRECT)
    }
  }

  /** The block a slot names; 0 is none. */
  function Ref(fs: Fs, s: Slot): Uint
    requires Shaped(fs) && s.Valid(fs.g)
  {
    match s
    case Direct(i, k) => Node(fs, i).addrs[k]
    case Indirect(i) => Node(fs, i).addrs[NDIRECT]
    case Entry(i, k) =>
      var a := Node(fs, i).addrs[NDIRECT];
      if a == 0 || a >= fs.g.size then 0 else Word(fs.blocks[a], k)
  }

  predicate RefOk(fs: Fs, s: Slot)
    requires Shaped(fs) && s.Valid(fs.g)
  {
    Ref(fs, s) != 0 ==> fs.g.datastart <= Ref(fs, s) < fs.g.size && Used(fs, Ref(fs, s))
  }

  /** Block ownership: every reference names a data block marked in use, no block is named twice
      (within or across inodes), and the metadata blocks are marked in use. */
  ghost predicate Owned(fs: Fs) {
    && Shaped(fs)
    && (forall b :: 0 <= b < fs.g.datastart ==> Used(fs, b))
    && (forall s: Slot :: s.Valid(fs.g) ==> RefOk(fs, s))
    && (forall s: Slot, t: Slot :: s.Valid(fs.g) && t.Valid(fs.g) && s != t && Ref(fs, s) != 0 ==>
           Ref(fs, s) != Ref(fs, t))
  }

  ghost predicate Unreferenced(fs: Fs, b: nat)
    requires Shaped(fs)
  {
    forall s: Slot :: s.Valid(fs.g) ==> Ref(fs, s) != b
  }

  /** The slot of data block n of file i. */
  function DataSlot(i: nat, n: nat): (s: Slot)
    requires n < MAXFILE
  {
    if n < NDIRECT then Direct(i, n) else Entry(i, n - NDIRECT)
  }

  /** Byte o of file i; a block that is not there reads as zeros. */
  function FileByte(fs: Fs, i: nat, o: nat): Byte
    requires Shaped(fs) && i < fs.g.ninodes && o < MAXFILE * BSIZE
  {
    var a := Ref(fs, DataSlot(i, o / BSIZE));
    if a == 0 || a >= fs.g.size then 0 else fs.blocks[a][o % BSIZE]
  }

  ghost predicate SameRefs(fs: Fs, fs': Fs) {
    && Shaped(fs) && Shaped(fs') && fs'.g == fs.g
    && forall s: Slot :: s.Valid(fs.g) ==> Ref(fs', s) == Ref(fs, s)
  }

  ghost predicate SameBytes(fs: Fs, fs': Fs) {
    && Shaped(fs) && Shaped(fs') && fs'.g == fs.g
    && forall i: nat, o: nat :: i < fs.g.ninodes && o < MAXFILE * BSIZE ==> FileByte(fs', i, o) == FileByte(fs, i, o)
  }

  ghost predicate SameInodes(fs: Fs, fs': Fs) {
    && Shaped(fs) && Shaped(fs') && fs'.g == fs.g
    && forall i: nat :: i < fs.g.ninodes ==> DiskInode(fs', i) == DiskInode(fs, i)
  }

  // ---------- allocating ----------

  function SetUsed(fs: Fs, b: nat, on: bool): (r: Fs)
    requires Shaped(fs) && b < fs.g.size
    ensures Shaped(r)
  {
    Fs(fs.g, fs.blocks[fs.g.BBlock(b) := PutBit(fs.blocks[fs.g.BBlock(b)], b % BPB, on)], fs.inum, fs.ip)
  }

  function SetBlock(fs: Fs, b: nat, d: Block): (r: Fs)
    requires Shaped(fs) && b < fs.g.size
    ensures Shaped(r)
  {
    Fs(fs.g, fs.blocks[b := d], fs.inum, fs.ip)
  }

  lemma {:induction false} UsedAfter(fs: Fs, b: nat, on: bool, x: nat)
    requires Shaped(fs) && b < fs.g.size && x < fs.g.size
    ensures Used(SetUsed(fs, b, on), x) == if x == b then on else Used(fs, x)
  {
    BitOfPutBit(fs.blocks[fs.g.BBlock(b)], b % BPB, on, x % BPB);
    assert x == b <==> x / BPB == b / BPB && x % BPB == b % BPB;
  }

  predicate InMap(g: Geometry, b: nat) {
    g.bmapstart <= b < g.datastart
  }

  /** A change inside the free map changes no reference, inode or byte. */
  lemma {:induction false} MapOnly(fs: Fs, fs': Fs)
    requires Owned(fs) && Shaped(fs') && fs' == fs.(blocks := fs'.blocks)
    requires forall x: nat :: x < fs.g.size && !InMap(fs.g, x) ==> fs'.blocks[x] == fs.blocks[x]
    ensures SameRefs(fs, fs') && SameInodes(fs, fs') && SameBytes(fs, fs')
  {
    forall i: nat | i < fs.g.ninodes ensures DiskInode(fs', i) == DiskInode(fs, i) {
      assert !InMap(fs.g, fs.g.IBlock(i));
    }
    forall s: Slot | s.Valid(fs.g) ensures Ref(fs', s) == Ref(fs, s) {
      if s.Entry? {
        assert RefOk(fs, Indirect(s.i));
        assert !InMap(fs.g, Ref(fs, Indirect(s.i)));
      }
    }
    forall i: nat, o: nat | i < fs.g.ninodes && o < MAXFILE * BSIZE ensures FileByte(fs', i, o) == FileByte(fs, i, o) {
      var s := DataSlot(i, o / BSIZE);
      assert RefOk(fs, s) && Ref(fs', s) == Ref(fs, s);
      assert !InMap(fs.g, Ref(fs, s));
    }
  }

  /** Flipping the bit of one block changes nothing else: not a reference, an inode or a byte. */
  lemma {:induction false} SetUsedEffect(fs: Fs, b: nat, on: bool)
    requires Owned(fs) && b < fs.g.size
    ensures var fs' := SetUsed(fs, b, on);
            && SameRefs(fs, fs') && SameInodes(fs, fs') && SameBytes(fs, fs')
            && (forall x: nat :: x < fs.g.size ==> Used(fs', x) == if x == b then on else Used(fs, x))
  {
    var fs' := SetUsed(fs, b, on);
    forall x: nat | x < fs.g.size ensures Used(fs', x) == if x == b then on else Used(fs, x) {
      UsedAfter(fs, b, on, x);
    }
    assert InMap(fs.g, fs.g.BBlock(b));
    MapOnly(fs, fs');
  }

  /** Overwriting a data block nobody references (bzero of a fresh block). */
  lemma {:induction false} SetFreshEffect(fs: Fs, b: nat, d: Block)
    requires Owned(fs) && fs.g.datastart <= b < fs.g.size && Unreferenced(fs, b)
    ensures var fs' := SetBlock(fs, b, d);
            SameRefs(fs, fs') && SameInodes(fs, fs') && SameBytes(fs, fs') && Owned(fs') && Unreferenced(fs', b)
  {
    var fs' := SetBlock(fs, b, d);
    forall i: nat | i < fs.g.ninodes ensures DiskInode(fs', i) == DiskInode(fs, i) {}
    forall x: nat | x < fs.g.size ensures Used(fs', x) == Used(fs, x) {}
    forall s: Slot | s.Valid(fs.g) ensures Ref(fs', s) == Ref(fs, s) {
      if s.Entry? {
        assert Ref(fs, Indirect(s.i)) != b;
      }
    }
    OwnedSame(fs, fs');
    forall i: nat, o: nat | i < fs.g.ninodes && o < MAXFILE * BSIZE ensures FileByte(fs', i, o) == FileByte(fs, i, o) {
      assert Ref(fs, DataSlot(i, o / BSIZE)) != b;
    }
  }

  /** Ownership depends only on references and bits. */
  lemma {:induction false} OwnedSame(fs: Fs, fs': Fs)
    requires Owned(fs) && SameRefs(fs, fs')
    requires forall x: nat :: x < fs.g.size ==> Used(fs, x) ==> Used(fs', x)
    ensures Owned(fs')
  {
    forall s: Slot | s.Valid(fs.g) ensures RefOk(fs', s) {
      assert RefOk(fs, s);
    }
  }

  ghost predicate SameUsed(fs: Fs, fs': Fs) {
    && Shaped(fs) && Shaped(fs') && fs'.g == fs.g
    && forall x: nat :: x < fs.g.size ==> Used(fs', x) == Used(fs, x)
  }

  /** balloc's effect once it has found block b: mark it, and zero it. */
  function Allocated(fs: Fs, b: nat): (r: Fs)
    requires Shaped(fs) && b < fs.g.size
    ensures Shaped(r)
  {
    SetBlock(SetUsed(fs, b, true), b, ZeroBlock())
  }

  /** A block handed out is a data block, named by no slot, and now marked and zero. */
  lemma {:induction false} AllocatedEffect(fs: Fs, b: nat)
    requires Owned(fs) && b < fs.g.size && !Used(fs, b)
    ensures var fs' := Allocated(fs, b);
            && fs.g.datastart <= b && Owned(fs') && SameRefs(fs, fs') && SameInodes(fs, fs') && SameBytes(fs, fs')
            && Unreferenced(fs', b) && fs'.blocks[b] == ZeroBlock()
            && (forall x: nat :: x < fs.g.size ==> Used(fs', x) == (x == b || Used(fs, x)))
  {
    var fs1 := SetUsed(fs, b, true);
    SetUsedEffect(fs, b, true);
    OwnedSame(fs, fs1);
    forall s: Slot | s.Valid(fs.g) ensures Ref(fs1, s) != b {
      assert RefOk(fs, s);
    }
    SetFreshEffect(fs1, b, ZeroBlock());
    var fs' := Allocated(fs, b);
    forall x: nat | x < fs.g.size ensures Used(fs', x) == Used(fs1, x) {}
  }

  /** One slot that named nothing now names b; no byte of any file, no disk inode and no bit changed. */
  ghost predicate Linked(fs: Fs, fs': Fs, slot: Slot, b: nat) {
    && Shaped(fs) && Shaped(fs') && fs'.g == fs.g && slot.Valid(fs.g)
    && Ref(fs', slot) == b
    && (forall s: Slot :: s.Valid(fs.g) && s != slot ==> Ref(fs', s) == Ref(fs, s))
    && SameUsed(fs, fs') && SameBytes(fs, fs') && SameInodes(fs, fs')
  }

  lemma {:induction false} LinkedOwned(fs: Fs, fs': Fs, slot: Slot, b: nat)
    requires Owned(fs) && Linked(fs, fs', slot, b)
    requires fs.g.datastart <= b < fs.g.size && Used(fs, b) && Unreferenced(fs, b)
    ensures Owned(fs')
  {
    forall s: Slot | s.Valid(fs.g) ensures RefOk(fs', s) {
      assert RefOk(fs, s);
    }
  }

  /** ip->addrs[k] = b, for a direct block or for the indirect block itself. */
  function SetAddr(fs: Fs, k: nat, b: Uint): (r: Fs)
    requires Shaped(fs) && k <= NDIRECT
    ensures Shaped(r)
  {
    Fs(fs.g, fs.blocks, fs.inum, Inode(fs.ip.kind, fs.ip.links, fs.ip.size, fs.ip.addrs[k := b]))
  }

  lemma {:induction false} LinkAddr(fs: Fs, k: nat, b: Uint)
    requires Owned(fs) && k <= NDIRECT && fs.ip.addrs[k] == 0
    requires fs.g.datastart <= b < fs.g.size && Used(fs, b) && Unreferenced(fs, b) && fs.blocks[b] == ZeroBlock()
    ensures Linked(fs, SetAddr(fs, k, b), if k < NDIRECT then Direct(fs.inum, k) else Indirect(fs.inum), b)
    ensures Owned(SetAddr(fs, k, b))
  {
    var fs' := SetAddr(fs, k, b);
    var slot := if k < NDIRECT then Direct(fs.inum, k) else Indirect(fs.inum);
    forall s: Slot | s.Valid(fs.g) && s != slot ensures Ref(fs', s) == Ref(fs, s) {
      if s.Entry? {
        WordOfZero(s.k);
      }
    }
    forall i: nat, o: nat | i < fs.g.ninodes && o < MAXFILE * BSIZE ensures FileByte(fs', i, o) == FileByte(fs, i, o) {
      var s := DataSlot(i, o / BSIZE);
      assert s.Valid(fs.g);
    }
    LinkedOwned(fs, fs', slot, b);
  }

  /** a[k] = b in the indirect block, followed by log_write. */
  function SetEntry(fs: Fs, k: nat, b: Uint): (r: Fs)
    requires Shaped(fs) && k < NINDIRECT && fs.ip.addrs[NDIRECT] < fs.g.size
    ensures Shaped(r)
  {
    SetBlock(fs, fs.ip.addrs[NDIRECT], PutWord(fs.blocks[fs.ip.addrs[NDIRECT]], k, b))
  }

  /** Changing one data block changes neither inodes nor bits. */
  lemma {:induction false} DataOnly(fs: Fs, a: nat, d: Block)
    requires Shaped(fs) && fs.g.datastart <= a < fs.g.size
    ensures SameInodes(fs, SetBlock(fs, a, d)) && SameUsed(fs, SetBlock(fs, a, d))
  {
    var fs' := SetBlock(fs, a, d);
    forall i: nat | i < fs.g.ninodes ensures DiskInode(fs', i) == DiskInode(fs, i) {}
    forall x: nat | x < fs.g.size ensures Used(fs', x) == Used(fs, x) {}
  }

  lemma {:induction false} EntryRefs(fs: Fs, k: nat, b: Uint, s: Slot)
    requires Owned(fs) && k < NINDIRECT && fs.ip.addrs[NDIRECT] != 0 && s.Valid(fs.g)
    ensures RefOk(fs, Indirect(fs.inum))
    ensures Ref(SetEntry(fs, k, b), s) == if s == Entry(fs.inum, k) then b else Ref(fs, s)
  {
    var a := fs.ip.addrs[NDIRECT];
    assert RefOk(fs, Indirect(fs.inum)) && a == Ref(fs, Indirect(fs.inum));
    DataOnly(fs, a, PutWord(fs.blocks[a], k, b));
    if s.Entry? {
      if s.i == fs.inum {
        WordOfPutWord(fs.blocks[a], k, b, s.k);
      } else {
        assert Ref(fs, Indirect(s.i)) != a;
      }
    }
  }

  lemma {:induction false} LinkEntry(fs: Fs, k: nat, b: Uint)
    requires Owned(fs) && k < NINDIRECT && fs.ip.addrs[NDIRECT] != 0 && Ref(fs, Entry(fs.inum, k)) == 0
    requires fs.g.datastart <= b < fs.g.size && Used(fs, b) && Unreferenced(fs, b) && fs.blocks[b] == ZeroBlock()
    ensures RefOk(fs, Indirect(fs.inum)) && Linked(fs, SetEntry(fs, k, b), Entry(fs.inum, k), b)
    ensures Owned(SetEntry(fs, k, b))
  {
    var a := fs.ip.addrs[NDIRECT];
    assert RefOk(fs, Indirect(fs.inum)) && a == Ref(fs, Indirect(fs.inum));
    var fs', slot := SetEntry(fs, k, b), Entry(fs.inum, k);
    DataOnly(fs, a, PutWord(fs.blocks[a], k, b));
    forall s: Slot | s.Valid(fs.g) ensures Ref(fs', s) == if s == slot then b else Ref(fs, s) {
      EntryRefs(fs, k, b, s);
    }
    forall i: nat, o: nat | i < fs.g.ninodes && o < MAXFILE * BSIZE ensures FileByte(fs', i, o) == FileByte(fs, i, o) {
      var s := DataSlot(i, o / BSIZE);
      assert s.Valid(fs.g) && s != Indirect(fs.inum);
      assert Ref(fs, s) != a && Ref(fs, Indirect(fs.inum)) != b;
    }
    LinkedOwned(fs, fs', slot, b);
  }

  /** New content for data block n of the locked inode's file: the bytes of that block of that file
      change, and nothing else. */
  lemma {:induction false} WriteDataEffect(fs: Fs, n: nat, d: Block)
    requires Owned(fs) && n < MAXFILE && Ref(fs, DataSlot(fs.inum, n)) != 0
    ensures RefOk(fs, DataSlot(fs.inum, n))
    ensures var fs' := SetBlock(fs, Ref(fs, DataSlot(fs.inum, n)), d);
            && Owned(fs') && SameRefs(fs, fs') && SameUsed(fs, fs') && SameInodes(fs, fs')
            && forall i: nat, o: nat :: i < fs.g.ninodes && o < MAXFILE * BSIZE ==>
                 FileByte(fs', i, o) == if i == fs.inum && o / BSIZE == n then d[o % BSIZE] else FileByte(fs, i, o)
  {
    var slot := DataSlot(fs.inum, n);
    var a := Ref(fs, slot);
    assert slot.Valid(fs.g) && RefOk(fs, slot);
    var fs' := SetBlock(fs, a, d);
    DataOnly(fs, a, d);
    forall s: Slot | s.Valid(fs.g) ensures Ref(fs', s) == Ref(fs, s) {
      if s.Entry? {
        assert slot != Indirect(s.i) && Ref(fs, Indirect(s.i)) != a;
      }
    }
    OwnedSame(fs, fs');
    forall i: nat, o: nat | i < fs.g.ninodes && o < MAXFILE * BSIZE
      ensures FileByte(fs', i, o) == if i == fs.inum && o / BSIZE == n then d[o % BSIZE] else FileByte(fs, i, o)
    {
      WrittenByte(fs, n, d, i, o);
    }
  }

  lemma {:induction false} WrittenByte(fs: Fs, n: nat, d: Block, i: nat, o: nat)
    requires Owned(fs) && n < MAXFILE && Ref(fs, DataSlot(fs.inum, n)) != 0
    requires RefOk(fs, DataSlot(fs.inum, n)) && i < fs.g.ninodes && o < MAXFILE * BSIZE
    requires SameRefs(fs, SetBlock(fs, Ref(fs, DataSlot(fs.inum, n)), d))
    ensures FileByte(SetBlock(fs, Ref(fs, DataSlot(fs.inum, n)), d), i, o) ==
            if i == fs.inum && o / BSIZE == n then d[o % BSIZE] else FileByte(fs, i, o)
  {
    var s, slot := DataSlot(i, o / BSIZE), DataSlot(fs.inum, n);
    assert s.Valid(fs.g) && RefOk(fs, s);
    if s != slot {
      assert Ref(fs, s) == 0 || Ref(fs, s) != Ref(fs, slot);
    }
  }

  /** iupdate: the locked inode's copy goes to its place in the inode blocks. */
  function Updated(fs: Fs): (r: Fs)
    requires Shaped(fs)
    ensures Shaped(r)
  {
    SetBlock(fs, fs.g.IBlock(fs.inum), PutInode(fs.blocks[fs.g.IBlock(fs.inum)], fs.inum % IPB, fs.ip))
  }

  lemma {:induction false} UpdatedInode(fs: Fs, i: nat)
    requires Shaped(fs) && i < fs.g.ninodes
    ensures DiskInode(Updated(fs), i) == if i == fs.inum then fs.ip else DiskInode(fs, i)
  {
    InodeOfPutInode(fs.blocks[fs.g.IBlock(fs.inum)], fs.inum % IPB, fs.ip, i % IPB);
    assert i == fs.inum <==> i / IPB == fs.inum / IPB && i % IPB == fs.inum % IPB;
  }

  predicate InInodes(g: Geometry, b: nat) {
    b < g.bmapstart
  }

  /** A change inside the inode blocks that leaves every inode as the kernel knows it. */
  lemma {:induction false} InodesOnly(fs: Fs, fs': Fs)
    requires Owned(fs) && Shaped(fs') && fs' == fs.(blocks := fs'.blocks)
    requires forall x: nat :: x < fs.g.size && !InInodes(fs.g, x) ==> fs'.blocks[x] == fs.blocks[x]
    requires forall i: nat :: i < fs.g.ninodes ==> Node(fs', i) == Node(fs, i)
    ensures Owned(fs') && SameRefs(fs, fs') && SameUsed(fs, fs') && SameBytes(fs, fs')
  {
    forall x: nat | x < fs.g.size ensures Used(fs', x) == Used(fs, x) {
      assert !InInodes(fs.g, fs.g.BBlock(x));
    }
    forall s: Slot | s.Valid(fs.g) ensures Ref(fs', s) == Ref(fs, s) {
      if s.Entry? {
        assert RefOk(fs, Indirect(s.i));
        assert !InInodes(fs.g, Ref(fs, Indirect(s.i))) || Ref(fs, Indirect(s.i)) == 0;
      }
    }
    OwnedSame(fs, fs');
    forall i: nat, o: nat | i < fs.g.ninodes && o < MAXFILE * BSIZE ensures FileByte(fs', i, o) == FileByte(fs, i, o) {
      var s := DataSlot(i, o / BSIZE);
      assert RefOk(fs, s) && Ref(fs', s) == Ref(fs, s);
      assert !InInodes(fs.g, Ref(fs, s)) || Ref(fs, s) == 0;
    }
  }

  lemma {:induction false} UpdatedEffect(fs: Fs)
    requires Owned(fs)
    ensures var fs' := Updated(fs);
            && Owned(fs') && SameRefs(fs, fs') && SameUsed(fs, fs') && SameBytes(fs, fs')
            && (forall i: nat :: i < fs.g.ninodes ==>
                  DiskInode(fs', i) == if i == fs.inum then fs.ip else DiskInode(fs, i))
  {
    var fs' := Updated(fs);
    forall i: nat | i < fs.g.ninodes ensures DiskInode(fs', i) == if i == fs.inum then fs.ip else DiskInode(fs, i) {
      UpdatedInode(fs, i);
    }
    assert InInodes(fs.g, fs.g.IBlock(fs.inum));
    InodesOnly(fs, fs');
  }

  // ---------- free blocks ----------

  /** The free blocks among the first n. */
  function FreeBelow(fs: Fs, n: nat): nat
    requires Shaped(fs) && n <= fs.g.size
  {
    if n == 0 then 0 else FreeBelow(fs, n - 1) + if Used(fs, n - 1) then 0 else 1
  }

  function FreeCount(fs: Fs): nat
    requires Shaped(fs)
  {
    FreeBelow(fs, fs.g.size)
  }

  lemma {:induction false} FreeSame(fs: Fs, fs': Fs, n: nat)
    requires SameUsed(fs, fs') && n <= fs.g.size
    ensures FreeBelow(fs', n) == FreeBelow(fs, n)
  {
    if n > 0 {
      FreeSame(fs, fs', n - 1);
    }
  }

  /** Marking a free block leaves one less. */
  lemma {:induction false} FreeTaken(fs: Fs, fs': Fs, b: nat, n: nat)
    requires Shaped(fs) && Shaped(fs') && fs'.g == fs.g && n <= fs.g.size && b < fs.g.size && !Used(fs, b)
    requires forall x: nat :: x < fs.g.size ==> Used(fs', x) == (x == b || Used(fs, x))
    ensures FreeBelow(fs, n) == FreeBelow(fs', n) + if b < n then 1 else 0
  {
    if n > 0 {
      FreeTaken(fs, fs', b, n - 1);
    }
  }

  lemma {:induction false} FreeNone(fs: Fs, n: nat)
    requires Shaped(fs) && n <= fs.g.size
    ensures FreeBelow(fs, n) == 0 <==> forall x: nat :: x < n ==> Used(fs, x)
  {
    if n > 0 {
      FreeNone(fs, n - 1);
    }
  }

  /** Some slot names block x. */
  ghost predicate Named(fs: Fs, x: nat)
    requires Shaped(fs)
  {
    x != 0 && exists s: Slot :: s.Valid(fs.g) && Ref(fs, s) == x
  }

  /** No block leaks: what is marked in use is metadata or named by a slot. */
  ghost predicate NoLeak(fs: Fs) {
    Shaped(fs) && forall x: nat :: x < fs.g.size && Used(fs, x) ==> x < fs.g.datastart || Named(fs, x)
  }

  /** k more blocks are in use, each of them named, and no name was dropped. */
  ghost predicate Claimed(fs: Fs, fs': Fs, k: nat) {
    && Shaped(fs) && Shaped(fs') && fs'.g == fs.g && FreeCount(fs) == FreeCount(fs') + k
    && (forall x: nat :: x < fs.g.size && Used(fs', x) ==> Used(fs, x) || Named(fs', x))
    && (forall s: Slot :: s.Valid(fs.g) && Ref(fs, s) != 0 ==> Ref(fs', s) == Ref(fs, s))
  }

  lemma {:induction false} StillNamed(fs: Fs, fs': Fs, x: nat)
    requires Shaped(fs) && Shaped(fs') && fs'.g == fs.g && Named(fs, x)
    requires forall s: Slot :: s.Valid(fs.g) && Ref(fs, s) != 0 ==> Ref(fs', s) == Ref(fs, s)
    ensures Named(fs', x)
  {
    var s: Slot :| s.Valid(fs.g) && Ref(fs, s) == x;
    assert Ref(fs', s) == x;
  }

  lemma {:induction false} ClaimedTrans(a: Fs, b: Fs, c: Fs, j: nat, k: nat)
    requires Claimed(a, b, j) && Claimed(b, c, k)
    ensures Claimed(a, c, j + k)
  {
    forall x: nat | x < a.g.size && Used(c, x) ensures Used(a, x) || Named(c, x) {
      if Named(b, x) {
        StillNamed(b, c, x);
      }
    }
  }

  lemma {:induction false} ClaimedKeeps(fs: Fs, fs': Fs, k: nat)
    requires NoLeak(fs) && Claimed(fs, fs', k)
    ensures NoLeak(fs')
  {
    forall x: nat | x < fs.g.size && Used(fs', x) ensures x < fs.g.datastart || Named(fs', x) {
      if Named(fs, x) {
        StillNamed(fs, fs', x);
      }
    }
  }

  lemma {:induction false} ClaimedSame(fs: Fs, fs': Fs)
    requires SameRefs(fs, fs') && SameUsed(fs, fs')
    ensures Claimed(fs, fs', 0)
  {
    FreeSame(fs, fs', fs.g.size);
  }

  /** A free block marked, zeroed and linked. */
  lemma {:induction false} ClaimedLinked(fs: Fs, fs1: Fs, fs2: Fs, slot: Slot, b: nat)
    requires Owned(fs) && b < fs.g.size && !Used(fs, b) && fs1 == Allocated(fs, b) && Linked(fs1, fs2, slot, b)
    requires Ref(fs, slot) == 0
    ensures Claimed(fs, fs2, 1)
  {
    AllocatedEffect(fs, b);
    FreeTaken(fs, fs1, b, fs.g.size);
    FreeSame(fs1, fs2, fs.g.size);
    assert Ref(fs2, slot) == b;
    assert Named(fs2, b);
  }
}
