/** The empty image that mkfs starts from (mkfs.c): zeroed blocks and a bitmap with the metadata marked.
    It is where the block ownership that every operation keeps begins. */
module Mkfs {
  import opened Blocks
  import opened FsLayout
  import opened FileSystem

  /** A bitmap block with the first n bits set. */
  function MarkFirst(n: nat): Block
    requires n <= 8 * BSIZE
  {
    if n == 0 then ZeroBlock() else PutBit(MarkFirst(n - 1), n - 1, true)
  }

  lemma {:induction false} NoBit(k: nat)
    ensures !TestBit(0, k)
  {
    if k > 0 {
      NoBit(k - 1);
    }
  }

  lemma {:induction false} MarkFirstBits(n: nat, j: nat)
    requires n <= 8 * BSIZE && j < 8 * BSIZE
    ensures Bit(MarkFirst(n), j) <==> j < n
  {
    if n == 0 {
      NoBit(j % 8);
    } else {
      MarkFirstBits(n - 1, j);
      BitOfPutBit(MarkFirst(n - 1), n - 1, true, j);
    }
  }

  /** mkfs's balloc(used): the bitmap block it writes. */
  method Balloc(used: nat) returns (buf: Block)
    requires used < 8 * BSIZE
    ensures forall j :: 0 <= j < 8 * BSIZE ==> (Bit(buf, j) <==> j < used)
  {
    buf := ZeroBlock();
    for i := 0 to used
      invariant buf == MarkFirst(i)
    {
      buf := PutBit(buf, i, true);
    }
    forall j | 0 <= j < 8 * BSIZE ensures Bit(buf, j) <==> j < used {
      MarkFirstBits(used, j);
    }
  }

  function EmptyInode(): (ip: Inode)
    ensures ip.Valid()
  {
    Inode(0, 0, 0, seq(NDIRECT + 1, _ => 0))
  }

  function FreshBlock(g: Geometry, b: nat): Block
    requires g.datastart < BPB
  {
    if b == g.bmapstart then MarkFirst(g.datastart) else ZeroBlock()
  }

  function FreshBlocks(g: Geometry, n: nat): (bs: seq<Block>)
    requires g.datastart < BPB
    ensures |bs| == n && forall b: nat :: b < n ==> bs[b] == FreshBlock(g, b)
  {
    if n == 0 then [] else FreshBlocks(g, n - 1) + [FreshBlock(g, n - 1)]
  }

  /** The disk before any file exists, with one inode locked. */
  function Fresh(g: Geometry, inum: nat): (fs: Fs)
    requires g.Valid() && inum < g.ninodes && g.datastart < BPB
    ensures Shaped(fs)
  {
    Fs(g, FreshBlocks(g, g.size), inum, EmptyInode())
  }

  lemma {:induction false} ZeroInode(slot: nat)
    requires slot < IPB
    ensures GetInode(ZeroBlock(), slot) == EmptyInode()
  {
  }

  lemma {:induction false} FreshUsed(g: Geometry, inum: nat, b: nat)
    requires g.Valid() && inum < g.ninodes && g.datastart < BPB && b < g.size
    ensures Used(Fresh(g, inum), b) <==> b < g.datastart
  {
    if b < BPB {
      MarkFirstBits(g.datastart, b);
    } else {
      assert FreshBlock(g, g.BBlock(b)) == ZeroBlock();
      NoBit(b % BPB % 8);
    }
  }

  lemma {:induction false} FreshFile(g: Geometry, inum: nat, i: nat)
    requires g.Valid() && inum < g.ninodes && g.datastart < BPB && i < g.ninodes
    ensures Node(Fresh(g, inum), i) == EmptyInode() && NoHoles(Fresh(g, inum), i, 0)
  {
    ZeroInode(i % IPB);
  }

  /** In the fresh image ownership holds, the blocks in use are exactly the metadata, and every file is empty. */
  lemma {:induction false} FreshSettled(g: Geometry, inum: nat, i: nat)
    requires g.Valid() && inum < g.ninodes && g.datastart < BPB && i < g.ninodes
    ensures Settled(Fresh(g, inum)) && Node(Fresh(g, inum), i).size == 0 && Content(Fresh(g, inum), i) == []
    ensures forall b: nat :: b < g.size ==> (Used(Fresh(g, inum), b) <==> b < g.datastart)
  {
    var fs := Fresh(g, inum);
    forall b: nat | b < g.size ensures Used(fs, b) <==> b < g.datastart {
      FreshUsed(g, inum, b);
    }
    forall k: nat | k < g.ninodes ensures Node(fs, k) == EmptyInode() && DiskInode(fs, k) == EmptyInode() {
      ZeroInode(k % IPB);
    }
    forall s: Slot | s.Valid(g) ensures Ref(fs, s) == 0 {
      assert Node(fs, s.i) == EmptyInode();
    }
  }
}
