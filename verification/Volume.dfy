/** The mounted volume: everything the C code keeps on `disk.img`, plus its open-file table. */
module Volumes {
  import opened Bytes
  import opened Layout
  import opened BlockMap
  import opened InodeTable

  const MAGIC: nat := 0x4F534344
  const MAX_OPEN_FILES: nat := 64

  datatype SuperBlock = SuperBlock(magic: nat, totalBlocks: nat, freeBlocks: int, totalInodes: nat,
                                   freeInodes: int, rootInode: nat, blockSize: nat)
  datatype GroupDesc = GroupDesc(blockBitmapBlock: nat, inodeBitmapBlock: nat, inodeTableBlock: nat,
                                 freeBlocksCount: int, freeInodesCount: int)

  datatype Access = ReadOnly | WriteOnly | ReadWrite
  datatype Fd = Fd(used: bool, ino: nat, offset: nat, mode: Access)

  // ---- bitmap buffers ----

  /** `1 << (i % 8)` */
  function Mask(i: nat): bv8 {
    1 << (i % 8)
  }

  predicate Bit(buf: seq<bv8>, i: nat)
    requires i / 8 < |buf|
  {
    buf[i / 8] & Mask(i) != 0
  }

  /** `bits` is what the bitmap buffer says about the first |bits| items. */
  ghost predicate Reads(buf: seq<bv8>, bits: seq<bool>) {
    && |buf| == BLOCK_SIZE
    && |bits| <= 8 * BLOCK_SIZE
    && forall i :: 0 <= i < |bits| ==> bits[i] == Bit(buf, i)
  }

  predicate IsMask(m: bv8) {
    m == 1 || m == 2 || m == 4 || m == 8 || m == 16 || m == 32 || m == 64 || m == 128
  }

  lemma MaskTable(i: nat)
    ensures Mask(i) == match i % 8
                       case 0 => 1 case 1 => 2 case 2 => 4 case 3 => 8
                       case 4 => 16 case 5 => 32 case 6 => 64 case _ => 128
  {
  }

  lemma MasksIndependent(x: bv8, m: bv8, n: bv8)
    requires IsMask(m) && IsMask(n)
    ensures (x | m) & n != 0 <==> m == n || x & n != 0
    ensures (x & !m) & n != 0 <==> m != n && x & n != 0
  {
  }

  lemma MasksDiffer(i: nat, j: nat)
    ensures IsMask(Mask(i)) && (Mask(i) == Mask(j) <==> i % 8 == j % 8)
  {
    MaskTable(i);
    MaskTable(j);
  }

  lemma ByteAfterStore(x: bv8, i: nat, j: nat)
    ensures (x | Mask(i)) & Mask(j) != 0 <==> i % 8 == j % 8 || x & Mask(j) != 0
    ensures (x & !Mask(i)) & Mask(j) != 0 <==> i % 8 != j % 8 && x & Mask(j) != 0
  {
    hide Mask, IsMask;
    MasksDiffer(i, j);
    MasksDiffer(j, i);
    MasksIndependent(x, Mask(i), Mask(j));
  }

  lemma SameByte(i: nat, j: nat)
    ensures i / 8 == j / 8 && i % 8 == j % 8 <==> i == j
  {
  }

  lemma StoredByte(buf: seq<bv8>, p: nat, j: nat, x: bv8)
    requires p < |buf| && j / 8 < |buf|
    ensures Bit(buf[p := x], j) == if j / 8 == p then x & Mask(j) != 0 else Bit(buf, j)
    ensures j / 8 == p ==> Bit(buf, j) == (buf[p] & Mask(j) != 0)
  {
    hide Mask;
  }

  /** `buf[i / 8] |= mask` and `buf[i / 8] &= ~mask` are point updates of the bits. */
  lemma BitAfterStore(buf: seq<bv8>, i: nat, j: nat)
    requires i / 8 < |buf| && j / 8 < |buf|
    ensures Bit(buf[i / 8 := buf[i / 8] | Mask(i)], j) == (i == j || Bit(buf, j))
    ensures Bit(buf[i / 8 := buf[i / 8] & !Mask(i)], j) == (i != j && Bit(buf, j))
  {
    BitAfterUpdate(buf, i, j, i / 8, buf[i / 8]);
  }

  lemma BitAfterUpdate(buf: seq<bv8>, i: nat, j: nat, p: nat, x: bv8)
    requires p == i / 8 < |buf| && j / 8 < |buf| && x == buf[p]
    ensures Bit(buf[p := x | Mask(i)], j) == (i == j || Bit(buf, j))
    ensures Bit(buf[p := x & !Mask(i)], j) == (i != j && Bit(buf, j))
  {
    hide Mask, Bit;
    ByteAfterStore(x, i, j);
    SameByte(i, j);
    StoredByte(buf, p, j, x | Mask(i));
    StoredByte(buf, p, j, x & !Mask(i));
  }

  lemma SetBit(buf: seq<bv8>, bits: seq<bool>, i: nat)
    requires Reads(buf, bits) && i < |bits|
    ensures Reads(buf[i / 8 := buf[i / 8] | Mask(i)], bits[i := true])
    ensures Reads(buf[i / 8 := buf[i / 8] & !Mask(i)], bits[i := false])
  {
    hide Mask, Bit;
    var up, down := buf[i / 8 := buf[i / 8] | Mask(i)], buf[i / 8 := buf[i / 8] & !Mask(i)];
    forall j | 0 <= j < |bits|
      ensures Bit(up, j) == bits[i := true][j] && Bit(down, j) == bits[i := false][j]
    {
      BitAfterStore(buf, i, j);
    }
  }

  // ---- free counts ----

  function ClearCount(bits: seq<bool>): (n: nat)
    ensures n <= |bits|
  {
    if bits == [] then 0
    else (if bits[|bits| - 1] then 0 else 1) + ClearCount(bits[..|bits| - 1])
  }

  lemma {:induction false} ClearCountUpdate(bits: seq<bool>, i: nat, b: bool)
    requires i < |bits|
    ensures ClearCount(bits[i := b]) == ClearCount(bits) + (if bits[i] then 1 else 0) - (if b then 1 else 0)
  {
    var n := |bits| - 1;
    if i == n {
      assert bits[i := b][..n] == bits[..n];
    } else {
      assert bits[i := b][..n] == bits[..n][i := b];
      ClearCountUpdate(bits[..n], i, b);
    }
  }

  lemma {:induction false} ClearCountZero(bits: seq<bool>)
    ensures ClearCount(bits) == 0 <==> forall i :: 0 <= i < |bits| ==> bits[i]
  {
    if bits == [] {
    } else {
      var n := |bits| - 1;
      ClearCountZero(bits[..n]);
      if forall i :: 0 <= i < |bits| ==> bits[i] {
        assert forall i :: 0 <= i < n ==> bits[..n][i] == bits[i];
      } else if ClearCount(bits) == 0 {
        assert forall i :: 0 <= i < n ==> bits[i] == bits[..n][i];
      }
    }
  }

  /** Both bitmap buffers hold the bits, and all counters count them. */
  ghost predicate Agree(blockBits: seq<bv8>, inodeBits: seq<bv8>, bm: seq<bool>, im: seq<bool>, sb: SuperBlock,
                        gd: GroupDesc) {
    && |bm| == TOTAL_BLOCKS && |im| == TOTAL_INODES
    && Reads(blockBits, bm) && Reads(inodeBits, im)
    && (forall b :: 0 <= b < FIRST_DATA_BLOCK ==> bm[b])
    && im[0]
    && sb == SuperBlock(MAGIC, TOTAL_BLOCKS, ClearCount(bm), TOTAL_INODES, ClearCount(im) + 1, ROOT_INODE, BLOCK_SIZE)
    && gd == GroupDesc(2, 3, 4, ClearCount(bm), ClearCount(im) + 1)
  }

  class Volume {
    var disk: Disk
    // Blocks 4 to 7.
    var table: seq<Block>
    var blockBits: seq<bv8>
    var inodeBits: seq<bv8>
    var sb: SuperBlock
    var gd: GroupDesc
    const fds: array<Fd>

    // What the inode table and the bitmaps say, and which location owns each block.
    ghost var inodes: Table
    ghost var bm: seq<bool>
    ghost var im: seq<bool>
    ghost var owner: Owners
    // The directory slot that names each inode, and the depth of each directory.
    ghost var link: map<nat, (nat, nat)>
    ghost var depth: map<nat, nat>

    /** Bitmaps, super block and group descriptor agree, and the table holds the inodes. */
    ghost predicate Meta()
      reads `blockBits, `inodeBits, `sb, `gd, `bm, `im, `table, `inodes
    {
      TableReads(table, inodes) && Agree(blockBits, inodeBits, bm, im, sb, gd)
    }

    constructor ()
      ensures fresh(fds) && fds.Length == MAX_OPEN_FILES
      ensures forall i :: 0 <= i < fds.Length ==> !fds[i].used
    {
      disk, table, inodes, blockBits, inodeBits := [], [], [], [], [];
      sb := SuperBlock(0, 0, 0, 0, 0, 0, 0);
      gd := GroupDesc(0, 0, 0, 0, 0);
      fds := new Fd[MAX_OPEN_FILES](_ => Fd(false, 0, 0, ReadOnly));
      bm, im, owner, link, depth := [], [], map[], map[], map[];
    }
  }
}
