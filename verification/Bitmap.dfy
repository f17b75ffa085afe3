/** bitmap.c and the counter updates of super.c */
module Bitmap {
  import opened Layout
  import opened InodeTable
  import opened Volumes

  method SuperUpdateCounts(v: Volume, deltaBlocks: int, deltaInodes: int) returns (ok: bool)
    modifies v`sb
    ensures ok == (&& old(v.sb).magic == MAGIC
                   && 0 <= old(v.sb).freeBlocks + deltaBlocks <= old(v.sb).totalBlocks
                   && 0 <= old(v.sb).freeInodes + deltaInodes <= old(v.sb).totalInodes)
    ensures v.sb == if ok then old(v.sb).(freeBlocks := old(v.sb).freeBlocks + deltaBlocks,
                                          freeInodes := old(v.sb).freeInodes + deltaInodes)
                    else old(v.sb)
  {
    var sb := v.sb;
    if sb.magic != MAGIC {
      return false;
    }
    if sb.freeBlocks + deltaBlocks < 0 || sb.freeBlocks + deltaBlocks > sb.totalBlocks {
      return false;
    }
    if sb.freeInodes + deltaInodes < 0 || sb.freeInodes + deltaInodes > sb.totalInodes {
      return false;
    }
    sb := sb.(freeBlocks := sb.freeBlocks + deltaBlocks);
    sb := sb.(freeInodes := sb.freeInodes + deltaInodes);
    v.sb := sb;
    return true;
  }

  method GroupDescUpdateCounts(v: Volume, deltaBlocks: int, deltaInodes: int) returns (ok: bool)
    modifies v`gd
    ensures ok == (&& 0 <= old(v.gd).freeBlocksCount + deltaBlocks <= TOTAL_BLOCKS
                   && 0 <= old(v.gd).freeInodesCount + deltaInodes <= TOTAL_INODES)
    ensures v.gd == if ok then old(v.gd).(freeBlocksCount := old(v.gd).freeBlocksCount + deltaBlocks,
                                          freeInodesCount := old(v.gd).freeInodesCount + deltaInodes)
                    else old(v.gd)
  {
    var gd := v.gd;
    if gd.freeBlocksCount + deltaBlocks < 0 || gd.freeBlocksCount + deltaBlocks > TOTAL_BLOCKS {
      return false;
    }
    if gd.freeInodesCount + deltaInodes < 0 || gd.freeInodesCount + deltaInodes > TOTAL_INODES {
      return false;
    }
    gd := gd.(freeBlocksCount := gd.freeBlocksCount + deltaBlocks);
    gd := gd.(freeInodesCount := gd.freeInodesCount + deltaInodes);
    v.gd := gd;
    return true;
  }

  lemma AgreeSizes(bb: seq<bv8>, ib: seq<bv8>, bm: seq<bool>, im: seq<bool>, sb: SuperBlock, gd: GroupDesc)
    ensures Agree(bb, ib, bm, im, sb, gd) ==> |bm| == TOTAL_BLOCKS && |im| == TOTAL_INODES && im[0]
    ensures Agree(bb, ib, bm, im, sb, gd) ==> forall b :: 0 <= b < FIRST_DATA_BLOCK ==> bm[b]
  {
  }

  /** What `|=` or `&= ~` on one byte of the block bitmap means, once the counters have followed: setting a bit
      keeps everything in agreement, clearing one does exactly when it is not that of a metadata block. */
  lemma BlockBit(bb: seq<bv8>, ib: seq<bv8>, bm: seq<bool>, im: seq<bool>, sb: SuperBlock, gd: GroupDesc, b: nat)
    requires Agree(bb, ib, bm, im, sb, gd) && b < TOTAL_BLOCKS
    ensures |bm| == TOTAL_BLOCKS && b / 8 < |bb| && bm[b] == Bit(bb, b)
    ensures sb.magic == MAGIC && sb.freeBlocks == gd.freeBlocksCount
    ensures 0 <= sb.freeInodes == gd.freeInodesCount <= TOTAL_INODES
    ensures sb.totalBlocks == TOTAL_BLOCKS && sb.totalInodes == TOTAL_INODES
    ensures !bm[b] ==>
              && 0 < sb.freeBlocks <= TOTAL_BLOCKS
              && Agree(bb[b / 8 := bb[b / 8] | Mask(b)], ib, bm[b := true], im,
                       sb.(freeBlocks := sb.freeBlocks - 1), gd.(freeBlocksCount := gd.freeBlocksCount - 1))
    ensures bm[b] ==>
              && 0 <= sb.freeBlocks < TOTAL_BLOCKS
              && (Agree(bb[b / 8 := bb[b / 8] & !Mask(b)], ib, bm[b := false], im,
                        sb.(freeBlocks := sb.freeBlocks + 1), gd.(freeBlocksCount := gd.freeBlocksCount + 1))
                  <==> b >= FIRST_DATA_BLOCK)
  {
    hide Mask, Bit, ClearCount;
    SetBit(bb, bm, b);
    ClearCountUpdate(bm, b, true);
    ClearCountUpdate(bm, b, false);
    ClearCountUpdate(im, 0, false);
    assert bm[b] == Bit(bb, b);
    var down := bm[b := false];
    assert b < FIRST_DATA_BLOCK ==> !down[b];
  }

  /** The same for the inode bitmap, where inode 0 is the reserved one. */
  lemma InodeBit(bb: seq<bv8>, ib: seq<bv8>, bm: seq<bool>, im: seq<bool>, sb: SuperBlock, gd: GroupDesc, i: nat)
    requires Agree(bb, ib, bm, im, sb, gd) && i < TOTAL_INODES
    ensures |im| == TOTAL_INODES && i / 8 < |ib| && im[i] == Bit(ib, i) && im[0]
    ensures sb.magic == MAGIC && 0 <= sb.freeBlocks == gd.freeBlocksCount <= TOTAL_BLOCKS
    ensures sb.freeInodes == gd.freeInodesCount
    ensures sb.totalBlocks == TOTAL_BLOCKS && sb.totalInodes == TOTAL_INODES
    ensures sb.freeInodes == ClearCount(im) + 1
    ensures !im[i] ==>
              && 1 < sb.freeInodes <= TOTAL_INODES
              && Agree(bb, ib[i / 8 := ib[i / 8] | Mask(i)], bm, im[i := true],
                       sb.(freeInodes := sb.freeInodes - 1), gd.(freeInodesCount := gd.freeInodesCount - 1))
    ensures im[i] && i != 0 ==>
              && 1 <= sb.freeInodes < TOTAL_INODES
              && Agree(bb, ib[i / 8 := ib[i / 8] & !Mask(i)], bm, im[i := false],
                       sb.(freeInodes := sb.freeInodes + 1), gd.(freeInodesCount := gd.freeInodesCount + 1))
  {
    hide Mask, Bit, ClearCount;
    SetBit(ib, im, i);
    ClearCountUpdate(im, i, true);
    ClearCountUpdate(im, i, false);
    assert im[i] == Bit(ib, i);
    if im[i] && i != 0 {
      TwoSet(im, 0, i);
    }
    if !im[i] {
      ClearCountUpdate(im, 0, false);
    }
  }

  /** Takes the least clear bit; fails only when there is none. */
  method AllocBlock(v: Volume) returns (r: int)
    requires v.Meta()
    modifies v`blockBits, v`bm, v`sb, v`gd
    ensures v.Meta()
    ensures r == -1 <==> forall j :: 0 <= j < TOTAL_BLOCKS ==> old(v.bm)[j]
    ensures r == -1 ==> v.bm == old(v.bm)
    ensures r != -1 ==> && FIRST_DATA_BLOCK <= r < TOTAL_BLOCKS && !old(v.bm)[r]
                        && (forall j :: 0 <= j < r ==> old(v.bm)[j])
                        && v.bm == old(v.bm)[r := true]
  {
    hide Mask, Bit, TableReads, Agree, ClearCount;
    AgreeSizes(v.blockBits, v.inodeBits, v.bm, v.im, v.sb, v.gd);
    var buf := v.blockBits;
    for i := 0 to TOTAL_BLOCKS
      invariant v.bm == old(v.bm) && v.Meta() && buf == v.blockBits
      invariant forall j :: 0 <= j < i ==> v.bm[j]
    {
      BlockBit(buf, v.inodeBits, v.bm, v.im, v.sb, v.gd, i);
      if !Bit(buf, i) {
        buf := buf[i / 8 := buf[i / 8] | Mask(i)];
        v.blockBits := buf;
        v.bm := v.bm[i := true];
        var ok := SuperUpdateCounts(v, -1, 0);
        if !ok {
          return -1;
        }
        ok := GroupDescUpdateCounts(v, -1, 0);
        if !ok {
          return -1;
        }
        return i;
      }
    }
    return -1;
  }

  /** Clears one bit; refuses a number out of range or already free. Nothing stops a caller from
      releasing one of the ten metadata blocks, which is the one way to break the agreement. */
  method FreeBlock(v: Volume, b: nat) returns (r: int)
    requires v.Meta()
    modifies v`blockBits, v`bm, v`sb, v`gd
    ensures v.Meta() <==> b >= FIRST_DATA_BLOCK
    ensures r == if b < TOTAL_BLOCKS && old(v.bm)[b] then 0 else -1
    ensures v.bm == if r == 0 then old(v.bm)[b := false] else old(v.bm)
  {
    if b >= TOTAL_BLOCKS {
      return -1;
    }
    hide Mask, Bit, ClearCount, TableReads, Agree;
    var buf := v.blockBits;
    BlockBit(buf, v.inodeBits, v.bm, v.im, v.sb, v.gd, b);
    if !Bit(buf, b) {
      return -1;
    }
    buf := buf[b / 8 := buf[b / 8] & !Mask(b)];
    v.blockBits := buf;
    v.bm := v.bm[b := false];
    var ok := SuperUpdateCounts(v, 1, 0);
    if !ok {
      return -1;
    }
    ok := GroupDescUpdateCounts(v, 1, 0);
    if !ok {
      return -1;
    }
    return 0;
  }

  method AllocInode(v: Volume) returns (r: int)
    requires v.Meta()
    modifies v`inodeBits, v`im, v`sb, v`gd
    ensures v.Meta()
    ensures r == -1 <==> forall j :: 0 <= j < TOTAL_INODES ==> old(v.im)[j]
    ensures r == -1 ==> v.im == old(v.im)
    ensures r != -1 ==> && 1 <= r < TOTAL_INODES && !old(v.im)[r]
                        && (forall j :: 0 <= j < r ==> old(v.im)[j])
                        && v.im == old(v.im)[r := true]
  {
    hide Mask, Bit, TableReads, Agree, ClearCount;
    AgreeSizes(v.blockBits, v.inodeBits, v.bm, v.im, v.sb, v.gd);
    var buf := v.inodeBits;
    for i := 0 to TOTAL_INODES
      invariant v.im == old(v.im) && v.Meta() && buf == v.inodeBits
      invariant forall j :: 0 <= j < i ==> v.im[j]
    {
      InodeBit(v.blockBits, buf, v.bm, v.im, v.sb, v.gd, i);
      if !Bit(buf, i) {
        buf := buf[i / 8 := buf[i / 8] | Mask(i)];
        v.inodeBits := buf;
        v.im := v.im[i := true];
        var ok := SuperUpdateCounts(v, 0, -1);
        if !ok {
          return -1;
        }
        ok := GroupDescUpdateCounts(v, 0, -1);
        if !ok {
          return -1;
        }
        return i;
      }
    }
    return -1;
  }

  lemma TwoSet(bits: seq<bool>, i: nat, j: nat)
    requires i < j < |bits| && bits[i] && bits[j]
    ensures ClearCount(bits) <= |bits| - 2
  {
    ClearCountUpdate(bits, i, false);
    ClearCountUpdate(bits[i := false], j, false);
  }

  /** Releasing the reserved inode 0 breaks the agreement, and is even reported as a failure when it
      would lift the counters past the total: they count inode 0 as free from the start. */
  method FreeInode(v: Volume, ino: nat) returns (r: int)
    requires v.Meta()
    modifies v`inodeBits, v`im, v`sb, v`gd
    ensures v.Meta() <==> ino != 0
    ensures ino != 0 ==> r == if ino < TOTAL_INODES && old(v.im)[ino] then 0 else -1
    ensures ino == 0 ==> r == if ClearCount(old(v.im)) + 2 <= TOTAL_INODES then 0 else -1
    ensures v.im == if ino == 0 || r == 0 then old(v.im)[ino := false] else old(v.im)
  {
    if ino >= TOTAL_INODES {
      return -1;
    }
    hide Mask, Bit, TableReads, Agree, ClearCount;
    var buf := v.inodeBits;
    InodeBit(v.blockBits, buf, v.bm, v.im, v.sb, v.gd, ino);
    if !Bit(buf, ino) {
      return -1;
    }
    buf := buf[ino / 8 := buf[ino / 8] & !Mask(ino)];
    v.inodeBits := buf;
    v.im := v.im[ino := false];
    var ok := SuperUpdateCounts(v, 0, 1);
    AgreeSizes(v.blockBits, v.inodeBits, v.bm, v.im, v.sb, v.gd);
    if !ok {
      return -1;
    }
    ok := GroupDescUpdateCounts(v, 0, 1);
    AgreeSizes(v.blockBits, v.inodeBits, v.bm, v.im, v.sb, v.gd);
    if !ok {
      return -1;
    }
    return 0;
  }
}
