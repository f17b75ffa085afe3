/** The read and write paths of file.c. */
module FileIo {
  import opened Bytes
  import opened Layout
  import opened BlockMap
  import opened Volumes
  import opened Space
  import opened InodeMap
  import opened Contents
  import opened Invariants

  /** One block's share of a read. */
  lemma ReadChunk(d: Disk, t: Table, ino: nat, cur: nat, chunk: nat, blk: Block)
    requires ino < |t| && cur + chunk <= t[ino].size
    requires cur % BLOCK_SIZE + chunk <= BLOCK_SIZE
    requires Img(d, t, ino, cur / BLOCK_SIZE) == Some(blk) ||
             (Img(d, t, ino, cur / BLOCK_SIZE) == None && blk == ZERO)
    ensures Content(d, t, ino)[cur..cur + chunk] == blk[cur % BLOCK_SIZE..cur % BLOCK_SIZE + chunk]
  {
    hide Img;
    var o := cur % BLOCK_SIZE;
    forall k | cur <= k < cur + chunk
      ensures Content(d, t, ino)[k] == blk[o + (k - cur)]
    {
      assert k / BLOCK_SIZE == cur / BLOCK_SIZE && k % BLOCK_SIZE == o + (k - cur);
    }
  }

  /** The block, the offset in it and the share of a transfer that position `cur` stands for. */
  method PieceAt(cur: nat, remaining: nat) returns (blk: nat, o: nat, chunk: nat)
    ensures blk * BLOCK_SIZE + o == cur && o < BLOCK_SIZE
    ensures chunk <= remaining && o + chunk <= BLOCK_SIZE
    ensures chunk == remaining || (chunk > 0 && o + chunk == BLOCK_SIZE)
  {
    blk, o := cur / BLOCK_SIZE, cur % BLOCK_SIZE;
    chunk := remaining;
    if chunk > BLOCK_SIZE - o {
      chunk := BLOCK_SIZE - o;
    }
  }

  lemma JoinSlices(c: seq<byte>, buf: seq<byte>, piece: seq<byte>, a: nat, b: nat, e: nat)
    requires a <= b <= e <= |c| && buf == c[a..b] && piece == c[b..e]
    ensures buf + piece == c[a..e]
  {
  }

  lemma LookedUp(d: Disk, t: Table, bm: seq<bool>, owner: Owners,
                 d': Disk, t': Table, bm': seq<bool>, owner': Owners, ino: nat, lb: nat, r: int)
    requires Own(d, t, bm, owner) && ino < TOTAL_INODES && lb < TRIPLE_END
    requires Got(d, t, bm, owner, d', t', bm', owner', false, LocOf(ino, lb), r)
    ensures d' == d && bm' == bm && owner' == owner && t' == t
    ensures r == -1 ==> Img(d, t, ino, lb) == None
    ensures r != -1 ==> 0 < r < |d| && Img(d, t, ino, lb) == Some(d[r])
  {
    hide At, ValidLoc, LocOf, Extends, DataUpdate;
    LocOfIsValid(ino, lb);
    OwnSizes(d, t, bm, owner);
  }

  /** Copies `chunk` bytes out of logical block `blk`, or zeros where it is a hole. */
  method ReadPiece(v: Volume, inode: Inode, ghost ino: nat, blk: nat, o: nat, chunk: nat) returns (piece: seq<byte>)
    requires v.Meta() && Own(v.disk, v.inodes, v.bm, v.owner) && ino < |v.inodes| && inode == v.inodes[ino]
    requires o < BLOCK_SIZE && o + chunk <= BLOCK_SIZE
    requires blk * BLOCK_SIZE + o + chunk <= inode.size && blk < TRIPLE_END
    modifies v`disk, v`blockBits, v`bm, v`sb, v`gd, v`owner
    ensures v.Meta() && v.disk == old(v.disk) && v.bm == old(v.bm) && v.owner == old(v.owner)
    ensures |piece| == chunk
    ensures var cur := blk * BLOCK_SIZE + o; piece == Content(v.disk, v.inodes, ino)[cur..cur + chunk]
  {
    hide v.Meta, Own, At, Got, Content, Img, LocOf;
    OwnSizes(v.disk, v.inodes, v.bm, v.owner);
    assert v.inodes[ino := inode] == v.inodes;
    var _, phys := InodeGetBlock(v, inode, blk, false, ino);
    LookedUp(old(v.disk), v.inodes, old(v.bm), old(v.owner), v.disk, v.inodes, v.bm, v.owner, ino, blk, phys);
    var blockBuf := if phys >= 0 then v.disk[phys] else ZERO;
    ReadChunk(v.disk, v.inodes, ino, blk * BLOCK_SIZE + o, chunk, blockBuf);
    piece := blockBuf[o..o + chunk];
  }

  /** One round of that loop: the share of the block at `cur`, clipped to the size. */
  method ReadRound(v: Volume, inode: Inode, ghost ino: nat, cur: nat, remaining: nat)
    returns (piece: seq<byte>, chunk: nat)
    requires v.Meta() && Own(v.disk, v.inodes, v.bm, v.owner) && ino < |v.inodes| && inode == v.inodes[ino]
    requires cur < inode.size <= WORD_LIMIT - BLOCK_SIZE && remaining > 0
    modifies v`disk, v`blockBits, v`bm, v`sb, v`gd, v`owner
    ensures v.Meta() && v.disk == old(v.disk) && v.bm == old(v.bm) && v.owner == old(v.owner)
    ensures 0 < chunk <= remaining && cur + chunk <= inode.size
    ensures piece == Content(v.disk, v.inodes, ino)[cur..cur + chunk]
  {
    hide v.Meta, Own, Content, U32;
    var blk, o;
    blk, o, chunk := PieceAt(cur, remaining);
    if U32(cur + chunk) > inode.size {
      chunk := inode.size - cur;
    }
    assert blk <= cur < WORD_LIMIT && blk < TRIPLE_END by {
      assert blk * BLOCK_SIZE <= cur;
    }
    piece := ReadPiece(v, inode, ino, blk, o, chunk);
  }

  /** The read loop of `oscdfs_read`: position `cur` is divided into block and offset each round. */
  method ReadLoop(v: Volume, inode: Inode, ghost ino: nat, off: nat, nbytes: nat) returns (buf: seq<byte>, cur: nat)
    requires v.Meta() && Own(v.disk, v.inodes, v.bm, v.owner) && ino < |v.inodes| && inode == v.inodes[ino]
    requires off < inode.size && inode.size <= WORD_LIMIT - BLOCK_SIZE && nbytes < WORD_LIMIT
    modifies v`disk, v`blockBits, v`bm, v`sb, v`gd, v`owner
    ensures v.Meta() && v.disk == old(v.disk) && v.bm == old(v.bm) && v.owner == old(v.owner)
    ensures buf == ReadBytes(Content(v.disk, v.inodes, ino), off, nbytes) && cur == off + |buf|
  {
    hide v.Meta, Own, Content, U32, ReadBytes;
    buf := [];
    var total, remaining := 0, nbytes;
    cur := off;
    ghost var c := Content(v.disk, v.inodes, ino);
    while remaining > 0 && cur < inode.size
      modifies v`disk, v`blockBits, v`bm, v`sb, v`gd, v`owner
      invariant v.Meta() && v.disk == old(v.disk) && v.bm == old(v.bm) && v.owner == old(v.owner)
      invariant off <= cur <= inode.size && total == cur - off == nbytes - remaining && remaining >= 0
      invariant buf == c[off..cur]
    {
      var piece, chunk := ReadRound(v, inode, ino, cur, remaining);
      JoinSlices(c, buf, piece, off, cur, cur + chunk);
      buf := buf + piece;
      total, remaining, cur := U32(total + chunk), remaining - chunk, U32(cur + chunk);
    }
    ReadDone(c, buf, off, cur, nbytes);
  }

  lemma ReadDone(c: seq<byte>, buf: seq<byte>, off: nat, cur: nat, n: nat)
    requires off <= cur <= |c| && off < |c| && buf == c[off..cur] && cur - off <= n
    requires cur - off == n || cur == |c|
    ensures buf == ReadBytes(c, off, n)
  {
  }

  /** Reads an open file from the descriptor's offset on. */
  method OscdfsRead(v: Volume, fd: int, nbytes: nat, permitted: bool) returns (r: int, buf: seq<byte>)
    requires Sound(v) && FdsOk(v.fds[..], v.inodes, v.im) && nbytes < WORD_LIMIT
    requires 0 <= fd < v.fds.Length && v.fds[fd].used ==> v.inodes[v.fds[fd].ino].size <= WORD_LIMIT - BLOCK_SIZE
    modifies v`disk, v`blockBits, v`bm, v`sb, v`gd, v`owner, v.fds
    ensures v.Meta() && v.disk == old(v.disk) && v.bm == old(v.bm) && v.owner == old(v.owner)
    ensures r == -1
            <==> !(0 <= fd < v.fds.Length && old(v.fds[fd].used) && old(v.fds[fd].mode) != WriteOnly && permitted)
    ensures r == -1 ==> buf == [] && v.fds[..] == old(v.fds[..])
    ensures r != -1 ==> var f := old(v.fds[fd]);
                        && r == |buf|
                        && buf == ReadBytes(Content(v.disk, v.inodes, f.ino), f.offset, nbytes)
                        && v.fds[..] == old(v.fds[..])[fd := f.(offset := f.offset + r)]
  {
    hide v.Meta, Own, Content, FreeOwnNothing, FdsOk;
    if fd < 0 || fd >= v.fds.Length || !v.fds[fd].used {
      return -1, [];
    }
    if v.fds[fd].mode == WriteOnly {
      return -1, [];
    }
    var ino := v.fds[fd].ino;
    OwnSizes(v.disk, v.inodes, v.bm, v.owner);
    OpenFile(v.fds[..], v.inodes, v.im, fd);
    var inode: Inode, ok: bool;
    ok, inode := ReadInode(v, ino);
    if !permitted {
      return -1, [];
    }
    var cur := v.fds[fd].offset;
    if cur >= inode.size {
      assert v.fds[..] == v.fds[..][fd := v.fds[fd].(offset := cur + 0)];
      return 0, [];
    }
    buf, cur := ReadLoop(v, inode, ino, cur, nbytes);
    v.fds[fd] := v.fds[fd].(offset := cur);
    return |buf|, buf;
  }

  /** The FUSE-side reader: clips the request once, then steps a block counter. */
  method OscdfsReadInode(v: Volume, ino: nat, offset: nat, n: nat) returns (r: int, buf: seq<byte>)
    requires Sound(v)
    modifies v`disk, v`blockBits, v`bm, v`sb, v`gd, v`owner
    ensures v.Meta() && v.disk == old(v.disk) && v.bm == old(v.bm) && v.owner == old(v.owner)
    ensures r == -1 <==> ino >= |v.inodes|
    ensures r != -1 ==> r == |buf| && buf == ReadBytes(Content(v.disk, v.inodes, ino), offset, n)
  {
    hide v.Meta, Own, Content, FreeOwnNothing;
    OwnSizes(v.disk, v.inodes, v.bm, v.owner);
    var ok, inode := ReadInode(v, ino);
    if !ok {
      return -1, [];
    }
    if offset >= inode.size {
      return 0, [];
    }
    var nbytes := n;
    if offset + nbytes > inode.size {
      nbytes := inode.size - offset;
    }
    var startBlk: nat, startOff: nat := offset / BLOCK_SIZE, offset % BLOCK_SIZE;
    var total, remaining := 0, nbytes;
    buf := [];
    ghost var c := Content(v.disk, v.inodes, ino);
    while remaining > 0 && offset + total < inode.size
      modifies v`disk, v`blockBits, v`bm, v`sb, v`gd, v`owner
      invariant v.Meta() && v.disk == old(v.disk) && v.bm == old(v.bm) && v.owner == old(v.owner)
      invariant total == nbytes - remaining && remaining >= 0
      invariant startOff < BLOCK_SIZE
      invariant remaining > 0 ==> offset + total == startBlk * BLOCK_SIZE + startOff
      invariant buf == c[offset..offset + total]
    {
      var chunk := remaining;
      if chunk > BLOCK_SIZE - startOff {
        chunk := BLOCK_SIZE - startOff;
      }
      assert 0 < chunk <= remaining && startOff + chunk <= BLOCK_SIZE;
      var piece := ReadPiece(v, inode, ino, startBlk, startOff, chunk);
      JoinSlices(c, buf, piece, offset, offset + total, offset + total + chunk);
      buf := buf + piece;
      total := total + chunk;
      remaining := remaining - chunk;
      startBlk := startBlk + 1;
      startOff := 0;
    }
    return total, buf;
  }

  // ---- writing ----

  /** One round of a write loop: finds or allocates logical block `blk` and stores `piece` at offset `o`
      in it; r is -1 when the disk is full. */
  method WritePiece(v: Volume, inode: Inode, ghost ino: nat, blk: nat, o: nat, piece: seq<byte>)
    returns (inode': Inode, r: int)
    requires v.Meta() && ino < TOTAL_INODES == |v.inodes|
    requires Own(v.disk, v.inodes[ino := inode], v.bm, v.owner)
    requires 0 < |piece| && o + |piece| <= BLOCK_SIZE && blk < TRIPLE_END
    modifies v`disk, v`blockBits, v`bm, v`sb, v`gd, v`owner
    ensures v.Meta() && inode'.kind == inode.kind && inode'.size == inode.size && r >= -1
    ensures r == -1 ==>
              PieceRefused(old(v.disk), v.inodes[ino := inode], old(v.bm), old(v.owner),
                           v.disk, v.inodes[ino := inode'], v.bm, v.owner, ino, blk)
    ensures r != -1 ==>
              PieceStored(old(v.disk), v.inodes[ino := inode], old(v.bm), old(v.owner),
                          v.disk, v.inodes[ino := inode'], v.bm, v.owner, ino, blk, o, piece)
  {
    hide v.Meta, Own, At, Got, Img, LocOf, PieceStored, PieceRefused, Placed;
    ghost var t1 := v.inodes[ino := inode];
    OwnSizes(v.disk, t1, v.bm, v.owner);
    inode', r := InodeGetBlock(v, inode, blk, true, ino);
    ghost var t2 := v.inodes[ino := inode'];
    FoundRange(old(v.disk), t1, old(v.bm), old(v.owner), v.disk, t2, v.bm, v.owner, ino, blk, r);
    if r < 0 {
      RefusesPiece(old(v.disk), t1, old(v.bm), old(v.owner), v.disk, t2, v.bm, v.owner, ino, blk);
      return;
    }
    var blockBuf: Block;
    if |piece| < BLOCK_SIZE || o != 0 {
      blockBuf := v.disk[r];
    } else {
      blockBuf := ZERO;
    }
    ghost var before, d2 := blockBuf, v.disk;
    blockBuf := blockBuf[..o] + piece + blockBuf[o + |piece|..];
    v.disk := v.disk[r := blockBuf];
    StoresPiece(old(v.disk), t1, old(v.bm), old(v.owner), d2, t2, v.bm, v.owner, ino, blk, r, o, piece, before,
                blockBuf);
  }

  lemma ProgressParts(d0: Disk, t0: Table, bm0: seq<bool>, owner0: Owners,
                      d: Disk, t: Table, bm: seq<bool>, owner: Owners, ino: nat, off: nat, cur: nat, data: seq<byte>)
    requires Progress(d0, t0, bm0, owner0, d, t, bm, owner, ino, off, cur, data)
    ensures Own(d, t, bm, owner) && Grow(bm0, owner0, bm, owner, ino) && off <= cur <= off + |data|
    ensures OthersSame(d0, t0, d, t, ino) && FreeKept(d0, d, bm) && |d| == |d0|
    ensures MapGrown(d0, t0, d, t, ino, off, cur) && PlacesKept(d0, t0, d, t, ino)
    ensures BytesStored(d0, d, t, ino, off, cur, data)
    ensures |d| == |bm| == TOTAL_BLOCKS && |t| == TOTAL_INODES
  {
    hide At, ValidLoc, LocIno, LocOf, Touched;
  }

  lemma FoundRange(d: Disk, t: Table, bm: seq<bool>, owner: Owners,
                   d': Disk, t': Table, bm': seq<bool>, owner': Owners, ino: nat, lb: nat, r: int)
    requires Own(d, t, bm, owner) && ino < TOTAL_INODES == |t| == |t'| && lb < TRIPLE_END
    requires Got(d, t, bm, owner, d', t', bm', owner', true, LocOf(ino, lb), r)
    ensures |d'| == |bm'| == TOTAL_BLOCKS && (r == -1 || 0 < r < |d'|)
    ensures r == -1 ==> forall b :: 0 <= b < TOTAL_BLOCKS ==> bm'[b]
    ensures Img(d, t, ino, lb).Some? ==> t' == t && t'[ino] == t[ino] && r != -1 && bm' == bm && owner' == owner
  {
    hide ValidLoc, LocOf, DataUpdate, LocIno, Untouched, FreeKept;
    OwnSizes(d, t, bm, owner);
  }

  /** A write touches at most 2038 blocks: no position in it is further than that from its start. */
  lemma ProgressBound(d0: Disk, t0: Table, bm0: seq<bool>, owner0: Owners,
                      d: Disk, t: Table, bm: seq<bool>, owner: Owners, ino: nat, off: nat, cur: nat, data: seq<byte>)
    requires Progress(d0, t0, bm0, owner0, d, t, bm, owner, ino, off, cur, data)
    requires ino < TOTAL_INODES && off <= WORD_LIMIT && |data| < WORD_LIMIT
    ensures cur <= off + (TOTAL_BLOCKS - FIRST_DATA_BLOCK) * BLOCK_SIZE
  {
    hide At, ValidLoc, Own, LocIno, Img, Grow, BytesStored, OthersSame, FreeKept, PlacesKept;
    var from := (off / BLOCK_SIZE) * BLOCK_SIZE;
    if off < cur {
      forall lb: nat | from <= lb * BLOCK_SIZE < cur
        ensures Img(d, t, ino, lb).Some?
      {
        assert off / BLOCK_SIZE <= lb && Touched(lb, off, cur) && lb < TRIPLE_END;
      }
      DenseBound(d, t, bm, owner, ino, from, cur);
    }
  }

  /** No position in a dense file can wrap around 32 bits, nor reach the triple-indirect level. */
  lemma ProgressSmall(d0: Disk, t0: Table, bm0: seq<bool>, owner0: Owners,
                      d: Disk, t: Table, bm: seq<bool>, owner: Owners,
                      ino: nat, size: nat, off: nat, cur: nat, data: seq<byte>)
    requires Progress(d0, t0, bm0, owner0, d, t, bm, owner, ino, off, cur, data)
    requires Mapped(d0, t0, ino, 0, size) && off <= size < WORD_LIMIT && |data| < WORD_LIMIT
    requires ino < TOTAL_INODES
    ensures Mapped(d, t, ino, 0, Max(size, cur))
    ensures Max(size, cur) <= (TOTAL_BLOCKS - FIRST_DATA_BLOCK) * BLOCK_SIZE
    ensures cur / BLOCK_SIZE < DOUBLE_END
  {
    hide At, ValidLoc, Own, LocIno, Img, Mapped, Grow, MapGrown, BytesStored, FreeKept, PlacesKept, OthersSame;
    DenseProgress(d0, t0, d, t, ino, 0, size, off, cur);
    DenseBound(d, t, bm, owner, ino, 0, Max(size, cur));
  }

  /** One successful round of either loop. */
  lemma NextProgress(d0: Disk, t0: Table, bm0: seq<bool>, owner0: Owners,
                     d1: Disk, t1: Table, bm1: seq<bool>, owner1: Owners,
                     d2: Disk, t2: Table, bm2: seq<bool>, owner2: Owners,
                     ino: nat, off: nat, blk: nat, o: nat, chunk: nat, data: seq<byte>)
    requires var cur := blk * BLOCK_SIZE + o;
             && o < BLOCK_SIZE && 0 < chunk && o + chunk <= BLOCK_SIZE && ino < TOTAL_INODES
             && cur + chunk <= off + |data| && cur + chunk < WORD_LIMIT
             && Progress(d0, t0, bm0, owner0, d1, t1, bm1, owner1, ino, off, cur, data)
             && off <= cur
             && PieceStored(d1, t1, bm1, owner1, d2, t2, bm2, owner2, ino, blk, o, data[cur - off..cur - off + chunk])
    ensures Progress(d0, t0, bm0, owner0, d2, t2, bm2, owner2, ino, off, blk * BLOCK_SIZE + o + chunk, data)
    ensures Place(owner1, bm1, LocOf(ino, blk)) == (true, owner2, bm2)
  {
    hide Progress, Own, Grow, FreeKept, Holds, OtherImages, OtherPlaces, Place, At, LocOf;
    var cur := blk * BLOCK_SIZE + o;
    assert cur / BLOCK_SIZE == blk && cur % BLOCK_SIZE == o;
    assert cur - off + chunk == cur + chunk - off;
    ProgressStep(d0, t0, bm0, owner0, d1, t1, bm1, owner1, d2, t2, bm2, owner2, ino, off, cur, cur + chunk, data);
  }

  lemma StuckProgress(d0: Disk, t0: Table, bm0: seq<bool>, owner0: Owners,
                      d1: Disk, t1: Table, bm1: seq<bool>, owner1: Owners,
                      d2: Disk, t2: Table, bm2: seq<bool>, owner2: Owners,
                      ino: nat, off: nat, blk: nat, o: nat, data: seq<byte>)
    requires o < BLOCK_SIZE && ino < TOTAL_INODES && blk < TRIPLE_END
    requires Progress(d0, t0, bm0, owner0, d1, t1, bm1, owner1, ino, off, blk * BLOCK_SIZE + o, data)
    requires PieceRefused(d1, t1, bm1, owner1, d2, t2, bm2, owner2, ino, blk)
    ensures Progress(d0, t0, bm0, owner0, d2, t2, bm2, owner2, ino, off, blk * BLOCK_SIZE + o, data)
    ensures |bm2| == TOTAL_BLOCKS && forall b :: 0 <= b < TOTAL_BLOCKS ==> bm2[b]
    ensures Place(owner1, bm1, LocOf(ino, blk)) == (false, owner2, bm2)
    ensures Img(d0, t0, ino, blk) == None
  {
    hide Progress, Own, Grow, At, LocOf, FreeKept, OtherImages, OtherPlaces, Place;
    var cur := blk * BLOCK_SIZE + o;
    assert cur / BLOCK_SIZE == blk;
    OwnSizes(d2, t2, bm2, owner2);
    ProgressStuck(d0, t0, bm0, owner0, d1, t1, bm1, owner1, d2, t2, bm2, owner2, ino, off, cur, data);
    ProgressParts(d0, t0, bm0, owner0, d1, t1, bm1, owner1, ino, off, cur, data);
    WasUnmapped(d0, t0, d1, t1, ino, off, cur, blk);
  }

  lemma WasUnmapped(d0: Disk, t0: Table, d1: Disk, t1: Table, ino: nat, off: nat, cur: nat, blk: nat)
    requires MapGrown(d0, t0, d1, t1, ino, off, cur) && blk < TRIPLE_END && At(d1, t1, LocOf(ino, blk)) == 0
    ensures Img(d0, t0, ino, blk) == None
  {
    hide At, LocOf, Touched;
    assert Img(d1, t1, ino, blk) == None;
  }

  // ---- the blocks a write takes ----

  /** How far a write gets when `k` is the first block refused. */
  function StopAt(off: nat, n: nat, k: nat): nat {
    if k >= EndBlock(off, n) then off + n else Max(off, k * BLOCK_SIZE)
  }

  /** The blocks taken, and the position reached, are those that mapping the blocks of the write in turn
      takes and reaches. */
  ghost predicate SpaceTaken(owner0: Owners, bm0: seq<bool>, owner: Owners, bm: seq<bool>,
                             ino: nat, off: nat, n: nat, cur: nat) {
    var (k, owner', bm') := PlaceAll(owner0, bm0, ino, off / BLOCK_SIZE, EndBlock(off, n));
    owner == owner' && bm == bm' && cur == StopAt(off, n, k)
  }

  /** Where a write loop stands: block `next` comes next, and position `cur` in it. */
  ghost predicate Underway(owner0: Owners, bm0: seq<bool>, owner: Owners, bm: seq<bool>,
                           ino: nat, off: nat, n: nat, cur: nat, next: nat) {
    && off / BLOCK_SIZE <= next <= EndBlock(off, n) && off <= cur <= off + n
    && PlaceAll(owner0, bm0, ino, off / BLOCK_SIZE, EndBlock(off, n))
       == PlaceAll(owner, bm, ino, next, EndBlock(off, n))
    && (if cur < off + n then next < EndBlock(off, n) && cur == Max(off, next * BLOCK_SIZE) && next == cur / BLOCK_SIZE
        else next == EndBlock(off, n))
  }

  lemma SpaceStart(owner: Owners, bm: seq<bool>, ino: nat, off: nat, n: nat)
    ensures Underway(owner, bm, owner, bm, ino, off, n, off, off / BLOCK_SIZE)
  {
    hide PlaceAll;
  }

  lemma SpaceStep(owner0: Owners, bm0: seq<bool>, owner: Owners, bm: seq<bool>, owner': Owners, bm': seq<bool>,
                  ino: nat, off: nat, n: nat, cur: nat, next: nat, o: nat, chunk: nat)
    requires Underway(owner0, bm0, owner, bm, ino, off, n, cur, next) && cur == next * BLOCK_SIZE + o && o < BLOCK_SIZE
    requires 0 < chunk && cur + chunk <= off + n && (cur + chunk == off + n || o + chunk == BLOCK_SIZE)
    requires o + chunk <= BLOCK_SIZE
    requires Place(owner, bm, LocOf(ino, next)) == (true, owner', bm')
    ensures Underway(owner0, bm0, owner', bm', ino, off, n, cur + chunk, next + 1)
  {
    hide Place, LocOf;
    if cur + chunk == off + n {
      assert (off + n - 1) / BLOCK_SIZE == next;
    } else {
      assert cur + chunk == (next + 1) * BLOCK_SIZE;
      assert next + 1 <= (off + n - 1) / BLOCK_SIZE;
    }
  }

  lemma SpaceRefused(owner0: Owners, bm0: seq<bool>, owner: Owners, bm: seq<bool>, owner': Owners, bm': seq<bool>,
                     ino: nat, off: nat, n: nat, cur: nat, next: nat)
    requires Underway(owner0, bm0, owner, bm, ino, off, n, cur, next) && cur < off + n
    requires Place(owner, bm, LocOf(ino, next)) == (false, owner', bm')
    ensures SpaceTaken(owner0, bm0, owner', bm', ino, off, n, cur)
  {
    hide Place, LocOf;
  }

  lemma SpaceDone(owner0: Owners, bm0: seq<bool>, owner: Owners, bm: seq<bool>, ino: nat, off: nat, n: nat, next: nat)
    requires Underway(owner0, bm0, owner, bm, ino, off, n, off + n, next)
    ensures SpaceTaken(owner0, bm0, owner, bm, ino, off, n, off + n)
  {
  }

  /** The write loop of `oscdfs_write`: position `cur` is divided into block and offset each round. */
  method WriteLoop(v: Volume, start: Inode, ghost ino: nat, off: nat, data: seq<byte>)
    returns (inode: Inode, total: nat)
    requires v.Meta() && ino < TOTAL_INODES == |v.inodes| && start == v.inodes[ino]
    requires Own(v.disk, v.inodes, v.bm, v.owner) && |data| < WORD_LIMIT
    requires off <= FUSE_LIMIT + (TOTAL_BLOCKS - FIRST_DATA_BLOCK) * BLOCK_SIZE
    modifies v`disk, v`blockBits, v`bm, v`sb, v`gd, v`owner
    ensures v.Meta() && total <= |data| && inode.kind == start.kind && inode.size == start.size
    ensures off + total < WORD_LIMIT
    ensures |v.bm| == TOTAL_BLOCKS && (total < |data| ==> forall b :: 0 <= b < TOTAL_BLOCKS ==> v.bm[b])
    ensures total < |data| ==> Img(old(v.disk), v.inodes, ino, (off + total) / BLOCK_SIZE) == None
    ensures total < |data| ==> total == 0 || (off + total) % BLOCK_SIZE == 0
    ensures Progress(old(v.disk), v.inodes, old(v.bm), old(v.owner), v.disk, v.inodes[ino := inode], v.bm, v.owner,
                     ino, off, off + total, data)
    ensures SpaceTaken(old(v.owner), old(v.bm), v.owner, v.bm, ino, off, |data|, off + total)
  {
    hide v.Meta, Own, Progress, U32, PieceStored, PieceRefused, Place, PlaceAll, LocOf, Img, Underway, SpaceTaken;
    inode := start;
    var remaining, cur := |data|, off;
    total := 0;
    ghost var next: nat := off / BLOCK_SIZE;
    assert v.inodes[ino := inode] == v.inodes;
    ProgressStart(v.disk, v.inodes, v.bm, v.owner, ino, off, data);
    SpaceStart(v.owner, v.bm, ino, off, |data|);
    OwnSizes(v.disk, v.inodes, v.bm, v.owner);
    LimitIsAligned();
    while remaining > 0
      modifies v`disk, v`blockBits, v`bm, v`sb, v`gd, v`owner
      invariant v.Meta() && inode.size == start.size && inode.kind == start.kind && |v.bm| == TOTAL_BLOCKS
      invariant total == |data| - remaining && cur == off + total && remaining >= 0 && cur < WORD_LIMIT
      invariant Progress(old(v.disk), v.inodes, old(v.bm), old(v.owner), v.disk, v.inodes[ino := inode],
                         v.bm, v.owner, ino, off, cur, data)
      invariant Underway(old(v.owner), old(v.bm), v.owner, v.bm, ino, off, |data|, cur, next)
    {
      ProgressBound(old(v.disk), v.inodes, old(v.bm), old(v.owner), v.disk, v.inodes[ino := inode], v.bm, v.owner,
                    ino, off, cur, data);
      ProgressParts(old(v.disk), v.inodes, old(v.bm), old(v.owner), v.disk, v.inodes[ino := inode], v.bm, v.owner,
                    ino, off, cur, data);
      var blk, o, chunk := PieceAt(cur, remaining);
      NextIs(old(v.owner), old(v.bm), v.owner, v.bm, ino, off, |data|, cur, next, blk, o);
      ghost var d1, t1, bm1, owner1 := v.disk, v.inodes[ino := inode], v.bm, v.owner;
      var phys;
      inode, phys := WritePiece(v, inode, ino, blk, o, data[total..total + chunk]);
      if phys < 0 {
        StuckProgress(old(v.disk), v.inodes, old(v.bm), old(v.owner), d1, t1, bm1, owner1,
                      v.disk, v.inodes[ino := inode], v.bm, v.owner, ino, off, blk, o, data);
        SpaceRefused(old(v.owner), old(v.bm), owner1, bm1, v.owner, v.bm, ino, off, |data|, cur, next);
        return;
      }
      NextProgress(old(v.disk), v.inodes, old(v.bm), old(v.owner), d1, t1, bm1, owner1,
                   v.disk, v.inodes[ino := inode], v.bm, v.owner, ino, off, blk, o, chunk, data);
      SpaceStep(old(v.owner), old(v.bm), owner1, bm1, v.owner, v.bm, ino, off, |data|, cur, next, o, chunk);
      ProgressParts(old(v.disk), v.inodes, old(v.bm), old(v.owner), v.disk, v.inodes[ino := inode], v.bm, v.owner,
                    ino, off, cur + chunk, data);
      next := next + 1;
      total, remaining, cur := U32(total + chunk), remaining - chunk, U32(cur + chunk);
    }
    SpaceDone(old(v.owner), old(v.bm), v.owner, v.bm, ino, off, |data|, next);
  }

  lemma NextIs(owner0: Owners, bm0: seq<bool>, owner: Owners, bm: seq<bool>,
               ino: nat, off: nat, n: nat, cur: nat, next: nat, blk: nat, o: nat)
    requires Underway(owner0, bm0, owner, bm, ino, off, n, cur, next) && cur < off + n
    requires cur == blk * BLOCK_SIZE + o && o < BLOCK_SIZE && cur < WORD_LIMIT
    ensures blk == next == cur / BLOCK_SIZE && blk < TRIPLE_END
    ensures cur == off || o == 0
  {
    hide PlaceAll;
  }

  /** Writes `data` to an open file at the descriptor's offset; returns how much fitted on the disk. The inode
      is always stored, so the file, with or without holes, holds what was stored in its blocks. */
  method OscdfsWrite(v: Volume, fd: int, data: seq<byte>, permitted: bool) returns (r: int)
    requires Mounted(v) && |data| < WORD_LIMIT
    modifies v`disk, v`blockBits, v`bm, v`sb, v`gd, v`owner, v`inodes, v`table, v.fds
    ensures Mounted(v) && KeepsDense(old(v.disk), old(v.inodes), v.disk, v.inodes)
    ensures old(Exact(v.bm, v.owner)) ==> Exact(v.bm, v.owner)
    ensures r == -1
            <==> !(0 <= fd < v.fds.Length && old(v.fds[fd].used) && old(v.fds[fd].mode) != ReadOnly && permitted)
    ensures r == -1 ==>
              v.disk == old(v.disk) && v.inodes == old(v.inodes) && v.bm == old(v.bm) && v.owner == old(v.owner)
                        && v.fds[..] == old(v.fds[..])
    ensures r != -1 ==> var f := old(v.fds[fd]);
                        && 0 <= r <= |data|
                        && v.fds[..] == old(v.fds[..])[fd := f.(offset := f.offset + r)]
                        && FileWritten(old(v.disk), old(v.inodes), old(v.bm), old(v.owner),
                                       v.disk, v.inodes, v.bm, v.owner, f.ino, f.offset, data, r)
  {
    hide v.Meta, Own, At, Content, FreeOwnNothing, Exact, Dense, KeepsDense, Mapped, OthersSame, Grow, Progress, FdsOk,
         FileWritten, SpaceTaken;
    KeepsDenseReflexive(v.disk, v.inodes);
    if fd < 0 || fd >= v.fds.Length || !v.fds[fd].used {
      return -1;
    }
    if v.fds[fd].mode == ReadOnly {
      return -1;
    }
    var ino := v.fds[fd].ino;
    SoundSizes(v);
    OpenFile(v.fds[..], v.inodes, v.im, fd);
    SizeBound(v, ino);
    ghost var fds0 := v.fds[..];
    var inode: Inode, ok: bool;
    ok, inode := ReadInode(v, ino);
    if !permitted {
      return -1;
    }
    var off, size := v.fds[fd].offset, inode.size;
    inode, r := WriteLoop(v, inode, ino, off, data);
    var cur := off + r;
    ghost var t := v.inodes[ino := inode];
    if cur > inode.size {
      inode := inode.(size := cur);
    }
    v.fds[fd] := v.fds[fd].(offset := cur);
    var _ := WriteInode(v, ino, inode);
    ProgressSaved(old(v.disk), old(v.inodes), old(v.bm), old(v.owner), v.disk, t, v.bm, v.owner, v.inodes, ino, off,
                  cur, data);
    WrittenFile(old(v.disk), old(v.inodes), old(v.bm), old(v.owner), v.disk, v.inodes, v.bm, v.owner, ino, off, data,
                r);
    WrittenDense(old(v.disk), old(v.inodes), old(v.bm), old(v.owner), v.disk, v.inodes, v.bm, v.owner, ino, off, data,
                 r);
    KeepsAt(old(v.disk), old(v.inodes), v.disk, v.inodes, FUSE_LIMIT);
    GrowExact(old(v.bm), old(v.owner), v.bm, v.owner, ino, v.im);
    FdsKept(fds0, old(v.inodes), v.inodes, v.im, fd, cur);
    assert v.fds[..] == fds0[fd := fds0[fd].(offset := cur)];
  }

  /** What a write through a descriptor leaves behind, down to every byte and every block number. */
  ghost predicate FileWritten(d0: Disk, t0: Table, bm0: seq<bool>, owner0: Owners,
                              d: Disk, t: Table, bm: seq<bool>, owner: Owners,
                              ino: nat, off: nat, data: seq<byte>, r: int) {
    && 0 <= r <= |data| && ino < |t0| == |t| == TOTAL_INODES && off <= t0[ino].size
    && OthersSame(d0, t0, d, t, ino) && (forall i :: 0 <= i < |t0| && i != ino ==> t[i] == t0[i])
    && t[ino].kind == t0[ino].kind == File && t[ino].size == Max(t0[ino].size, off + r)
    && Grow(bm0, owner0, bm, owner, ino) && FreeKept(d0, d, bm)
    && MapGrown(d0, t0, d, t, ino, off, off + r) && PlacesKept(d0, t0, d, t, ino)
    && BytesStored(d0, d, t, ino, off, off + r, data)
    && SpaceTaken(owner0, bm0, owner, bm, ino, off, |data|, off + r)
    && (r < |data| ==> && (forall b :: 0 <= b < |bm| ==> bm[b])
                       && Img(d0, t0, ino, (off + r) / BLOCK_SIZE) == None
                       && (r == 0 || (off + r) % BLOCK_SIZE == 0))
  }

  lemma KeepsDenseReflexive(d: Disk, t: Table)
    ensures KeepsDense(d, t, d, t)
  {
    hide Dense;
  }

  lemma WrittenFile(d0: Disk, t0: Table, bm0: seq<bool>, owner0: Owners,
                    d: Disk, t: Table, bm: seq<bool>, owner: Owners, ino: nat, off: nat, data: seq<byte>, r: nat)
    requires Progress(d0, t0, bm0, owner0, d, t, bm, owner, ino, off, off + r, data)
    requires r <= |data| && ino < |t0| == |t| == TOTAL_INODES && off <= t0[ino].size
    requires forall i :: 0 <= i < |t0| && i != ino ==> t[i] == t0[i]
    requires t[ino].kind == t0[ino].kind == File && t[ino].size == Max(t0[ino].size, off + r)
    requires SpaceTaken(owner0, bm0, owner, bm, ino, off, |data|, off + r)
    requires r < |data| ==> && (forall b :: 0 <= b < TOTAL_BLOCKS ==> bm[b])
                            && Img(d0, t0, ino, (off + r) / BLOCK_SIZE) == None
                            && (r == 0 || (off + r) % BLOCK_SIZE == 0)
    requires |bm| == TOTAL_BLOCKS
    ensures FileWritten(d0, t0, bm0, owner0, d, t, bm, owner, ino, off, data, r)
    ensures Own(d, t, bm, owner) && Grow(bm0, owner0, bm, owner, ino)
  {
    hide Own, Grow, OthersSame, MapGrown, PlacesKept, BytesStored, FreeKept, Progress, Img, SpaceTaken;
    ProgressParts(d0, t0, bm0, owner0, d, t, bm, owner, ino, off, off + r, data);
  }

  lemma WrittenDense(d0: Disk, t0: Table, bm0: seq<bool>, owner0: Owners,
                     d: Disk, t: Table, bm: seq<bool>, owner: Owners, ino: nat, off: nat, data: seq<byte>, r: int)
    requires FileWritten(d0, t0, bm0, owner0, d, t, bm, owner, ino, off, data, r)
    ensures KeepsDense(d0, t0, d, t)
  {
    hide Grow, OthersSame, MapGrown, PlacesKept, BytesStored, FreeKept, Mapped, Img, SpaceTaken, KeepsDense;
    forall from: nat | Mapped(d0, t0, ino, from, t0[ino].size)
      ensures Mapped(d, t, ino, from, t[ino].size)
    {
      DenseProgress(d0, t0, d, t, ino, from, t0[ino].size, off, off + r);
    }
    OneKeepsDense(d0, t0, d, t, ino);
  }

  /** On a file without holes the content is the one a write should leave; a short write stops at the first
      block past the end. */
  lemma DenseWritten(d0: Disk, t0: Table, bm0: seq<bool>, owner0: Owners,
                     d: Disk, t: Table, bm: seq<bool>, owner: Owners, ino: nat, off: nat, data: seq<byte>, r: int)
    requires FileWritten(d0, t0, bm0, owner0, d, t, bm, owner, ino, off, data, r)
    requires Mapped(d0, t0, ino, 0, t0[ino].size)
    ensures Content(d, t, ino) == WriteBytes(Content(d0, t0, ino), off, data[..r])
    ensures r < |data| ==> (off + r) % BLOCK_SIZE == 0 && off + r >= t0[ino].size
  {
    hide Grow, OthersSame, MapGrown, PlacesKept, BytesStored, Img, SpaceTaken, Content, WriteBytes;
    ContentWritten(d0, t0, d, t, ino, off, off + r, data);
    if r < |data| {
      var lb := (off + r) / BLOCK_SIZE;
      assert lb * BLOCK_SIZE >= t0[ino].size;
    }
  }

  // ---- the FUSE-side writer ----

  /** What is left when the inode is not stored: exactly what hangs below the root pointers that it had. */
  ghost predicate MapKept(d0: Disk, t0: Table, d: Disk, ino: nat, off: nat, cur: nat)
    requires ino < |t0|
  {
    forall lb: nat :: lb < TRIPLE_END ==>
      Img(d, t0, ino, lb).Some?
        == (Img(d0, t0, ino, lb).Some? || (Touched(lb, off, cur) && RootPtr(t0[ino], RootSlotOf(lb)) != 0))
  }

  ghost predicate BytesKept(d0: Disk, t0: Table, d: Disk, ino: nat, off: nat, cur: nat, data: seq<byte>)
    requires ino < |t0| && off <= cur <= off + |data|
  {
    forall k: nat :: k < WORD_LIMIT ==>
      ByteAt(d, t0, ino, k) == if RootPtr(t0[ino], RootSlotOf(BlockOf(k))) == 0 then 0
                               else if off <= k < cur then data[k - off]
                               else Beneath(d0, d, t0, ino, k)
  }

  /** The logical block of a 32-bit position. */
  function BlockOf(k: nat): (lb: nat)
    requires k < WORD_LIMIT
    ensures lb == k / BLOCK_SIZE && lb < TRIPLE_END
  {
    k / BLOCK_SIZE
  }

  /** Owners without what hangs below root pointers of `ino` that were not there before. */
  ghost function Rooted(owner: Owners, named: set<Loc>, ino: nat): Owners {
    map b | b in owner && (LocIno(owner[b]) != ino || Slot(ino, RootSlot(owner[b])) in named) :: owner[b]
  }

  /** What the writer leaves behind. The inode is stored only when the file has grown; otherwise blocks
      linked below new root pointers, for a hole or before the disk was full, are lost again. */
  ghost predicate InodeWritten(d0: Disk, t0: Table, bm0: seq<bool>, owner0: Owners,
                            d: Disk, t: Table, bm: seq<bool>, owner: Owners,
                            ino: nat, off: nat, data: seq<byte>, r: int, stored: nat)
    requires ino < |t0| == |t|
  {
    && OthersSame(d0, t0, d, t, ino) && stored <= |data| && off + |data| < WORD_LIMIT && FreeKept(d0, d, bm)
    && (forall i :: 0 <= i < |t0| && i != ino ==> t[i] == t0[i])
    && r == (if stored < |data| then -1 else |data|)
    && (r == -1 ==> && (forall b :: 0 <= b < |bm| ==> bm[b])
                    && Img(d0, t0, ino, (off + stored) / BLOCK_SIZE) == None)
    && var (k, owner', bm') := PlaceAll(owner0, bm0, ino, off / BLOCK_SIZE, EndBlock(off, |data|));
       && bm == bm' && off + stored == StopAt(off, |data|, k)
       && if r != -1 && off + |data| > t0[ino].size then
            && t[ino].kind == t0[ino].kind && t[ino].size == off + |data| && owner == owner'
            && MapGrown(d0, t0, d, t, ino, off, off + |data|) && PlacesKept(d0, t0, d, t, ino)
            && BytesStored(d0, d, t, ino, off, off + |data|, data)
          else
            && t == t0 && owner == Rooted(owner', owner0.Values, ino)
            && MapKept(d0, t0, d, ino, off, off + stored) && PlacesKept(d0, t0, d, t0, ino)
            && BytesKept(d0, t0, d, ino, off, off + stored, data)
  }

  /** When the file does not grow, a written byte is read back exactly when it is a zero or the root pointer
      that its block hangs below was there before: any other pointer linked on the way survives. */
  lemma HoleLosesData(d0: Disk, t0: Table, bm0: seq<bool>, owner0: Owners,
                      d: Disk, t: Table, bm: seq<bool>, owner: Owners, ino: nat, off: nat, data: seq<byte>,
                      r: int, stored: nat, k: nat)
    requires ino < |t0| == |t| && InodeWritten(d0, t0, bm0, owner0, d, t, bm, owner, ino, off, data, r, stored)
    requires r != -1 && off + |data| <= t0[ino].size && off <= k < off + |data|
    ensures k < |Content(d, t, ino)|
    ensures Content(d, t, ino)[k] == data[k - off] <==>
            data[k - off] == 0 || RootPtr(t0[ino], RootSlotOf(BlockOf(k))) != 0
  {
    hide OthersSame, MapKept, PlacesKept, Rooted, PlaceAll, ByteAt, RootPtr, Img, FreeKept;
  }

  /** Such a write is right exactly when no nonzero byte of it is lost that way, and no block that it is going to
      link into a hole for good holds a nonzero byte beside the data: all of this can be told from the state before. */
  lemma InPlaceExact(d0: Disk, t0: Table, bm0: seq<bool>, owner0: Owners,
                     d: Disk, t: Table, bm: seq<bool>, owner: Owners, ino: nat, off: nat, data: seq<byte>,
                     r: int, stored: nat)
    requires ino < |t0| == |t| == TOTAL_INODES && Own(d0, t0, bm0, owner0) && Own(d, t, bm, owner)
    requires InodeWritten(d0, t0, bm0, owner0, d, t, bm, owner, ino, off, data, r, stored)
    requires r != -1 && off + |data| <= t0[ino].size
    ensures Content(d, t, ino) == WriteBytes(Content(d0, t0, ino), off, data) <==>
            && (forall k: nat :: off <= k < off + |data| ==>
                  data[k - off] == 0 || RootPtr(t0[ino], RootSlotOf(BlockOf(k))) != 0)
            && (forall k: nat :: k < t0[ino].size && !(off <= k < off + |data|)
                                 && Img(d0, t0, ino, BlockOf(k)) == None
                                 && RootPtr(t0[ino], RootSlotOf(BlockOf(k))) != 0 ==>
                  LyingAt(d0, owner0, bm0, ino, off, |data|, k) == 0)
  {
    hide Own, OthersSame, MapKept, PlacesKept, Rooted, PlaceAll, ByteAt, RootPtr, Img, FreeKept, Beneath, BytesKept,
         WriteBytes, LyingAt;
    var c, w := Content(d, t, ino), WriteBytes(Content(d0, t0, ino), off, data);
    KeptLength(d0, d, bm);
    forall k: nat | k < t0[ino].size
      ensures |w| == |c| == t0[ino].size
      ensures off <= k < off + |data| ==>
        (c[k] == w[k] <==> data[k - off] == 0 || RootPtr(t0[ino], RootSlotOf(BlockOf(k))) != 0)
      ensures !(off <= k < off + |data|) ==>
        (c[k] == w[k] <==> (Img(d0, t0, ino, BlockOf(k)) == None && RootPtr(t0[ino], RootSlotOf(BlockOf(k))) != 0 ==>
                              LyingAt(d0, owner0, bm0, ino, off, |data|, k) == 0))
    {
      InPlaceAt(d0, t0, d, ino, off, data, k);
      LyingBelow(d0, t0, bm0, owner0, d, t, bm, owner, ino, off, |data|, k);
    }
    assert |w| == |c| by {
      WriteNeverShrinks(Content(d0, t0, ino), off, data);
    }
    if forall k: nat :: k < |c| ==> c[k] == w[k] {
      assert c == w;
    }
  }

  lemma KeptLength(d0: Disk, d: Disk, bm: seq<bool>)
    requires FreeKept(d0, d, bm)
    ensures |d| == |d0|
  {
  }

  /** The same for a FUSE write that makes the file longer. */
  lemma GrownExact(d0: Disk, t0: Table, bm0: seq<bool>, owner0: Owners,
                   d: Disk, t: Table, bm: seq<bool>, owner: Owners, ino: nat, off: nat, data: seq<byte>,
                   r: int, stored: nat)
    requires ino < |t0| == |t| == TOTAL_INODES && Own(d, t, bm, owner)
    requires InodeWritten(d0, t0, bm0, owner0, d, t, bm, owner, ino, off, data, r, stored)
    requires r != -1 && off + |data| > t0[ino].size
    ensures Content(d, t, ino) == Intended(Content(d0, t0, ino), off, data) <==>
            forall k: nat :: k < off && NoByte(d0, t0, ino, k) ==> LyingAt(d0, owner0, bm0, ino, off, |data|, k) == 0
  {
    hide Own, OthersSame, MapGrown, PlacesKept, BytesStored, PlaceAll, Content, Intended, NoByte, LyingAt, FreeKept;
    KeptLength(d0, d, bm);
    WriteExact(d0, t0, bm0, owner0, d, t, bm, owner, ino, off, data);
  }

  /** And for a write through a descriptor that stores all its data. */
  lemma WrittenExact(d0: Disk, t0: Table, bm0: seq<bool>, owner0: Owners,
                     d: Disk, t: Table, bm: seq<bool>, owner: Owners, ino: nat, off: nat, data: seq<byte>, r: int)
    requires Own(d, t, bm, owner) && FileWritten(d0, t0, bm0, owner0, d, t, bm, owner, ino, off, data, r) && r == |data|
    ensures Content(d, t, ino) == WriteBytes(Content(d0, t0, ino), off, data) <==>
            forall k: nat :: k < t0[ino].size && !(off <= k < off + |data|) && NoByte(d0, t0, ino, k) ==>
              LyingAt(d0, owner0, bm0, ino, off, |data|, k) == 0
  {
    hide Own, OthersSame, MapGrown, PlacesKept, BytesStored, PlaceAll, Content, WriteBytes, NoByte, LyingAt, FreeKept,
         Grow;
    KeptLength(d0, d, bm);
    WriteExact(d0, t0, bm0, owner0, d, t, bm, owner, ino, off, data);
  }

  /** What is beneath a position, told from the state before the write. */
  lemma LyingBelow(d0: Disk, t0: Table, bm0: seq<bool>, owner0: Owners, d: Disk, t: Table, bm: seq<bool>, owner: Owners,
                   ino: nat, off: nat, n: nat, k: nat)
    requires ino < |t0| == TOTAL_INODES && Own(d0, t0, bm0, owner0) && Own(d, t, bm, owner) && t == t0
    requires owner == Rooted(Planned(owner0, bm0, ino, off, n), owner0.Values, ino) && k < WORD_LIMIT
    ensures Beneath(d0, d, t, ino, k)
            == if RootPtr(t0[ino], RootSlotOf(BlockOf(k))) == 0 then 0 else LyingAt(d0, owner0, bm0, ino, off, n, k)
  {
    hide Own, At, LocOf, RootPtr, ValidLoc, LocIno, RootSlot, Height, Planned, Rooted, BlockAt, DiskByte;
    var lb := BlockOf(k);
    LocOfIsValid(ino, lb);
    if RootPtr(t0[ino], RootSlotOf(lb)) == 0 {
      NoRootNoBlock(d, t, ino, lb);
      NoBlockNoByte(d0, k);
    } else {
      AtSlot(d0, t0, ino, RootSlotOf(lb));
      NamedIffAt(d0, t0, bm0, owner0, Slot(ino, RootSlotOf(lb)));
      RootedBlock(d, t, bm, owner, Planned(owner0, bm0, ino, off, n), owner0.Values, ino, LocOf(ino, lb));
    }
  }

  lemma NoBlockNoByte(d: Disk, k: nat)
    ensures DiskByte(d, 0, k) == 0
  {
  }

  lemma RootedBlock(d: Disk, t: Table, bm: seq<bool>, owner: Owners, planned: Owners, named: set<Loc>, ino: nat, l: Loc)
    requires Own(d, t, bm, owner) && owner == Rooted(planned, named, ino) && ValidLoc(l) && LocIno(l) == ino
    requires Slot(ino, RootSlot(l)) in named
    ensures At(d, t, l) == BlockAt(planned, l)
  {
    hide At, ValidLoc, LocIno, RootSlot;
    NamedIffAt(d, t, bm, owner, l);
    if l in planned.Values {
      var b := BlockAt(planned, l);
      assert b in owner && owner[b] == l;
    }
  }

  lemma InPlaceAt(d0: Disk, t0: Table, d: Disk, ino: nat, off: nat, data: seq<byte>, k: nat)
    requires ino < |t0| == TOTAL_INODES && |d| == |d0| && off + |data| <= t0[ino].size && k < t0[ino].size
    requires MapKept(d0, t0, d, ino, off, off + |data|) && PlacesKept(d0, t0, d, t0, ino)
    requires BytesKept(d0, t0, d, ino, off, off + |data|, data)
    ensures var w := WriteBytes(Content(d0, t0, ino), off, data);
            var rooted := RootPtr(t0[ino], RootSlotOf(BlockOf(k))) != 0;
            && |w| == t0[ino].size
            && (off <= k < off + |data| ==> (ByteAt(d, t0, ino, k) == w[k] <==> data[k - off] == 0 || rooted))
            && (!(off <= k < off + |data|) ==>
                  (ByteAt(d, t0, ino, k) == w[k]
                   <==> (Img(d0, t0, ino, BlockOf(k)) == None && rooted ==> Beneath(d0, d, t0, ino, k) == 0)))
  {
    hide At, LocOf, RootPtr, Touched, WriteBytes;
    IntendedAt(Content(d0, t0, ino), off, data, k);
    var lb := BlockOf(k);
    if RootPtr(t0[ino], RootSlotOf(lb)) == 0 {
      NoRootNoBlock(d0, t0, ino, lb);
      NoRootNoBlock(d, t0, ino, lb);
    }
  }

  lemma NoRootNoBlock(d: Disk, t: Table, ino: nat, lb: nat)
    requires ino < |t| == TOTAL_INODES && lb < TRIPLE_END && RootPtr(t[ino], RootSlotOf(lb)) == 0
    ensures At(d, t, LocOf(ino, lb)) == 0 && Img(d, t, ino, lb) == None
  {
    hide At, LocOf, RootPtr, ValidLoc, LocIno, RootSlot, Height;
    LocOfIsValid(ino, lb);
    RootDecides(d, t, t, ino, LocOf(ino, lb));
  }

  /** On a dense file, at an offset within it, the writer does what a write should; when the disk fills up
      the stored part of the data stays written over the old content. */
  lemma FuseWriteDense(d0: Disk, t0: Table, bm0: seq<bool>, owner0: Owners,
                       d: Disk, t: Table, bm: seq<bool>, owner: Owners, ino: nat, off: nat, data: seq<byte>,
                       r: int, stored: nat)
    requires ino < |t0| == |t| == TOTAL_INODES
    requires InodeWritten(d0, t0, bm0, owner0, d, t, bm, owner, ino, off, data, r, stored)
    requires Mapped(d0, t0, ino, 0, t0[ino].size) && off <= t0[ino].size && |d| == |d0|
    ensures Mapped(d, t, ino, 0, t[ino].size)
    ensures r != -1 ==> Content(d, t, ino) == WriteBytes(Content(d0, t0, ino), off, data)
    ensures r == -1 ==> var c := Content(d0, t0, ino);
                        Content(d, t, ino) == WriteBytes(c, off, data[..stored])[..|c|]
  {
    hide OthersSame, MapGrown, MapKept, PlacesKept, Img, Touched, Content, WriteBytes, BytesStored, BytesKept, PlaceAll,
         Rooted, FreeKept;
    if r != -1 && off + |data| > t0[ino].size {
      DenseProgress(d0, t0, d, t, ino, 0, t0[ino].size, off, off + |data|);
      ContentWritten(d0, t0, d, t, ino, off, off + |data|, data);
      assert data[..|data|] == data;
    } else {
      KeptDense(d0, t0, d, ino, off, off + stored, data);
      assert r != -1 ==> data[..stored] == data;
    }
  }

  lemma KeptDense(d0: Disk, t0: Table, d: Disk, ino: nat, off: nat, cur: nat, data: seq<byte>)
    requires ino < |t0| == TOTAL_INODES && off <= cur <= off + |data| && off <= t0[ino].size && |d| == |d0|
    requires MapKept(d0, t0, d, ino, off, cur) && PlacesKept(d0, t0, d, t0, ino)
    requires BytesKept(d0, t0, d, ino, off, cur, data) && Mapped(d0, t0, ino, 0, t0[ino].size)
    ensures Mapped(d, t0, ino, 0, t0[ino].size)
    ensures var c := Content(d0, t0, ino);
            && Content(d, t0, ino) == WriteBytes(c, off, data[..cur - off])[..|c|]
            && (cur <= |c| ==> Content(d, t0, ino) == WriteBytes(c, off, data[..cur - off]))
  {
    hide Img, ByteAt, Beneath, Touched, RootPtr;
    var size := t0[ino].size;
    KeptMapped(d0, t0, d, ino, off, cur, 0);
    var c, c', w := Content(d0, t0, ino), Content(d, t0, ino), WriteBytes(Content(d0, t0, ino), off, data[..cur - off]);
    forall k: nat | k < size
      ensures c'[k] == w[..size][k]
    {
      assert BlockOf(k) * BLOCK_SIZE < size;
      assert Img(d0, t0, ino, BlockOf(k)).Some?;
      KeptByte(d0, t0, d, ino, off, cur, data, k);
    }
    assert c' == w[..size];
  }

  lemma KeptMapped(d0: Disk, t0: Table, d: Disk, ino: nat, off: nat, cur: nat, from: nat)
    requires ino < |t0| && MapKept(d0, t0, d, ino, off, cur) && Mapped(d0, t0, ino, from, t0[ino].size)
    ensures Mapped(d, t0, ino, from, t0[ino].size)
  {
    hide Img, Touched, RootPtr;
    forall lb: nat | from <= lb * BLOCK_SIZE < t0[ino].size
      ensures Img(d, t0, ino, lb).Some?
    {
      assert lb < TRIPLE_END;
      assert Img(d0, t0, ino, lb).Some?;
    }
  }

  /** A byte of a block that was mapped before. */
  lemma KeptByte(d0: Disk, t0: Table, d: Disk, ino: nat, off: nat, cur: nat, data: seq<byte>, k: nat)
    requires ino < |t0| == TOTAL_INODES && off <= cur <= off + |data| && k < WORD_LIMIT && |d| == |d0|
    requires PlacesKept(d0, t0, d, t0, ino) && BytesKept(d0, t0, d, ino, off, cur, data)
    requires Img(d0, t0, ino, BlockOf(k)).Some?
    ensures ByteAt(d, t0, ino, k) == if off <= k < cur then data[k - off] else ByteAt(d0, t0, ino, k)
  {
    hide At, LocOf, RootPtr;
    var lb := BlockOf(k);
    if RootPtr(t0[ino], RootSlotOf(lb)) == 0 {
      NoRootNoBlock(d0, t0, ino, lb);
      assert false;
    }
  }

  /** Going back to the stored inode. */
  lemma Abandoned(d0: Disk, t0: Table, bm0: seq<bool>, owner0: Owners,
                  d: Disk, t: Table, bm: seq<bool>, owner: Owners, ino: nat, off: nat, cur: nat, data: seq<byte>,
                  im: seq<bool>)
    requires Own(d0, t0, bm0, owner0) && ino < |t0| && off <= cur <= off + |data|
    requires Progress(d0, t0, bm0, owner0, d, t, bm, owner, ino, off, cur, data)
    requires |t| == |t0| && forall i :: 0 <= i < |t0| && i != ino ==> t[i] == t0[i]
    requires FreeOwnNothing(im, owner0) && ino < |im| && im[ino]
    ensures Own(d, t0, bm, StillNamed(d, t0, owner)) && FreeOwnNothing(im, StillNamed(d, t0, owner))
    ensures StillNamed(d, t0, owner) == Rooted(owner, owner0.Values, ino)
    ensures OthersSame(d0, t0, d, t0, ino)
    ensures MapKept(d0, t0, d, ino, off, cur) && PlacesKept(d0, t0, d, t0, ino)
    ensures BytesKept(d0, t0, d, ino, off, cur, data)
  {
    hide At, ValidLoc, Own, Grow, Img, Content, LocOf, RootPtr, LocIno, OthersSame, MapGrown, BytesStored, Touched,
         MapKept, BytesKept, PlacesKept, StillNamed, Rooted, RootSlot, Progress, FreeKept;
    OwnSizes(d0, t0, bm0, owner0);
    ProgressParts(d0, t0, bm0, owner0, d, t, bm, owner, ino, off, cur, data);
    forall s | 0 <= s < ROOT_SLOTS
      ensures RootPtr(t0[ino], s) == 0 || RootPtr(t0[ino], s) == RootPtr(t[ino], s)
    {
      AtSlot(d0, t0, ino, s);
      AtSlot(d, t, ino, s);
      if RootPtr(t0[ino], s) != 0 {
        KeptPoint(d0, t0, bm0, owner0, d, t, bm, owner, ino, Slot(ino, s));
      }
    }
    Forget(d, t, t0, bm, owner, ino);
    GrowExact(bm0, owner0, bm, owner, ino, im);
    StillNamedFewer(d, t0, owner, im);
    RootedIs(d0, t0, bm0, owner0, d, t, bm, owner, ino);
    AbandonedPlaces(d0, t0, d, t, ino, off, cur, data);
    AbandonedOthers(d0, t0, d, t, ino);
  }

  lemma StillNamedFewer(d: Disk, t: Table, owner: Owners, im: seq<bool>)
    requires FreeOwnNothing(im, owner)
    ensures FreeOwnNothing(im, StillNamed(d, t, owner))
  {
    hide At, LocIno;
  }

  /** What is still named is what hangs below an old root pointer. */
  lemma RootedIs(d0: Disk, t0: Table, bm0: seq<bool>, owner0: Owners,
                 d: Disk, t: Table, bm: seq<bool>, owner: Owners, ino: nat)
    requires Own(d0, t0, bm0, owner0) && Own(d, t, bm, owner) && ino < TOTAL_INODES == |t0| == |t|
    requires forall i :: 0 <= i < |t0| && i != ino ==> t[i] == t0[i]
    requires forall s :: 0 <= s < ROOT_SLOTS ==> RootPtr(t0[ino], s) == 0 || RootPtr(t0[ino], s) == RootPtr(t[ino], s)
    ensures StillNamed(d, t0, owner) == Rooted(owner, owner0.Values, ino)
  {
    hide At, ValidLoc, RootPtr, LocIno, RootSlot;
    forall b: nat | b in owner
      ensures At(d, t0, owner[b]) == b <==> LocIno(owner[b]) != ino || Slot(ino, RootSlot(owner[b])) in owner0.Values
    {
      var m := owner[b];
      RootDecides(d, t, t0, ino, m);
      AtSlot(d0, t0, ino, RootSlot(m));
      NamedIffAt(d0, t0, bm0, owner0, Slot(ino, RootSlot(m)));
    }
  }

  lemma AbandonedOthers(d0: Disk, t0: Table, d: Disk, t: Table, ino: nat)
    requires ino < TOTAL_INODES && OthersSame(d0, t0, d, t, ino)
    requires forall m :: LocIno(m) != ino ==> At(d, t0, m) == At(d, t, m)
    ensures OthersSame(d0, t0, d, t0, ino)
  {
    hide At, ValidLoc, LocOf, LocIno, Height, LbOf, RootSlot;
    forall i: nat, k: nat | i < TOTAL_INODES && k < TRIPLE_END && i != ino
      ensures Img(d, t0, i, k) == Img(d, t, i, k)
    {
      LocOfIsValid(i, k);
    }
    OthersSameTransitive(d0, t0, d, t, d, t0, ino);
  }

  lemma AbandonedPlaces(d0: Disk, t0: Table, d: Disk, t: Table, ino: nat, off: nat, cur: nat, data: seq<byte>)
    requires off <= cur <= off + |data| && ino < TOTAL_INODES == |t0| == |t| && |d| == |d0|
    requires forall i :: 0 <= i < |t0| && i != ino ==> t[i] == t0[i]
    requires forall s :: 0 <= s < ROOT_SLOTS ==> RootPtr(t0[ino], s) == 0 || RootPtr(t0[ino], s) == RootPtr(t[ino], s)
    requires MapGrown(d0, t0, d, t, ino, off, cur) && PlacesKept(d0, t0, d, t, ino)
    requires BytesStored(d0, d, t, ino, off, cur, data)
    ensures MapKept(d0, t0, d, ino, off, cur) && PlacesKept(d0, t0, d, t0, ino)
    ensures BytesKept(d0, t0, d, ino, off, cur, data)
  {
    hide At, LocOf, RootPtr, Touched;
    forall lb: nat | lb < TRIPLE_END
      ensures At(d, t0, LocOf(ino, lb)) == if RootPtr(t0[ino], RootSlotOf(lb)) == 0 then 0 else At(d, t, LocOf(ino, lb))
      ensures RootPtr(t0[ino], RootSlotOf(lb)) == 0 ==> Img(d0, t0, ino, lb) == None
    {
      RootOfBlock(d, t, t0, ino, lb);
      if RootPtr(t0[ino], RootSlotOf(lb)) == 0 {
        NoRootNoBlock(d0, t0, ino, lb);
      }
    }
    forall k: nat | k < WORD_LIMIT
      ensures ByteAt(d, t0, ino, k) == if RootPtr(t0[ino], RootSlotOf(BlockOf(k))) == 0 then 0
                                       else if off <= k < cur then data[k - off] else Beneath(d0, d, t0, ino, k)
    {
      var lb := BlockOf(k);
      assert At(d, t0, LocOf(ino, lb)) == if RootPtr(t0[ino], RootSlotOf(lb)) == 0 then 0 else At(d, t, LocOf(ino, lb));
      assert ByteAt(d, t, ino, k) == if off <= k < cur then data[k - off] else Beneath(d0, d, t, ino, k);
    }
  }

  lemma RootOfBlock(d: Disk, t: Table, t': Table, ino: nat, lb: nat)
    requires ino < TOTAL_INODES == |t| == |t'| && lb < TRIPLE_END
    requires forall i :: 0 <= i < |t| && i != ino ==> t'[i] == t[i]
    requires forall s :: 0 <= s < ROOT_SLOTS ==> RootPtr(t'[ino], s) == 0 || RootPtr(t'[ino], s) == RootPtr(t[ino], s)
    ensures At(d, t', LocOf(ino, lb)) == if RootPtr(t'[ino], RootSlotOf(lb)) == 0 then 0 else At(d, t, LocOf(ino, lb))
  {
    hide At, LocOf, RootPtr, ValidLoc, LocIno, RootSlot, Height;
    LocOfIsValid(ino, lb);
    RootDecides(d, t, t', ino, LocOf(ino, lb));
  }

  /** A write within the size of a file, or to before `from`, leaves no new hole above `from`. */
  lemma FuseKeepsDense(d0: Disk, t0: Table, bm0: seq<bool>, owner0: Owners,
                       d: Disk, t: Table, bm: seq<bool>, owner: Owners, ino: nat, off: nat, data: seq<byte>,
                       r: int, stored: nat, from: nat)
    requires ino < |t0| == |t| == TOTAL_INODES
    requires InodeWritten(d0, t0, bm0, owner0, d, t, bm, owner, ino, off, data, r, stored)
    requires Dense(d0, t0, from) && (off <= t0[ino].size || off + |data| <= from)
    ensures Dense(d, t, from)
  {
    hide OthersSame, MapGrown, MapKept, PlacesKept, Img, Touched, BytesStored, BytesKept, PlaceAll, Rooted, FreeKept,
         Mapped, Dense, RootPtr;
    DenseFile(d0, t0, ino, from);
    if r != -1 && off + |data| > t0[ino].size {
      if off <= t0[ino].size {
        DenseProgress(d0, t0, d, t, ino, from, t0[ino].size, off, off + |data|);
      } else {
        NothingAbove(d, t, ino, from, off + |data|);
      }
    } else {
      KeptMapped(d0, t0, d, ino, off, off + stored, from);
    }
    DenseKept(d0, t0, d, t, ino, from);
  }

  lemma NothingAbove(d: Disk, t: Table, ino: nat, from: nat, n: nat)
    requires n <= from
    ensures Mapped(d, t, ino, from, n)
  {
  }

  /** Putting together what a FUSE write leaves behind whose inode is not stored. */
  lemma UnsavedWritten(d0: Disk, t0: Table, bm0: seq<bool>, owner0: Owners, d: Disk, bm: seq<bool>, owner: Owners,
                       ino: nat, off: nat, data: seq<byte>, r: int, stored: nat)
    requires ino < |t0| && stored <= |data| && off + |data| < WORD_LIMIT
    requires OthersSame(d0, t0, d, t0, ino) && FreeKept(d0, d, bm) && PlacesKept(d0, t0, d, t0, ino)
    requires MapKept(d0, t0, d, ino, off, off + stored) && BytesKept(d0, t0, d, ino, off, off + stored, data)
    requires SpaceTaken(owner0, bm0, owner, bm, ino, off, |data|, off + stored)
    requires r == if stored < |data| then -1 else |data|
    requires r == -1 ==> forall b :: 0 <= b < |bm| ==> bm[b]
    requires r == -1 ==> Img(d0, t0, ino, (off + stored) / BLOCK_SIZE) == None
    requires r != -1 ==> off + |data| <= t0[ino].size
    ensures InodeWritten(d0, t0, bm0, owner0, d, t0, bm, Rooted(owner, owner0.Values, ino), ino, off, data, r, stored)
  {
    hide OthersSame, FreeKept, PlacesKept, MapKept, BytesKept, PlaceAll, Img, Rooted;
  }

  /** The same for one whose inode is stored. */
  lemma SavedWritten(d0: Disk, t0: Table, bm0: seq<bool>, owner0: Owners, d: Disk, t: Table, bm: seq<bool>,
                     owner: Owners, ino: nat, off: nat, data: seq<byte>)
    requires ino < |t0| == |t| && t0[ino].size < off + |data| < WORD_LIMIT
    requires OthersSame(d0, t0, d, t, ino) && FreeKept(d0, d, bm) && PlacesKept(d0, t0, d, t, ino)
    requires MapGrown(d0, t0, d, t, ino, off, off + |data|) && BytesStored(d0, d, t, ino, off, off + |data|, data)
    requires SpaceTaken(owner0, bm0, owner, bm, ino, off, |data|, off + |data|)
    requires forall i :: 0 <= i < |t0| && i != ino ==> t[i] == t0[i]
    requires t[ino].kind == t0[ino].kind && t[ino].size == off + |data|
    ensures InodeWritten(d0, t0, bm0, owner0, d, t, bm, owner, ino, off, data, |data|, |data|)
  {
    hide OthersSame, FreeKept, PlacesKept, MapGrown, BytesStored, PlaceAll;
  }

  /** The FUSE-side writer: steps a block counter, and stores the inode only when the file has grown.
      When the disk fills up it gives up; the first `stored` bytes stay written where blocks were mapped. */
  method OscdfsWriteInode(v: Volume, ino: nat, data: seq<byte>, offset: nat) returns (r: int, ghost stored: nat)
    requires Sound(v) && offset + |data| < WORD_LIMIT
    requires ino < |v.inodes| ==> v.im[ino]
    modifies v`disk, v`blockBits, v`bm, v`sb, v`gd, v`owner, v`inodes, v`table
    ensures Sound(v) && |old(v.inodes)| == |v.inodes| == TOTAL_INODES && |v.disk| == |old(v.disk)|
    ensures ino >= TOTAL_INODES ==>
              && r == -1 && v.disk == old(v.disk) && v.bm == old(v.bm) && v.inodes == old(v.inodes)
                                    && v.owner == old(v.owner)
    ensures ino < TOTAL_INODES ==>
              InodeWritten(old(v.disk), old(v.inodes), old(v.bm), old(v.owner), v.disk, v.inodes, v.bm, v.owner,
                           ino, offset, data, r, stored)
  {
    hide v.Meta, Own, At, Content, FreeOwnNothing, MapKept, BytesKept, MapGrown, BytesStored, PlacesKept, OthersSame,
         Grow, Progress, StillNamed, Rooted, PieceStored, PieceRefused, Place, PlaceAll, LocOf, Img, Underway, FreeKept,
         InodeWritten, SpaceTaken;
    SoundSizes(v);
    stored := 0;
    var inode: Inode, ok: bool;
    ok, inode := ReadInode(v, ino);
    if !ok {
      return -1, 0;
    }
    ghost var start := inode;
    var startBlk: nat, startOff: nat := offset / BLOCK_SIZE, offset % BLOCK_SIZE;
    var total, remaining, curOff := 0, |data|, offset;
    assert v.inodes[ino := inode] == v.inodes;
    ProgressStart(v.disk, v.inodes, v.bm, v.owner, ino, offset, data);
    SpaceStart(v.owner, v.bm, ino, offset, |data|);
    while remaining > 0
      modifies v`disk, v`blockBits, v`bm, v`sb, v`gd, v`owner
      invariant v.Meta() && inode.size == start.size && inode.kind == start.kind && v.inodes == old(v.inodes)
      invariant total == |data| - remaining && curOff == offset + total && remaining >= 0
      invariant startOff < BLOCK_SIZE && (remaining > 0 ==> curOff == startBlk * BLOCK_SIZE + startOff)
      invariant Progress(old(v.disk), v.inodes, old(v.bm), old(v.owner), v.disk, v.inodes[ino := inode],
                         v.bm, v.owner, ino, offset, curOff, data)
      invariant Underway(old(v.owner), old(v.bm), v.owner, v.bm, ino, offset, |data|, curOff, startBlk)
    {
      ghost var d1, t1, bm1, owner1 := v.disk, v.inodes[ino := inode], v.bm, v.owner;
      ProgressParts(old(v.disk), v.inodes, old(v.bm), old(v.owner), d1, t1, bm1, owner1, ino, offset, curOff, data);
      NextIs(old(v.owner), old(v.bm), v.owner, v.bm, ino, offset, |data|, curOff, startBlk, startBlk, startOff);
      var chunk := remaining;
      if chunk > BLOCK_SIZE - startOff {
        chunk := BLOCK_SIZE - startOff;
      }
      var phys;
      inode, phys := WritePiece(v, inode, ino, startBlk, startOff, data[total..total + chunk]);
      ghost var t2 := v.inodes[ino := inode];
      if phys < 0 {
        StuckProgress(old(v.disk), v.inodes, old(v.bm), old(v.owner), d1, t1, bm1, owner1,
                      v.disk, t2, v.bm, v.owner, ino, offset, startBlk, startOff, data);
        SpaceRefused(old(v.owner), old(v.bm), owner1, bm1, v.owner, v.bm, ino, offset, |data|, curOff, startBlk);
        ProgressParts(old(v.disk), v.inodes, old(v.bm), old(v.owner), v.disk, t2, v.bm, v.owner, ino, offset, curOff,
                      data);
        Abandoned(old(v.disk), v.inodes, old(v.bm), old(v.owner), v.disk, t2, v.bm, v.owner, ino, offset, curOff,
                  data, v.im);
        UnsavedWritten(old(v.disk), v.inodes, old(v.bm), old(v.owner), v.disk, v.bm, v.owner, ino, offset, data, -1,
                       total);
        v.owner := StillNamed(v.disk, v.inodes, v.owner);
        return -1, total;
      }
      NextProgress(old(v.disk), v.inodes, old(v.bm), old(v.owner), d1, t1, bm1, owner1,
                   v.disk, t2, v.bm, v.owner, ino, offset, startBlk, startOff, chunk, data);
      SpaceStep(old(v.owner), old(v.bm), owner1, bm1, v.owner, v.bm, ino, offset, |data|, curOff, startBlk, startOff,
                chunk);
      total := total + chunk;
      remaining := remaining - chunk;
      curOff := curOff + chunk;
      startBlk := startBlk + 1;
      startOff := 0;
    }
    SpaceDone(old(v.owner), old(v.bm), v.owner, v.bm, ino, offset, |data|, startBlk);
    ghost var t := v.inodes[ino := inode];
    ProgressParts(old(v.disk), v.inodes, old(v.bm), old(v.owner), v.disk, t, v.bm, v.owner, ino, offset, curOff, data);
    if curOff > inode.size {
      inode := inode.(size := curOff);
      var _ := WriteInode(v, ino, inode);
      ProgressSaved(old(v.disk), old(v.inodes), old(v.bm), old(v.owner), v.disk, t, v.bm, v.owner, v.inodes, ino,
                    offset, curOff, data);
      ProgressParts(old(v.disk), old(v.inodes), old(v.bm), old(v.owner), v.disk, v.inodes, v.bm, v.owner, ino, offset,
                    curOff, data);
      GrowExact(old(v.bm), old(v.owner), v.bm, v.owner, ino, v.im);
      SavedWritten(old(v.disk), old(v.inodes), old(v.bm), old(v.owner), v.disk, v.inodes, v.bm, v.owner, ino, offset,
                   data);
    } else {
      Abandoned(old(v.disk), v.inodes, old(v.bm), old(v.owner), v.disk, t, v.bm, v.owner, ino, offset, curOff, data,
                v.im);
      UnsavedWritten(old(v.disk), v.inodes, old(v.bm), old(v.owner), v.disk, v.bm, v.owner, ino, offset, data, total,
                     total);
      v.owner := StillNamed(v.disk, v.inodes, v.owner);
    }
    return total, total;
  }
}
