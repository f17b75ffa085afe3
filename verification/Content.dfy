/** File contents as a function of the block map, and what one block store does to them. */
module Contents {
  import opened Bytes
  import opened Layout
  import opened BlockMap
  import opened Space

  /** Byte `k` of an inode; an unmapped block reads as zeros. */
  ghost function ByteAt(d: Disk, t: Table, i: nat, k: nat): byte {
    match Img(d, t, i, k / BLOCK_SIZE)
    case None => 0
    case Some(b) => b[k % BLOCK_SIZE]
  }

  ghost function Content(d: Disk, t: Table, i: nat): (s: seq<byte>)
    requires i < |t|
    ensures |s| == t[i].size
  {
    seq(t[i].size, (k: nat) => ByteAt(d, t, i, k))
  }

  /** What a read of `n` bytes at `off` must return. */
  ghost function ReadBytes(c: seq<byte>, off: nat, n: nat): seq<byte> {
    if off >= |c| then [] else if off + n > |c| then c[off..] else c[off..off + n]
  }

  /** What a write of `data` at `off` must leave behind. */
  ghost function WriteBytes(c: seq<byte>, off: nat, data: seq<byte>): seq<byte>
    requires off <= |c|
  {
    c[..off] + data + if off + |data| < |c| then c[off + |data|..] else []
  }

  /** The blocks that begin in the positions [from, n) are all mapped. */
  ghost predicate Mapped(d: Disk, t: Table, i: nat, from: nat, n: nat) {
    forall lb: nat :: from <= lb * BLOCK_SIZE < n ==> Img(d, t, i, lb).Some?
  }

  ghost predicate OthersSame(d: Disk, t: Table, d': Disk, t': Table, ino: nat) {
    forall i: nat :: i < TOTAL_INODES && i != ino ==> SameImg(d, t, d', t', i)
  }

  function Max(a: nat, b: nat): nat {
    if a < b then b else a
  }

  // ---- fields of an inode that the map does not depend on ----

  ghost predicate SameRoots(t: Table, t': Table) {
    && |t'| == |t|
    && forall i, s :: 0 <= i < |t| && 0 <= s < ROOT_SLOTS ==> RootPtr(t'[i], s) == RootPtr(t[i], s)
  }

  lemma {:induction false} SameRootsAt(d: Disk, t: Table, t': Table, l: Loc)
    requires SameRoots(t, t')
    ensures At(d, t', l) == At(d, t, l)
  {
    hide Word;
    if l.Sub? {
      SameRootsAt(d, t, t', l.parent);
    }
  }

  lemma SameRootsOwn(d: Disk, t: Table, t': Table, bm: seq<bool>, owner: Owners)
    requires SameRoots(t, t')
    ensures Own(d, t, bm, owner) ==> Own(d, t', bm, owner)
    ensures forall i, lb :: Img(d, t', i, lb) == Img(d, t, i, lb)
  {
    hide At, ValidLoc, RootPtr;
    forall l
      ensures At(d, t', l) == At(d, t, l)
    {
      SameRootsAt(d, t, t', l);
    }
  }

  // ---- one round of the write loop ----

  /** Allocate logical block `lb`, then store `blk` there. */
  lemma StoreBlock(d0: Disk, t0: Table, bm0: seq<bool>, owner0: Owners,
                   d1: Disk, t1: Table, bm1: seq<bool>, owner1: Owners, ino: nat, lb: nat, r: int, blk: Block)
    requires Own(d0, t0, bm0, owner0) && ino < TOTAL_INODES && lb < TRIPLE_END
    requires Got(d0, t0, bm0, owner0, d1, t1, bm1, owner1, true, LocOf(ino, lb), r) && r != -1
    ensures 0 < r < |d1|
    ensures Own(d1[r := blk], t1, bm1, owner1) && Grow(bm0, owner0, bm1, owner1, ino)
    ensures Img(d0, t0, ino, lb).Some? ==> Img(d0, t0, ino, lb).value == d1[r]
    ensures Img(d1[r := blk], t1, ino, lb) == Some(blk)
    ensures forall i: nat, k: nat :: i < TOTAL_INODES && k < TRIPLE_END && (i != ino || k != lb) ==>
              Img(d1[r := blk], t1, i, k) == Img(d0, t0, i, k)
  {
    hide At, ValidLoc, Own, LocOf, Height, LocIno, DataKept, Grow, Img;
    LocOfIsValid(ino, lb);
    GotParts(d0, t0, bm0, owner0, d1, t1, bm1, owner1, true, LocOf(ino, lb), r);
    ImagesAfter(d0, t0, bm0, owner0, d1, t1, bm1, owner1, ino, lb, r);
    WriteData(d1, t1, bm1, owner1, ino, lb, blk);
  }

  lemma GotParts(d0: Disk, t0: Table, bm0: seq<bool>, owner0: Owners,
                 d: Disk, t: Table, bm: seq<bool>, owner: Owners, allocate: bool, l: Loc, r: int)
    requires Got(d0, t0, bm0, owner0, d, t, bm, owner, allocate, l, r)
    requires ValidLoc(l) && Height(l) == 0
    ensures At(d, t, l) == if r == -1 then 0 else r
    ensures Own(d, t, bm, owner) && Grow(bm0, owner0, bm, owner, LocIno(l)) && |d| == TOTAL_BLOCKS == |bm|
    ensures FreeKept(d0, d, bm) && (r != -1 ==> Untouched(d0, d, r))
  {
    hide At, ValidLoc, Height, LocIno, Grow, FreeKept, Untouched;
  }

  // ---- one piece of a write ----

  /** A block before and after a piece is stored in it. */
  ghost predicate PieceIn(before: Block, after: Block, o: nat, piece: seq<byte>) {
    && o + |piece| <= BLOCK_SIZE
    && forall x :: 0 <= x < BLOCK_SIZE ==> after[x] == if o <= x < o + |piece| then piece[x - o] else before[x]
  }

  ghost predicate OtherImages(d0: Disk, t0: Table, d: Disk, t: Table, ino: nat, lb: nat) {
    forall i: nat, k: nat :: i < TOTAL_INODES && k < TRIPLE_END && (i != ino || k != lb) ==>
      Img(d, t, i, k) == Img(d0, t0, i, k)
  }

  /** All other logical blocks of `ino` stay where they are. */
  ghost predicate OtherPlaces(d0: Disk, t0: Table, d: Disk, t: Table, ino: nat, lb: nat) {
    forall k: nat :: k < TRIPLE_END && k != lb ==> At(d, t, LocOf(ino, k)) == At(d0, t0, LocOf(ino, k))
  }

  /** Block `b`, named by logical block `lb`, holds the piece and otherwise what it held before, whoever
      owned it then. */
  ghost predicate Holds(d0: Disk, d: Disk, b: nat, o: nat, piece: seq<byte>) {
    0 < b < |d| == |d0| && PieceIn(d0[b], d[b], o, piece)
  }

  /** `piece` is stored at offset `o` of logical block `lb`, and nothing else has changed. */
  ghost predicate PieceStored(d0: Disk, t0: Table, bm0: seq<bool>, owner0: Owners,
                              d: Disk, t: Table, bm: seq<bool>, owner: Owners,
                              ino: nat, lb: nat, o: nat, piece: seq<byte>) {
    && Own(d, t, bm, owner) && Grow(bm0, owner0, bm, owner, ino) && FreeKept(d0, d, bm)
    && Holds(d0, d, At(d, t, LocOf(ino, lb)), o, piece)
    && OtherImages(d0, t0, d, t, ino, lb) && OtherPlaces(d0, t0, d, t, ino, lb)
    && Place(owner0, bm0, LocOf(ino, lb)) == (true, owner, bm)
    && if At(d0, t0, LocOf(ino, lb)) != 0
       then t == t0 && bm == bm0 && owner == owner0 && At(d, t, LocOf(ino, lb)) == At(d0, t0, LocOf(ino, lb))
       else At(d, t, LocOf(ino, lb)) < |bm0| && !bm0[At(d, t, LocOf(ino, lb))]
  }

  /** No block was left for logical block `lb`: pointer blocks may have been linked, no image has changed. */
  ghost predicate PieceRefused(d0: Disk, t0: Table, bm0: seq<bool>, owner0: Owners,
                               d: Disk, t: Table, bm: seq<bool>, owner: Owners, ino: nat, lb: nat) {
    && Own(d, t, bm, owner) && Grow(bm0, owner0, bm, owner, ino) && FreeKept(d0, d, bm)
    && OtherImages(d0, t0, d, t, ino, lb) && OtherPlaces(d0, t0, d, t, ino, lb)
    && Place(owner0, bm0, LocOf(ino, lb)) == (false, owner, bm)
    && At(d, t, LocOf(ino, lb)) == At(d0, t0, LocOf(ino, lb)) == 0
    && forall b :: 0 <= b < |bm| ==> bm[b]
  }

  lemma StoresPiece(d0: Disk, t0: Table, bm0: seq<bool>, owner0: Owners,
                    d: Disk, t: Table, bm: seq<bool>, owner: Owners, ino: nat, lb: nat, r: int,
                    o: nat, piece: seq<byte>, blk: Block, blk': Block)
    requires Own(d0, t0, bm0, owner0) && ino < TOTAL_INODES && lb < TRIPLE_END
    requires Got(d0, t0, bm0, owner0, d, t, bm, owner, true, LocOf(ino, lb), r) && 0 < r < |d|
    requires Placed(owner0, bm0, owner, bm, LocOf(ino, lb), r)
    requires o + |piece| <= BLOCK_SIZE && (blk == d[r] || |piece| == BLOCK_SIZE)
    requires blk' == blk[..o] + piece + blk[o + |piece|..]
    ensures PieceStored(d0, t0, bm0, owner0, d[r := blk'], t, bm, owner, ino, lb, o, piece)
  {
    hide At, ValidLoc, Own, LocOf, Grow, Img, LocIno, Height, DataKept, Place, OtherPlaces, Got;
    StoreBlock(d0, t0, bm0, owner0, d, t, bm, owner, ino, lb, r, blk');
    LocOfIsValid(ino, lb);
    GotParts(d0, t0, bm0, owner0, d, t, bm, owner, true, LocOf(ino, lb), r);
    StoredPlaces(d0, t0, bm0, owner0, d, t, bm, owner, ino, lb, r, blk');
    OwnSizes(d0, t0, bm0, owner0);
    assert Holds(d0, d[r := blk'], r, o, piece);
  }

  lemma StoredPlaces(d0: Disk, t0: Table, bm0: seq<bool>, owner0: Owners,
                     d: Disk, t: Table, bm: seq<bool>, owner: Owners, ino: nat, lb: nat, r: int, blk: Block)
    requires Own(d0, t0, bm0, owner0) && ino < TOTAL_INODES && lb < TRIPLE_END
    requires Got(d0, t0, bm0, owner0, d, t, bm, owner, true, LocOf(ino, lb), r) && 0 < r < |d|
    ensures OtherPlaces(d0, t0, d[r := blk], t, ino, lb) && At(d[r := blk], t, LocOf(ino, lb)) == r
    ensures r < |bm| && bm[r]
    ensures if At(d0, t0, LocOf(ino, lb)) != 0
            then t == t0 && bm == bm0 && owner == owner0 && At(d0, t0, LocOf(ino, lb)) == r
            else r < |bm0| && !bm0[r]
  {
    hide At, ValidLoc, Own, LocOf, LocIno, Height, DataKept, Untouched, FreeKept;
    LocOfIsValid(ino, lb);
    GotParts(d0, t0, bm0, owner0, d, t, bm, owner, true, LocOf(ino, lb), r);
    WriteData(d, t, bm, owner, ino, lb, blk);
    NamedIffAt(d0, t0, bm0, owner0, LocOf(ino, lb));
    NamedIffAt(d, t, bm, owner, LocOf(ino, lb));
    NamedInRange(d, t, bm, owner, LocOf(ino, lb));
    forall k: nat | k < TRIPLE_END && k != lb
      ensures At(d[r := blk], t, LocOf(ino, k)) == At(d0, t0, LocOf(ino, k))
    {
      LocOfIsValid(ino, k);
      GetIsPointUpdate(d0, t0, bm0, owner0, d, t, bm, owner, true, ino, lb, r, ino, k);
    }
    if At(d0, t0, LocOf(ino, lb)) == 0 {
      assert r !in owner0;
    }
  }

  lemma RefusesPiece(d0: Disk, t0: Table, bm0: seq<bool>, owner0: Owners,
                     d: Disk, t: Table, bm: seq<bool>, owner: Owners, ino: nat, lb: nat)
    requires Own(d0, t0, bm0, owner0) && ino < TOTAL_INODES && lb < TRIPLE_END
    requires Got(d0, t0, bm0, owner0, d, t, bm, owner, true, LocOf(ino, lb), -1)
    requires Placed(owner0, bm0, owner, bm, LocOf(ino, lb), -1)
    ensures PieceRefused(d0, t0, bm0, owner0, d, t, bm, owner, ino, lb)
  {
    hide At, ValidLoc, Own, LocOf, Grow, Img, LocIno, Height, DataKept, FreeKept, Place;
    LocOfIsValid(ino, lb);
    GotParts(d0, t0, bm0, owner0, d, t, bm, owner, true, LocOf(ino, lb), -1);
    GotNothing(d0, t0, bm0, owner0, d, t, bm, owner, ino, lb);
    forall k: nat | k < TRIPLE_END
      ensures At(d, t, LocOf(ino, k)) == At(d0, t0, LocOf(ino, k))
    {
      GetIsPointUpdate(d0, t0, bm0, owner0, d, t, bm, owner, true, ino, lb, -1, ino, k);
    }
  }

  lemma GotNothing(d1: Disk, t1: Table, bm1: seq<bool>, owner1: Owners,
                   d2: Disk, t2: Table, bm2: seq<bool>, owner2: Owners, ino: nat, lb: nat)
    requires Own(d1, t1, bm1, owner1) && ino < TOTAL_INODES && lb < TRIPLE_END
    requires Got(d1, t1, bm1, owner1, d2, t2, bm2, owner2, true, LocOf(ino, lb), -1)
    ensures forall i: nat, k: nat :: i < TOTAL_INODES && k < TRIPLE_END ==> Img(d2, t2, i, k) == Img(d1, t1, i, k)
    ensures Img(d1, t1, ino, lb) == None
  {
    hide At, ValidLoc, LocOf, LocIno, Height, Own, DataKept, Grow, Extends;
    LocOfIsValid(ino, lb);
    ImagesAfter(d1, t1, bm1, owner1, d2, t2, bm2, owner2, ino, lb, 0);
  }

  // ---- a whole write ----

  /** One past the last logical block of a write of `n` bytes at `off`. */
  function EndBlock(off: nat, n: nat): nat {
    if n == 0 then off / BLOCK_SIZE else (off + n - 1) / BLOCK_SIZE + 1
  }

  /** Who owns which block after a write of `n` bytes at `off`, as far as there is room: the free blocks go, the
      least one first, to the missing locations in turn. This is known before the write. */
  ghost function Planned(owner0: Owners, bm0: seq<bool>, ino: nat, off: nat, n: nat): Owners {
    PlaceAll(owner0, bm0, ino, off / BLOCK_SIZE, EndBlock(off, n)).1
  }

  /** The block that stands at a location, 0 for none. */
  ghost function BlockAt(owner: Owners, l: Loc): nat {
    if l in owner.Values then var b :| b in owner && owner[b] == l; b else 0
  }

  /** The byte that the disk holds, before the write, where position `k` of the file is going to be stored. */
  ghost function LyingAt(d0: Disk, owner0: Owners, bm0: seq<bool>, ino: nat, off: nat, n: nat, k: nat): byte {
    DiskByte(d0, BlockAt(Planned(owner0, bm0, ino, off, n), LocOf(ino, k / BLOCK_SIZE)), k)
  }

  lemma BlockAtIs(d: Disk, t: Table, bm: seq<bool>, owner: Owners, l: Loc)
    requires Own(d, t, bm, owner) && ValidLoc(l)
    ensures BlockAt(owner, l) == At(d, t, l)
  {
    hide At, ValidLoc;
    NamedIffAt(d, t, bm, owner, l);
  }

  /** What turns out to be beneath a position is what was lying there before. */
  lemma BeneathIsLying(d0: Disk, owner0: Owners, bm0: seq<bool>, d: Disk, t: Table, bm: seq<bool>, owner: Owners,
                       ino: nat, off: nat, n: nat, k: nat)
    requires Own(d, t, bm, owner) && owner == Planned(owner0, bm0, ino, off, n) && ino < TOTAL_INODES && k < WORD_LIMIT
    ensures Beneath(d0, d, t, ino, k) == LyingAt(d0, owner0, bm0, ino, off, n, k)
  {
    hide Own, At, LocOf, ValidLoc, Height, LocIno, RootSlot, DiskByte, BlockAt;
    LocOfIsValid(ino, k / BLOCK_SIZE);
    BlockAtIs(d, t, bm, owner, LocOf(ino, k / BLOCK_SIZE));
  }

  /** Logical block `lb` holds some of the positions [off, cur). */
  predicate Touched(lb: nat, off: nat, cur: nat) {
    off < cur && off / BLOCK_SIZE <= lb && lb * BLOCK_SIZE < cur
  }

  /** Exactly the blocks written to have been added to the map. */
  ghost predicate MapGrown(d0: Disk, t0: Table, d: Disk, t: Table, ino: nat, off: nat, cur: nat) {
    forall lb: nat :: lb < TRIPLE_END ==>
      Img(d, t, ino, lb).Some? == (Img(d0, t0, ino, lb).Some? || Touched(lb, off, cur))
  }

  /** What mapped blocks stay where they are. */
  ghost predicate PlacesKept(d0: Disk, t0: Table, d: Disk, t: Table, ino: nat) {
    forall lb: nat :: lb < TRIPLE_END && Img(d0, t0, ino, lb).Some? ==>
      At(d, t, LocOf(ino, lb)) == At(d0, t0, LocOf(ino, lb))
  }

  /** The byte that the disk held before (`d0`) where position `k` of inode `i` is stored now: the old byte of
      the file, or what the last owner of a newly linked block left there. */
  ghost function Beneath(d0: Disk, d: Disk, t: Table, i: nat, k: nat): byte {
    DiskByte(d0, At(d, t, LocOf(i, k / BLOCK_SIZE)), k)
  }

  /** The written positions hold the data, and every other position the byte that was on the disk there. */
  ghost predicate BytesStored(d0: Disk, d: Disk, t: Table, ino: nat, off: nat, cur: nat, data: seq<byte>)
    requires off <= cur <= off + |data|
  {
    forall k: nat :: k < WORD_LIMIT ==>
      ByteAt(d, t, ino, k) == if off <= k < cur then data[k - off] else Beneath(d0, d, t, ino, k)
  }

  /** The write loop has stored data[..cur - off]: ownership has only grown for `ino`, and nothing
      else has changed. */
  ghost predicate Progress(d0: Disk, t0: Table, bm0: seq<bool>, owner0: Owners,
                           d: Disk, t: Table, bm: seq<bool>, owner: Owners,
                           ino: nat, off: nat, cur: nat, data: seq<byte>) {
    && Own(d, t, bm, owner) && Grow(bm0, owner0, bm, owner, ino) && FreeKept(d0, d, bm)
    && OthersSame(d0, t0, d, t, ino) && PlacesKept(d0, t0, d, t, ino)
    && off <= cur <= off + |data|
    && MapGrown(d0, t0, d, t, ino, off, cur)
    && BytesStored(d0, d, t, ino, off, cur, data)
  }

  lemma ProgressStart(d: Disk, t: Table, bm: seq<bool>, owner: Owners, ino: nat, off: nat, data: seq<byte>)
    requires Own(d, t, bm, owner)
    ensures Progress(d, t, bm, owner, d, t, bm, owner, ino, off, off, data)
  {
    hide At, ValidLoc, LocIno, LocOf;
  }

  lemma OthersSameTransitive(d0: Disk, t0: Table, d1: Disk, t1: Table, d2: Disk, t2: Table, ino: nat)
    requires OthersSame(d0, t0, d1, t1, ino)
    requires forall i: nat, k: nat :: i < TOTAL_INODES && k < TRIPLE_END && i != ino ==>
               Img(d2, t2, i, k) == Img(d1, t1, i, k)
    ensures OthersSame(d0, t0, d2, t2, ino)
  {
    hide Img;
    forall i: nat, k: nat | i < TOTAL_INODES && i != ino && k < TRIPLE_END
      ensures Img(d2, t2, i, k) == Img(d0, t0, i, k)
    {
      assert SameImg(d0, t0, d1, t1, i);
    }
  }

  lemma GrowTransitive(bm0: seq<bool>, owner0: Owners, bm1: seq<bool>, owner1: Owners,
                       bm2: seq<bool>, owner2: Owners, ino: nat)
    requires Grow(bm0, owner0, bm1, owner1, ino) && Grow(bm1, owner1, bm2, owner2, ino)
    ensures Grow(bm0, owner0, bm2, owner2, ino)
  {
    hide LocIno;
  }

  lemma FreeKeptTransitive(d0: Disk, d1: Disk, d2: Disk, bm1: seq<bool>, owner1: Owners, bm2: seq<bool>,
                           owner2: Owners, ino: nat)
    requires FreeKept(d0, d1, bm1) && FreeKept(d1, d2, bm2) && Grow(bm1, owner1, bm2, owner2, ino)
    ensures FreeKept(d0, d2, bm2)
  {
    hide LocIno;
  }

  /** Going on within block `q` touches that block and no further one. */
  lemma TouchedStep(off: nat, cur: nat, cur': nat, q: nat, lb: nat)
    requires off <= cur < cur' && q * BLOCK_SIZE <= cur && cur' <= q * BLOCK_SIZE + BLOCK_SIZE
    ensures Touched(lb, off, cur') == (lb == q || Touched(lb, off, cur))
  {
  }

  lemma HeldIsMapped(d0: Disk, d: Disk, t: Table, ino: nat, lb: nat, o: nat, piece: seq<byte>)
    requires Holds(d0, d, At(d, t, LocOf(ino, lb)), o, piece)
    ensures Img(d, t, ino, lb) == Some(d[At(d, t, LocOf(ino, lb))])
  {
    hide At, LocOf, PieceIn;
  }

  lemma MapStep(d0: Disk, t0: Table, d1: Disk, t1: Table, d2: Disk, t2: Table, ino: nat, off: nat, cur: nat, cur': nat,
                q: nat)
    requires MapGrown(d0, t0, d1, t1, ino, off, cur) && PlacesKept(d0, t0, d1, t1, ino) && ino < TOTAL_INODES
    requires off <= cur < cur' && q * BLOCK_SIZE <= cur && cur' <= q * BLOCK_SIZE + BLOCK_SIZE
    requires Img(d2, t2, ino, q).Some? && OtherImages(d1, t1, d2, t2, ino, q) && OtherPlaces(d1, t1, d2, t2, ino, q)
    requires Img(d1, t1, ino, q).Some? ==> At(d2, t2, LocOf(ino, q)) == At(d1, t1, LocOf(ino, q))
    ensures MapGrown(d0, t0, d2, t2, ino, off, cur') && PlacesKept(d0, t0, d2, t2, ino)
  {
    hide Img, Touched, At, LocOf;
    forall lb: nat | lb < TRIPLE_END
      ensures Img(d2, t2, ino, lb).Some? == (Img(d0, t0, ino, lb).Some? || Touched(lb, off, cur'))
    {
      TouchedStep(off, cur, cur', q, lb);
    }
    forall lb: nat | lb < TRIPLE_END && Img(d0, t0, ino, lb).Some?
      ensures At(d2, t2, LocOf(ino, lb)) == At(d0, t0, LocOf(ino, lb))
    {
      assert Img(d1, t1, ino, lb).Some?;
    }
  }

  lemma BytesStep(d0: Disk, t0: Table, d1: Disk, t1: Table, bm1: seq<bool>, d2: Disk, t2: Table,
                  ino: nat, off: nat, cur: nat, cur': nat, data: seq<byte>)
    requires off <= cur < cur' <= off + |data| && cur' < WORD_LIMIT && ino < TOTAL_INODES
    requires BytesStored(d0, d1, t1, ino, off, cur, data) && MapGrown(d0, t0, d1, t1, ino, off, cur)
    requires FreeKept(d0, d1, bm1)
    requires var q, o := cur / BLOCK_SIZE, cur % BLOCK_SIZE;
             && cur' <= q * BLOCK_SIZE + BLOCK_SIZE
             && OtherImages(d1, t1, d2, t2, ino, q) && OtherPlaces(d1, t1, d2, t2, ino, q)
             && Holds(d1, d2, At(d2, t2, LocOf(ino, q)), o, data[cur - off..cur' - off])
             && if At(d1, t1, LocOf(ino, q)) != 0 then At(d2, t2, LocOf(ino, q)) == At(d1, t1, LocOf(ino, q))
                else At(d2, t2, LocOf(ino, q)) < |bm1| && !bm1[At(d2, t2, LocOf(ino, q))]
    ensures BytesStored(d0, d2, t2, ino, off, cur', data)
  {
    hide Touched, PieceIn, At, LocOf, MapGrown;
    var q, o := cur / BLOCK_SIZE, cur % BLOCK_SIZE;
    assert q < TRIPLE_END;
    forall k: nat | k < WORD_LIMIT
      ensures ByteAt(d2, t2, ino, k) == if off <= k < cur' then data[k - off] else Beneath(d0, d2, t2, ino, k)
    {
      var lb, x := k / BLOCK_SIZE, k % BLOCK_SIZE;
      assert k == lb * BLOCK_SIZE + x && lb < TRIPLE_END;
      if lb == q {
        var b := At(d2, t2, LocOf(ino, q));
        PieceByte(d1[b], d2[b], o, data[cur - off..cur' - off], x);
        assert ByteAt(d2, t2, ino, k) == d2[b][x];
        assert Beneath(d0, d2, t2, ino, k) == d0[b][x];
        if off <= k < cur {
          TouchedBy(d0, t0, d1, t1, ino, off, cur, k);
        }
        if At(d1, t1, LocOf(ino, q)) != 0 {
          assert ByteAt(d1, t1, ino, k) == d1[b][x] && Beneath(d0, d1, t1, ino, k) == d0[b][x];
        } else {
          assert d1[b] == d0[b];
        }
      } else {
        assert Img(d2, t2, ino, lb) == Img(d1, t1, ino, lb);
        assert Beneath(d0, d2, t2, ino, k) == Beneath(d0, d1, t1, ino, k);
      }
    }
  }

  lemma TouchedBy(d0: Disk, t0: Table, d1: Disk, t1: Table, ino: nat, off: nat, cur: nat, k: nat)
    requires MapGrown(d0, t0, d1, t1, ino, off, cur) && off <= k < cur && k < WORD_LIMIT
    ensures At(d1, t1, LocOf(ino, k / BLOCK_SIZE)) != 0
  {
    hide At, LocOf;
    assert Touched(k / BLOCK_SIZE, off, cur) && k / BLOCK_SIZE < TRIPLE_END;
    assert Img(d1, t1, ino, k / BLOCK_SIZE).Some?;
  }

  lemma PieceByte(before: Block, after: Block, o: nat, piece: seq<byte>, x: nat)
    requires PieceIn(before, after, o, piece) && x < BLOCK_SIZE
    ensures after[x] == if o <= x < o + |piece| then piece[x - o] else before[x]
  {
  }

  /** One more piece. */
  lemma ProgressStep(d0: Disk, t0: Table, bm0: seq<bool>, owner0: Owners,
                     d1: Disk, t1: Table, bm1: seq<bool>, owner1: Owners,
                     d2: Disk, t2: Table, bm2: seq<bool>, owner2: Owners,
                     ino: nat, off: nat, cur: nat, cur': nat, data: seq<byte>)
    requires Progress(d0, t0, bm0, owner0, d1, t1, bm1, owner1, ino, off, cur, data)
    requires ino < TOTAL_INODES && cur < cur' <= off + |data| && cur' < WORD_LIMIT
    requires cur' <= (cur / BLOCK_SIZE) * BLOCK_SIZE + BLOCK_SIZE
    requires PieceStored(d1, t1, bm1, owner1, d2, t2, bm2, owner2, ino, cur / BLOCK_SIZE, cur % BLOCK_SIZE,
                         data[cur - off..cur' - off])
    ensures Progress(d0, t0, bm0, owner0, d2, t2, bm2, owner2, ino, off, cur', data)
  {
    hide Own, Grow, Img, At, LocOf, MapGrown, PlacesKept, BytesStored, OthersSame, OtherImages, OtherPlaces, Holds,
         Place, FreeKept;
    var q := cur / BLOCK_SIZE;
    BytesStep(d0, t0, d1, t1, bm1, d2, t2, ino, off, cur, cur', data);
    HeldIsMapped(d1, d2, t2, ino, q, cur % BLOCK_SIZE, data[cur - off..cur' - off]);
    MappedMeansNamed(d1, t1, ino, q);
    MapStep(d0, t0, d1, t1, d2, t2, ino, off, cur, cur', q);
    GrowTransitive(bm0, owner0, bm1, owner1, bm2, owner2, ino);
    FreeKeptTransitive(d0, d1, d2, bm1, owner1, bm2, owner2, ino);
    OtherInodes(d1, t1, d2, t2, ino, q);
    OthersSameTransitive(d0, t0, d1, t1, d2, t2, ino);
  }

  lemma MappedMeansNamed(d: Disk, t: Table, ino: nat, lb: nat)
    ensures Img(d, t, ino, lb).Some? ==> At(d, t, LocOf(ino, lb)) != 0
  {
    hide At, LocOf;
  }

  lemma OtherInodes(d1: Disk, t1: Table, d2: Disk, t2: Table, ino: nat, q: nat)
    requires OtherImages(d1, t1, d2, t2, ino, q)
    ensures forall i: nat, k: nat :: i < TOTAL_INODES && k < TRIPLE_END && i != ino ==>
              Img(d2, t2, i, k) == Img(d1, t1, i, k)
  {
    hide Img;
  }

  /** A round that found the disk full. */
  lemma ProgressStuck(d0: Disk, t0: Table, bm0: seq<bool>, owner0: Owners,
                      d1: Disk, t1: Table, bm1: seq<bool>, owner1: Owners,
                      d2: Disk, t2: Table, bm2: seq<bool>, owner2: Owners,
                      ino: nat, off: nat, cur: nat, data: seq<byte>)
    requires Progress(d0, t0, bm0, owner0, d1, t1, bm1, owner1, ino, off, cur, data)
    requires ino < TOTAL_INODES
    requires PieceRefused(d1, t1, bm1, owner1, d2, t2, bm2, owner2, ino, cur / BLOCK_SIZE)
    ensures Progress(d0, t0, bm0, owner0, d2, t2, bm2, owner2, ino, off, cur, data)
  {
    hide Own, Grow, Img, At, LocOf, MapGrown, PlacesKept, BytesStored, OthersSame, OtherImages, OtherPlaces, Place,
         FreeKept;
    var q := cur / BLOCK_SIZE;
    GrowTransitive(bm0, owner0, bm1, owner1, bm2, owner2, ino);
    FreeKeptTransitive(d0, d1, d2, bm1, owner1, bm2, owner2, ino);
    OtherInodes(d1, t1, d2, t2, ino, q);
    OthersSameTransitive(d0, t0, d1, t1, d2, t2, ino);
    StuckPlaces(d1, t1, bm1, owner1, d2, t2, bm2, owner2, ino, q);
    SamePlacesSameBytes(d0, t0, d1, t1, d2, t2, ino, off, cur, data);
  }

  lemma StuckPlaces(d1: Disk, t1: Table, bm1: seq<bool>, owner1: Owners,
                    d2: Disk, t2: Table, bm2: seq<bool>, owner2: Owners, ino: nat, q: nat)
    requires PieceRefused(d1, t1, bm1, owner1, d2, t2, bm2, owner2, ino, q) && ino < TOTAL_INODES
    ensures forall k: nat :: k < TRIPLE_END ==> At(d2, t2, LocOf(ino, k)) == At(d1, t1, LocOf(ino, k))
                                                && Img(d2, t2, ino, k) == Img(d1, t1, ino, k)
  {
    hide Own, Grow, At, LocOf, Place, FreeKept;
  }

  lemma SamePlacesSameBytes(d0: Disk, t0: Table, d1: Disk, t1: Table, d2: Disk, t2: Table, ino: nat,
                            off: nat, cur: nat, data: seq<byte>)
    requires off <= cur <= off + |data|
    requires MapGrown(d0, t0, d1, t1, ino, off, cur) && PlacesKept(d0, t0, d1, t1, ino)
    requires BytesStored(d0, d1, t1, ino, off, cur, data)
    requires forall k: nat :: k < TRIPLE_END ==> At(d2, t2, LocOf(ino, k)) == At(d1, t1, LocOf(ino, k))
                                                 && Img(d2, t2, ino, k) == Img(d1, t1, ino, k)
    ensures MapGrown(d0, t0, d2, t2, ino, off, cur) && PlacesKept(d0, t0, d2, t2, ino)
    ensures BytesStored(d0, d2, t2, ino, off, cur, data)
  {
    hide Img, At, LocOf, Touched;
    forall k: nat | k < WORD_LIMIT
      ensures ByteAt(d2, t2, ino, k) == ByteAt(d1, t1, ino, k)
      ensures Beneath(d0, d2, t2, ino, k) == Beneath(d0, d1, t1, ino, k)
    {
      assert k / BLOCK_SIZE < TRIPLE_END;
    }
  }

  /** Storing the inode, with another size perhaps, changes no image. */
  lemma ProgressSaved(d0: Disk, t0: Table, bm0: seq<bool>, owner0: Owners,
                      d: Disk, t: Table, bm: seq<bool>, owner: Owners, t': Table, ino: nat, off: nat, cur: nat,
                      data: seq<byte>)
    requires ino < |t| == |t'| && t' == t[ino := t[ino].(size := t'[ino].size)]
    requires Progress(d0, t0, bm0, owner0, d, t, bm, owner, ino, off, cur, data)
    ensures Progress(d0, t0, bm0, owner0, d, t', bm, owner, ino, off, cur, data)
  {
    hide At, ValidLoc, Own, Grow, Img, LocOf, MapGrown, PlacesKept, BytesStored, OthersSame, FreeKept, RootPtr;
    SizeOnly(t, ino, t'[ino]);
    SameRootsOwn(d, t, t', bm, owner);
    OthersSameTransitive(d0, t0, d, t, d, t', ino);
    forall l
      ensures At(d, t', l) == At(d, t, l)
    {
      SameRootsAt(d, t, t', l);
    }
    SamePlacesSameBytes(d0, t0, d, t, d, t', ino, off, cur, data);
  }

  lemma SizeOnly(t: Table, i: nat, inode: Inode)
    requires i < |t| && inode == t[i].(size := inode.size)
    ensures SameRoots(t, t[i := inode])
  {
  }

  // ---- what a write means for the content ----

  /** A file that has no hole above `from` and is written to within its size or at its end keeps that. */
  lemma DenseProgress(d0: Disk, t0: Table, d: Disk, t: Table, ino: nat, from: nat, size: nat, off: nat, cur: nat)
    requires MapGrown(d0, t0, d, t, ino, off, cur) && Mapped(d0, t0, ino, from, size)
    requires off <= size && off <= cur && Max(size, cur) <= TRIPLE_END * BLOCK_SIZE
    ensures Mapped(d, t, ino, from, Max(size, cur))
  {
    hide Img;
    forall lb: nat | from <= lb * BLOCK_SIZE < Max(size, cur)
      ensures Img(d, t, ino, lb).Some?
    {
      assert lb < TRIPLE_END;
      if lb * BLOCK_SIZE < size {
        assert Img(d0, t0, ino, lb).Some?;
      }
    }
  }

  /** What lies beneath a position outside the write: the old byte where the block was mapped, and nothing
      where it still is not. */
  lemma BeneathIs(d0: Disk, t0: Table, d: Disk, t: Table, ino: nat, off: nat, cur: nat, k: nat)
    requires MapGrown(d0, t0, d, t, ino, off, cur) && PlacesKept(d0, t0, d, t, ino) && k < WORD_LIMIT && |d| == |d0|
    ensures Img(d0, t0, ino, k / BLOCK_SIZE).Some? ==> Beneath(d0, d, t, ino, k) == ByteAt(d0, t0, ino, k)
    ensures Img(d0, t0, ino, k / BLOCK_SIZE).None? && !Touched(k / BLOCK_SIZE, off, cur) ==>
              Beneath(d0, d, t, ino, k) == 0
    ensures Img(d0, t0, ino, k / BLOCK_SIZE).None? ==> ByteAt(d0, t0, ino, k) == 0
  {
    hide At, LocOf, Touched;
    assert k / BLOCK_SIZE < TRIPLE_END;
    var _ := Img(d, t, ino, k / BLOCK_SIZE);
  }

  /** What a write of `data` at `off` is meant to leave, also past the end: zeros in between. */
  ghost function Intended(c: seq<byte>, off: nat, data: seq<byte>): seq<byte> {
    if off <= |c| then WriteBytes(c, off, data) else c + seq(off - |c|, _ => 0) + data
  }

  /** Position `k` was no byte of the file: it lay past the end or in a hole. */
  ghost predicate NoByte(d0: Disk, t0: Table, ino: nat, k: nat)
    requires ino < |t0|
  {
    k >= t0[ino].size || Img(d0, t0, ino, k / BLOCK_SIZE) == None
  }

  /** A write whose inode is stored is right exactly when every position of the new content that was no byte of the
      file, and is not written to, is going to lie on a zero byte of the disk: neither the rest of the file's last
      block nor a block linked for the write is cleared, so what an earlier use left there shows. All of this can
      be told from the state before the write. */
  lemma WriteExact(d0: Disk, t0: Table, bm0: seq<bool>, owner0: Owners, d: Disk, t: Table, bm: seq<bool>, owner: Owners,
                   ino: nat, off: nat, data: seq<byte>)
    requires ino < |t0| == |t| == TOTAL_INODES && |d| == |d0| && BytesStored(d0, d, t, ino, off, off + |data|, data)
    requires MapGrown(d0, t0, d, t, ino, off, off + |data|) && PlacesKept(d0, t0, d, t, ino)
    requires t[ino].size == Max(t0[ino].size, off + |data|)
    requires Own(d, t, bm, owner) && owner == Planned(owner0, bm0, ino, off, |data|)
    ensures Content(d, t, ino) == Intended(Content(d0, t0, ino), off, data) <==>
            forall k: nat :: k < Max(t0[ino].size, off + |data|) && !(off <= k < off + |data|)
                             && NoByte(d0, t0, ino, k) ==>
              LyingAt(d0, owner0, bm0, ino, off, |data|, k) == 0
  {
    hide Own, ByteAt, Img, Beneath, Touched, MapGrown, PlacesKept, LyingAt, Planned;
    var c, w := Content(d, t, ino), Intended(Content(d0, t0, ino), off, data);
    assert |c| == |w|;
    forall k: nat | k < |c|
      ensures off <= k < off + |data| ==> c[k] == w[k]
      ensures !(off <= k < off + |data|) ==> c[k] == LyingAt(d0, owner0, bm0, ino, off, |data|, k)
      ensures !(off <= k < off + |data|) && !NoByte(d0, t0, ino, k) ==> c[k] == w[k]
      ensures !(off <= k < off + |data|) && NoByte(d0, t0, ino, k) ==> w[k] == 0
    {
      BeneathIs(d0, t0, d, t, ino, off, off + |data|, k);
      BeneathIsLying(d0, owner0, bm0, d, t, bm, owner, ino, off, |data|, k);
      IntendedAt(Content(d0, t0, ino), off, data, k);
    }
    if forall k: nat :: k < |c| && !(off <= k < off + |data|) && NoByte(d0, t0, ino, k) ==>
         LyingAt(d0, owner0, bm0, ino, off, |data|, k) == 0 {
      assert forall k: nat :: k < |c| ==> c[k] == w[k];
    }
  }

  lemma IntendedAt(c: seq<byte>, off: nat, data: seq<byte>, k: nat)
    requires k < Max(|c|, off + |data|)
    ensures |Intended(c, off, data)| == Max(|c|, off + |data|)
    ensures Intended(c, off, data)[k] ==
            if off <= k < off + |data| then data[k - off] else if k < |c| then c[k] else 0
  {
  }

  /** Growing a file by a write at or past its end is right exactly when all that was no byte of the file before
      the offset is zero on the disk already: what is left in blocks of the file behind its old end, and, when the
      block of the offset is going to be linked for the write, what its last owner left in it before the offset. */
  lemma WritePastEnd(d0: Disk, t0: Table, bm0: seq<bool>, owner0: Owners, d: Disk, t: Table, bm: seq<bool>,
                     owner: Owners, ino: nat, off: nat, data: seq<byte>)
    requires ino < |t0| == |t| == TOTAL_INODES && |d| == |d0| && BytesStored(d0, d, t, ino, off, off + |data|, data)
    requires MapGrown(d0, t0, d, t, ino, off, off + |data|) && PlacesKept(d0, t0, d, t, ino)
    requires t0[ino].size <= off && t[ino].size == off + |data|
    requires Own(d, t, bm, owner) && owner == Planned(owner0, bm0, ino, off, |data|)
    ensures Content(d, t, ino) == Content(d0, t0, ino) + seq(off - t0[ino].size, _ => 0) + data <==>
            forall k: nat :: k < off && NoByte(d0, t0, ino, k) ==> NothingLeft(d0, t0, bm0, owner0, ino, off, data, k)
  {
    hide Own, ByteAt, Img, Beneath, Touched, MapGrown, PlacesKept, BytesStored, At, LocOf, NothingLeft, NoByte, Content,
         LyingAt, Planned;
    WriteExact(d0, t0, bm0, owner0, d, t, bm, owner, ino, off, data);
    IntendedPastEnd(Content(d0, t0, ino), off, data);
    forall k: nat | k < off
      ensures LyingAt(d0, owner0, bm0, ino, off, |data|, k) == 0
              <==> NothingLeft(d0, t0, bm0, owner0, ino, off, data, k)
    {
      BeneathIsLying(d0, owner0, bm0, d, t, bm, owner, ino, off, |data|, k);
      NothingBeneath(d0, t0, bm0, owner0, d, t, ino, off, data, k);
    }
  }

  /** Nothing is going to show at position `k` before the offset: neither an old byte of a mapped block, nor a byte
      of the free block that is going to be linked for the offset. */
  ghost predicate NothingLeft(d0: Disk, t0: Table, bm0: seq<bool>, owner0: Owners, ino: nat, off: nat, data: seq<byte>,
                              k: nat) {
    if Img(d0, t0, ino, k / BLOCK_SIZE).Some? then ByteAt(d0, t0, ino, k) == 0
    else k / BLOCK_SIZE == off / BLOCK_SIZE && data != [] ==> LyingAt(d0, owner0, bm0, ino, off, |data|, k) == 0
  }

  lemma NothingBeneath(d0: Disk, t0: Table, bm0: seq<bool>, owner0: Owners, d: Disk, t: Table, ino: nat, off: nat,
                       data: seq<byte>, k: nat)
    requires |d| == |d0| && MapGrown(d0, t0, d, t, ino, off, off + |data|) && PlacesKept(d0, t0, d, t, ino)
    requires k < off < WORD_LIMIT && Beneath(d0, d, t, ino, k) == LyingAt(d0, owner0, bm0, ino, off, |data|, k)
    ensures LyingAt(d0, owner0, bm0, ino, off, |data|, k) == 0 <==> NothingLeft(d0, t0, bm0, owner0, ino, off, data, k)
  {
    hide ByteAt, Img, Touched, MapGrown, PlacesKept, At, LocOf, DiskByte, LyingAt;
    BeneathIs(d0, t0, d, t, ino, off, off + |data|, k);
    TouchedBefore(off, off + |data|, k);
  }

  lemma IntendedPastEnd(c: seq<byte>, off: nat, data: seq<byte>)
    requires |c| <= off
    ensures Intended(c, off, data) == c + seq(off - |c|, _ => 0) + data
  {
  }

  /** The byte of block `b` at position `k` of a file, 0 for no block. */
  function DiskByte(d: Disk, b: nat, k: nat): byte {
    if 0 < b < |d| then d[b][k % BLOCK_SIZE] else 0
  }

  lemma TouchedBefore(off: nat, cur: nat, k: nat)
    requires k < off <= cur
    ensures Touched(k / BLOCK_SIZE, off, cur) <==> k / BLOCK_SIZE == off / BLOCK_SIZE && off < cur
  {
  }

  /** Writing to mapped blocks of a file, or to blocks past its end, does to the content what it should. */
  lemma ContentWritten(d0: Disk, t0: Table, d: Disk, t: Table, ino: nat, off: nat, cur: nat, data: seq<byte>)
    requires ino < |t0| == |t| && |d| == |d0| && off <= cur <= off + |data| && off <= t0[ino].size
    requires BytesStored(d0, d, t, ino, off, cur, data)
    requires MapGrown(d0, t0, d, t, ino, off, cur) && PlacesKept(d0, t0, d, t, ino)
    requires Mapped(d0, t0, ino, 0, t0[ino].size)
    requires t[ino].size == Max(t0[ino].size, cur)
    ensures Content(d, t, ino) == WriteBytes(Content(d0, t0, ino), off, data[..cur - off])
  {
    hide ByteAt, Img, Touched, Beneath, MapGrown, PlacesKept;
    var c, w := Content(d, t, ino), WriteBytes(Content(d0, t0, ino), off, data[..cur - off]);
    forall k: nat | k < |c|
      ensures c[k] == w[k]
    {
      BeneathIs(d0, t0, d, t, ino, off, cur, k);
      if !(off <= k < cur) {
        assert (k / BLOCK_SIZE) * BLOCK_SIZE < t0[ino].size;
      }
    }
  }

  lemma ContentSame(d0: Disk, t0: Table, d: Disk, t: Table, i: nat)
    requires i < |t0| == |t| && SameImg(d0, t0, d, t, i) && t[i].size == t0[i].size
    ensures Content(d, t, i) == Content(d0, t0, i)
  {
    hide Img;
    forall k: nat | k < t[i].size
      ensures ByteAt(d, t, i, k) == ByteAt(d0, t0, i, k)
    {
      assert k / BLOCK_SIZE < TRIPLE_END;
    }
  }

  /** A file without holes above `from` is not much longer than that: at most 2038 blocks. */
  lemma DenseBound(d: Disk, t: Table, bm: seq<bool>, owner: Owners, ino: nat, from: nat, n: nat)
    requires Own(d, t, bm, owner) && ino < TOTAL_INODES && Mapped(d, t, ino, from, n)
    requires from % BLOCK_SIZE == 0 && from <= WORD_LIMIT
    ensures n <= from + (TOTAL_BLOCKS - FIRST_DATA_BLOCK) * BLOCK_SIZE
  {
    hide At, ValidLoc, Own, LocOf;
    var most, first := TOTAL_BLOCKS - FIRST_DATA_BLOCK, from / BLOCK_SIZE;
    assert first * BLOCK_SIZE == from;
    var m := if n > from + most * BLOCK_SIZE then most + 1 else 0;
    forall lb: nat | first <= lb < first + m
      ensures At(d, t, LocOf(ino, lb)) != 0
    {
      assert from <= lb * BLOCK_SIZE < n;
      assert Img(d, t, ino, lb).Some?;
    }
    MappedBound(d, t, bm, owner, ino, first, m);
  }

  // ---- splitting a transfer ----

  lemma WriteSplits(c: seq<byte>, off: nat, a: seq<byte>, b: seq<byte>)
    requires off <= |c|
    ensures WriteBytes(WriteBytes(c, off, a), off + |a|, b) == WriteBytes(c, off, a + b)
  {
  }

  lemma WriteNeverShrinks(c: seq<byte>, off: nat, data: seq<byte>)
    requires off <= |c|
    ensures |WriteBytes(c, off, data)| == Max(|c|, off + |data|)
  {
  }

  lemma ReadSplits(c: seq<byte>, off: nat, m: nat, n: nat)
    ensures ReadBytes(c, off, m) + ReadBytes(c, off + |ReadBytes(c, off, m)|, n) == ReadBytes(c, off, m + n)
  {
  }

  /** What was written is what is read back; everything else reads as before. */
  lemma ReadAfterWrite(c: seq<byte>, off: nat, data: seq<byte>, at: nat, n: nat)
    requires off <= |c|
    ensures ReadBytes(WriteBytes(c, off, data), off, |data|) == data
    ensures at + n <= off ==> ReadBytes(WriteBytes(c, off, data), at, n) == ReadBytes(c, at, n)
    ensures at >= off + |data| ==> ReadBytes(WriteBytes(c, off, data), at, n) == ReadBytes(c, at, n)
  {
  }
}
