/** dir.c: scanning a directory, and adding, finding and removing entries. */
module Directory {
  import opened Bytes
  import opened Layout
  import opened BlockMap
  import opened InodeTable
  import opened Volumes
  import opened InodeMap
  import opened Space
  import opened Contents
  import opened Invariants
  import opened Entries
  import FileIo

  /** The inner loop of every directory scan: the first slot of one block that the query hits. */
  method ScanBlock(b: Block, q: Query) returns (i: nat)
    ensures i <= SLOTS
    ensures forall x :: 0 <= x < i ==> !Hits(q, EntryAt(b, x))
    ensures i < SLOTS ==> Hits(q, EntryAt(b, i))
  {
    hide EntryAt, Hits;
    for k := 0 to SLOTS
      invariant forall x :: 0 <= x < k ==> !Hits(q, EntryAt(b, x))
    {
      if Hits(q, EntryAt(b, k)) {
        return k;
      }
    }
    return SLOTS;
  }

  /** The directory has fewer than TRIPLE_END blocks, so each of its blocks is mapped and the next is not. */
  lemma DirShape(d: Disk, t: Table, bm: seq<bool>, owner: Owners, i: nat)
    requires Own(d, t, bm, owner) && i < TOTAL_INODES
    ensures |BlocksFrom(d, t, i, 0)| <= TOTAL_BLOCKS - FIRST_DATA_BLOCK
    ensures forall k: nat :: k <= |BlocksFrom(d, t, i, 0)| ==>
              Img(d, t, i, k) == if k < |BlocksFrom(d, t, i, 0)| then Some(BlocksFrom(d, t, i, 0)[k]) else None
  {
    hide At, ValidLoc, Own, LocOf, BlocksFrom;
    var bs := BlocksFrom(d, t, i, 0);
    var n := if |bs| < TRIPLE_END then |bs| else TRIPLE_END;
    forall k: nat | k < n
      ensures At(d, t, LocOf(i, k)) != 0
    {
      BlocksFromImage(d, t, i, 0, k);
    }
    MappedBound(d, t, bm, owner, i, 0, n);
    forall k: nat | k <= |bs|
      ensures Img(d, t, i, k) == if k < |bs| then Some(bs[k]) else None
    {
      BlocksFromImage(d, t, i, 0, k);
    }
  }

  /** One block of a scan, seen in the flat list of entries. */
  lemma FlatBlock(bs: seq<Block>, k: nat, i: nat)
    requires k < |bs| && i < SLOTS
    ensures SLOTS * k + i < |Flat(bs)| && Flat(bs)[SLOTS * k + i] == EntryAt(bs[k], i)
  {
    hide EntryAt;
    assert (SLOTS * k + i) / SLOTS == k && (SLOTS * k + i) % SLOTS == i;
  }

  lemma ScannedBlock(bs: seq<Block>, q: Query, k: nat, i: nat)
    requires k < |bs| && i <= SLOTS
    requires forall x :: 0 <= x < SLOTS * k ==> !Hits(q, Flat(bs)[x])
    requires forall x :: 0 <= x < i ==> !Hits(q, EntryAt(bs[k], x))
    ensures forall x :: 0 <= x < SLOTS * k + i ==> !Hits(q, Flat(bs)[x])
  {
    hide EntryAt, Hits;
    forall x | 0 <= x < SLOTS * k + i
      ensures !Hits(q, Flat(bs)[x])
    {
      if x >= SLOTS * k {
        FlatBlock(bs, k, x - SLOTS * k);
      }
    }
  }

  /** The `while (1)` scan over the blocks of a directory. It ends because at most 2038 blocks can be
      mapped; `lb` is the logical block it stopped at, `phys` is -1 when no slot was hit. */
  method ScanDir(v: Volume, inode: Inode, ghost dir: nat, q: Query) returns (phys: int, lb: nat, i: nat, b: Block)
    requires Sound(v) && dir < |v.inodes| && inode == v.inodes[dir]
    modifies v`disk, v`blockBits, v`bm, v`sb, v`gd, v`owner
    ensures v.Meta() && v.disk == old(v.disk) && v.bm == old(v.bm) && v.owner == old(v.owner)
    ensures var bs := BlocksFrom(v.disk, v.inodes, dir, 0);
            && lb <= |bs| && |bs| < TRIPLE_END
            && Img(v.disk, v.inodes, dir, |bs|) == None
            && FirstHit(Flat(bs), q, 0) == (if phys == -1 then SLOTS * |bs| else SLOTS * lb + i)
            && (phys == -1 ==> lb == |bs|)
            && (phys != -1 ==> && lb < |bs| && i < SLOTS && b == bs[lb] && 0 < phys < |v.disk| && v.disk[phys] == b
                               && Flat(bs)[SLOTS * lb + i] == EntryAt(b, i)
                               && phys == At(v.disk, v.inodes, LocOf(dir, lb)))
  {
    hide v.Meta, Own, At, Got, LocOf, Img, BlocksFrom, FreeOwnNothing, EntryAt, Hits, Flat;
    SoundSizes(v);
    ghost var bs := BlocksFrom(v.disk, v.inodes, dir, 0);
    DirShape(v.disk, v.inodes, v.bm, v.owner, dir);
    lb := 0;
    while true
      modifies v`disk, v`blockBits, v`bm, v`sb, v`gd, v`owner
      invariant v.Meta() && v.disk == old(v.disk) && v.bm == old(v.bm) && v.owner == old(v.owner)
      invariant lb <= |bs|
      invariant forall x :: 0 <= x < SLOTS * lb ==> !Hits(q, Flat(bs)[x])
      decreases |bs| - lb
    {
      assert v.inodes[dir := inode] == v.inodes;
      var _, blk := InodeGetBlock(v, inode, lb, false, dir);
      FileIo.LookedUp(old(v.disk), v.inodes, old(v.bm), old(v.owner), v.disk, v.inodes, v.bm, v.owner, dir, lb, blk);
      LookedUpAt(old(v.disk), v.inodes, old(v.bm), old(v.owner), v.disk, v.inodes, v.bm, v.owner, dir, lb, blk);
      if blk < 0 {
        FirstHitIs(Flat(bs), q, |Flat(bs)|);
        return -1, lb, 0, ZERO;
      }
      b := v.disk[blk];
      i := ScanBlock(b, q);
      ScannedBlock(bs, q, lb, i);
      if i < SLOTS {
        FlatBlock(bs, lb, i);
        FirstHitIs(Flat(bs), q, SLOTS * lb + i);
        return blk, lb, i, b;
      }
      lb := lb + 1;
    }
  }

  lemma LookedUpAt(d: Disk, t: Table, bm: seq<bool>, owner: Owners,
                   d': Disk, t': Table, bm': seq<bool>, owner': Owners, ino: nat, lb: nat, r: int)
    requires Got(d, t, bm, owner, d', t', bm', owner', false, LocOf(ino, lb), r)
    ensures r >= -1 && (r != -1 ==> r == At(d, t, LocOf(ino, lb)))
  {
    hide At, ValidLoc, LocOf, Extends, DataUpdate;
  }

  /** The inode that `name` stands for in directory `dir`, -1 when there is none. */
  method DirFindEntry(v: Volume, dir: nat, name: Str) returns (r: int)
    requires Sound(v)
    modifies v`disk, v`blockBits, v`bm, v`sb, v`gd, v`owner
    ensures v.Meta() && v.disk == old(v.disk) && v.bm == old(v.bm) && v.owner == old(v.owner)
    ensures dir >= |v.inodes| || v.inodes[dir].kind != Dir ==> r == -1
    ensures dir < |v.inodes| && v.inodes[dir].kind == Dir ==>
              r == match Lookup(Ents(v.disk, v.inodes, dir), name)
                   case None => -1
                   case Some(ino) => ino
  {
    hide v.Meta, Own, At, LocOf, Img, BlocksFrom, FreeOwnNothing, Hits, Flat, EntryAt;
    SoundSizes(v);
    var inode: Inode, ok: bool;
    ok, inode := ReadInode(v, dir);
    if !ok || inode.kind != Dir {
      return -1;
    }
    var phys, lb, i, b := ScanDir(v, inode, dir, ByName(name));
    if phys < 0 {
      return -1;
    }
    return EntryAt(b, i).ino;
  }

  /** Nothing is mapped behind the first hole of a directory. */
  ghost predicate NoGap(d: Disk, t: Table, i: nat) {
    forall k: nat :: |BlocksFrom(d, t, i, 0)| <= k < TRIPLE_END ==> Img(d, t, i, k) == None
  }

  /** Only blocks that inode `i` owns have changed. */
  ghost predicate KeptBut(d: Disk, d': Disk, owner: Owners, i: nat) {
    |d'| == |d| && forall b :: 0 <= b < |d| && !(b in owner && LocIno(owner[b]) == i) ==> d'[b] == d[b]
  }

  lemma FreeIsKept(d: Disk, t: Table, bm: seq<bool>, owner: Owners, d': Disk, i: nat)
    requires Own(d, t, bm, owner) && KeptBut(d, d', owner, i)
    ensures FreeKept(d, d', bm)
  {
    hide At, ValidLoc, LocIno;
  }

  /** Overwriting one slot of a mapped directory block. */
  lemma StoreEntry(d: Disk, t: Table, bm: seq<bool>, owner: Owners, dir: nat, lb: nat, i: nat, e: Entry)
    requires Own(d, t, bm, owner) && dir < TOTAL_INODES
    requires lb < |BlocksFrom(d, t, dir, 0)| && i < SLOTS && e.ino < WORD_LIMIT && |e.name| <= 27
    ensures var bs, b := BlocksFrom(d, t, dir, 0), At(d, t, LocOf(dir, lb));
            && 0 < b < |d| && d[b] == bs[lb]
            && var d' := d[b := SetEntry(bs[lb], i, e)];
               && Own(d', t, bm, owner) && KeptBut(d, d', owner, dir)
               && OthersSame(d, t, d', t, dir)
               && Ents(d', t, dir) == Ents(d, t, dir)[SLOTS * lb + i := e]
               && KeepsDense(d, t, d', t) && (NoGap(d, t, dir) ==> NoGap(d', t, dir))
  {
    hide At, ValidLoc, Own, LocOf, BlocksFrom, SetEntry, Flat, KeepsDense, LocIno, Height, NoGap;
    OwnSizes(d, t, bm, owner);
    LocOfIsValid(dir, lb);
    var bs, b := BlocksFrom(d, t, dir, 0), At(d, t, LocOf(dir, lb));
    DirShape(d, t, bm, owner, dir);
    var blk := SetEntry(bs[lb], i, e);
    assert Img(d, t, dir, lb) == Some(bs[lb]);
    NamedIffAt(d, t, bm, owner, LocOf(dir, lb));
    var d' := d[b := blk];
    WriteData(d, t, bm, owner, dir, lb, blk);
    UpdatedBlocks(d, t, d', t, dir, bs, lb, blk);
    FlatUpdate(bs, lb, i, e);
    OthersFromImages(d, t, d', t, dir);
    MapsStill(d, t, d', t, dir);
    UpdatedGap(d, t, d', dir, lb);
  }

  lemma UpdatedGap(d: Disk, t: Table, d': Disk, dir: nat, lb: nat)
    requires lb < |BlocksFrom(d, t, dir, 0)| == |BlocksFrom(d', t, dir, 0)|
    requires forall k: nat :: k < TRIPLE_END && k != lb ==> Img(d', t, dir, k) == Img(d, t, dir, k)
    ensures NoGap(d, t, dir) ==> NoGap(d', t, dir)
  {
    hide Img, BlocksFrom;
  }

  lemma MapsStill(d: Disk, t: Table, d': Disk, t': Table, dir: nat)
    requires |t| == |t'| == TOTAL_INODES && dir < TOTAL_INODES && OthersSame(d, t, d', t', dir)
    requires forall i :: 0 <= i < |t| ==> t'[i] == t[i]
    requires forall k: nat :: k < TRIPLE_END && Img(d, t, dir, k).Some? ==> Img(d', t', dir, k).Some?
    ensures KeepsDense(d, t, d', t')
  {
    hide Img, Mapped, OthersSame, KeepsDense;
    forall from: nat | Mapped(d, t, dir, from, t[dir].size)
      ensures Mapped(d', t', dir, from, t'[dir].size)
    {
      MappedStill(d, t, d', t', dir, from, t[dir].size);
    }
    OneKeepsDense(d, t, d', t', dir);
  }

  lemma MappedStill(d: Disk, t: Table, d': Disk, t': Table, i: nat, from: nat, n: nat)
    requires Mapped(d, t, i, from, n) && n < WORD_LIMIT
    requires forall k: nat :: k < TRIPLE_END && Img(d, t, i, k).Some? ==> Img(d', t', i, k).Some?
    ensures Mapped(d', t', i, from, n)
  {
    hide Img;
    forall k: nat | from <= k * BLOCK_SIZE < n
      ensures Img(d', t', i, k).Some?
    {
      assert k < TRIPLE_END;
      assert Img(d, t, i, k).Some?;
    }
  }

  lemma OthersFromImages(d: Disk, t: Table, d': Disk, t': Table, dir: nat)
    requires forall i: nat, k: nat :: i < TOTAL_INODES && k < TRIPLE_END && i != dir ==>
               Img(d', t', i, k) == Img(d, t, i, k)
    ensures OthersSame(d, t, d', t', dir)
  {
    hide Img;
  }

  lemma UpdatedBlocks(d: Disk, t: Table, d': Disk, t': Table, dir: nat, bs: seq<Block>, lb: nat, blk: Block)
    requires lb < |bs| < TRIPLE_END
    requires forall k: nat :: k <= |bs| ==> Img(d, t, dir, k) == if k < |bs| then Some(bs[k]) else None
    requires forall k: nat :: k < TRIPLE_END ==>
               Img(d', t', dir, k) == if k == lb then Some(blk) else Img(d, t, dir, k)
    ensures BlocksFrom(d', t', dir, 0) == bs[lb := blk]
  {
    hide Img;
    var bs' := bs[lb := blk];
    forall k: nat | k < |bs'|
      ensures Img(d', t', dir, k) == Some(bs'[k])
    {
      assert Img(d, t, dir, k) == Some(bs[k]);
    }
    assert Img(d, t, dir, |bs|) == None;
    BlocksFromPrefix(d', t', dir, 0, bs');
    assert BlocksFrom(d', t', dir, |bs|) == [];
  }

  lemma ExtendedBlocks(d: Disk, t: Table, d': Disk, t': Table, dir: nat, bs: seq<Block>, blk: Block)
    requires |bs| + 1 < TRIPLE_END
    requires forall k: nat :: k < |bs| ==> Img(d, t, dir, k) == Some(bs[k])
    requires forall k: nat :: k < TRIPLE_END ==>
               Img(d', t', dir, k) == if k == |bs| then Some(blk) else Img(d, t, dir, k)
    ensures BlocksFrom(d', t', dir, 0) == bs + [blk] + BlocksFrom(d, t, dir, |bs| + 1)
  {
    hide Img;
    forall k: nat | k < |bs| + 1
      ensures Img(d', t', dir, k) == Some((bs + [blk])[k])
    {
    }
    BlocksFromPrefix(d', t', dir, 0, bs + [blk]);
    BlocksFromSameAbove(d, t, d', t', dir, |bs| + 1);
  }

  /** What removing `name` does to a directory's entries. */
  ghost function Removed(es: seq<Entry>, name: Str): seq<Entry> {
    var j := FirstHit(es, ByName(name), 0);
    if j < |es| then es[j := FREE] else es
  }

  /** Frees the first slot that holds `name`; fails, changing nothing, when there is none. */
  method DirRemoveEntry(v: Volume, dir: nat, name: Str) returns (ok: bool)
    requires Sound(v)
    modifies v`disk, v`blockBits, v`bm, v`sb, v`gd, v`owner, v`inodes, v`table
    ensures Sound(v) && v.bm == old(v.bm) && v.owner == old(v.owner) && v.inodes == old(v.inodes)
    ensures ok <==> && dir < |v.inodes| && v.inodes[dir].kind == Dir
                    && old(Lookup(Ents(v.disk, v.inodes, dir), name)).Some?
    ensures !ok ==> v.disk == old(v.disk)
    ensures ok ==> && Ents(v.disk, v.inodes, dir) == Removed(old(Ents(v.disk, v.inodes, dir)), name)
                   && OthersSame(old(v.disk), old(v.inodes), v.disk, v.inodes, dir)
    ensures KeepsDense(old(v.disk), old(v.inodes), v.disk, v.inodes) && KeptBut(old(v.disk), v.disk, v.owner, dir)
  {
    hide v.Meta, Own, At, LocOf, Img, BlocksFrom, FreeOwnNothing, Hits, Flat, EntryAt, SetEntry, OthersSame, KeepsDense,
         NoGap, KeptBut;
    SoundSizes(v);
    FileIo.KeepsDenseReflexive(v.disk, v.inodes);
    NothingChanged(v.disk, v.owner, dir);
    var inode: Inode, found: bool;
    found, inode := ReadInode(v, dir);
    if !found || inode.kind != Dir {
      return false;
    }
    var phys, lb, i, b := ScanDir(v, inode, dir, ByName(name));
    if phys < 0 {
      return false;
    }
    StoreEntry(v.disk, v.inodes, v.bm, v.owner, dir, lb, i, FREE);
    b := SetEntry(b, i, FREE);
    v.disk := v.disk[phys := b];
    ok := WriteInode(v, dir, inode);
    assert v.inodes == old(v.inodes);
  }

  lemma NothingChanged(d: Disk, owner: Owners, i: nat)
    ensures KeptBut(d, d, owner, i)
  {
  }

  /** What adding an entry does: the first free slot takes it; when there is none a new block goes in
      at the end, before whatever lay beyond the end (nothing, in a directory without holes). */
  ghost function Added(es: seq<Entry>, e: Entry, beyond: seq<Entry>): seq<Entry> {
    var j := FirstHit(es, FreeSlot, 0);
    if j < |es| then es[j := e] else es + ([e] + seq(SLOTS - 1, _ => FREE)) + beyond
  }

  ghost function Beyond(d: Disk, t: Table, i: nat): seq<Entry> {
    Flat(BlocksFrom(d, t, i, |BlocksFrom(d, t, i, 0)| + 1))
  }

  /** Dropping the inode after a failed allocation leaks what was linked, and changes no image. */
  lemma AbandonedLookup(d0: Disk, t0: Table, bm0: seq<bool>, owner0: Owners,
                        d: Disk, t: Table, bm: seq<bool>, owner: Owners, ino: nat, lb: nat, im: seq<bool>)
    requires Own(d0, t0, bm0, owner0) && ino < TOTAL_INODES && lb < TRIPLE_END
    requires Got(d0, t0, bm0, owner0, d, t, bm, owner, true, LocOf(ino, lb), -1)
    requires |t| == |t0| && forall i :: 0 <= i < |t0| && i != ino ==> t[i] == t0[i]
    requires FreeOwnNothing(im, owner0) && ino < |im| && im[ino]
    ensures Own(d, t0, bm, StillNamed(d, t0, owner)) && FreeOwnNothing(im, StillNamed(d, t0, owner))
    ensures (forall i: nat :: i < TOTAL_INODES ==> SameImg(d0, t0, d, t0, i)) && FreeKept(d0, d, bm)
  {
    hide At, ValidLoc, Own, Grow, LocOf, RootPtr, LocIno, Height, LbOf, DataKept, FreeKept, RootSlot;
    OwnSizes(d0, t0, bm0, owner0);
    LocOfIsValid(ino, lb);
    GotParts(d0, t0, bm0, owner0, d, t, bm, owner, true, LocOf(ino, lb), -1);
    GotNothing(d0, t0, bm0, owner0, d, t, bm, owner, ino, lb);
    forall s | 0 <= s < ROOT_SLOTS
      ensures RootPtr(t0[ino], s) == 0 || RootPtr(t0[ino], s) == RootPtr(t[ino], s)
    {
      AtSlot(d0, t0, ino, s);
      AtSlot(d, t, ino, s);
      if RootPtr(t0[ino], s) != 0 {
        KeptPoint(d0, t0, bm0, owner0, d, t, bm, owner, ino, Slot(ino, s));
      }
    }
    Forget(d, t, t0, bm, owner, ino);
    GrowExact(bm0, owner0, bm, owner, ino, im);
    forall i: nat, k: nat | i < TOTAL_INODES && k < TRIPLE_END
      ensures Img(d, t0, i, k) == Img(d0, t0, i, k)
    {
      LocOfIsValid(i, k);
      var l := LocOf(i, k);
      assert Img(d, t, i, k) == Img(d0, t0, i, k);
      if At(d0, t0, l) != 0 {
        KeptPoint(d0, t0, bm0, owner0, d, t, bm, owner, ino, l);
      } else {
        ForgetPoint(d, t, t0, ino, l);
      }
    }
  }

  /** A new block at the end of a directory, holding one entry. */
  lemma AppendEntry(d0: Disk, t0: Table, bm0: seq<bool>, owner0: Owners,
                    d1: Disk, t1: Table, bm1: seq<bool>, owner1: Owners, t: Table, dir: nat, lb: nat, r: int, e: Entry)
    requires Own(d0, t0, bm0, owner0) && dir < TOTAL_INODES && lb == |BlocksFrom(d0, t0, dir, 0)| && lb < TRIPLE_END
    requires Got(d0, t0, bm0, owner0, d1, t1, bm1, owner1, true, LocOf(dir, lb), r) && r != -1
    requires SameRoots(t1, t) && e.ino < WORD_LIMIT && |e.name| <= 27
    ensures 0 < r < |d1|
    ensures var d := d1[r := SetEntry(ZERO, 0, e)];
            && Own(d, t, bm1, owner1) && Grow(bm0, owner0, bm1, owner1, dir)
            && OthersSame(d0, t0, d, t, dir) && FreeKept(d0, d, bm1)
            && Ents(d, t, dir) == Ents(d0, t0, dir) + ([e] + seq(SLOTS - 1, _ => FREE)) + Beyond(d0, t0, dir)
            && (NoGap(d0, t0, dir) ==> NoGap(d, t, dir))
  {
    hide At, ValidLoc, Own, LocOf, BlocksFrom, SetEntry, Flat, Got, Grow, Img, SameRoots, Height, LocIno, RootSlot,
         NoGap;
    LocOfIsValid(dir, lb);
    GotParts(d0, t0, bm0, owner0, d1, t1, bm1, owner1, true, LocOf(dir, lb), r);
    var bs, blk := BlocksFrom(d0, t0, dir, 0), SetEntry(ZERO, 0, e);
    DirShape(d0, t0, bm0, owner0, dir);
    StoreBlock(d0, t0, bm0, owner0, d1, t1, bm1, owner1, dir, lb, r, blk);
    NamedInRange(d1, t1, bm1, owner1, LocOf(dir, lb));
    var d := d1[r := blk];
    SameRootsOwn(d, t1, t, bm1, owner1);
    OthersFromImages(d0, t0, d, t, dir);
    ExtendedBlocks(d0, t0, d, t, dir, bs, blk);
    ExtendedGap(d0, t0, d, t, dir, lb);
    FlatFresh(e);
    FlatConcat(bs, [blk]);
    FlatConcat(bs + [blk], BlocksFrom(d0, t0, dir, lb + 1));
  }

  lemma ExtendedGap(d: Disk, t: Table, d': Disk, t': Table, dir: nat, lb: nat)
    requires lb == |BlocksFrom(d, t, dir, 0)| && |BlocksFrom(d', t', dir, 0)| >= lb + 1
    requires forall k: nat :: k < TRIPLE_END && k != lb ==> Img(d', t', dir, k) == Img(d, t, dir, k)
    ensures NoGap(d, t, dir) ==> NoGap(d', t', dir)
  {
    hide Img, BlocksFrom;
  }

  /** Adds an entry, growing the directory by a block when every slot is taken. */
  method DirAddEntry(v: Volume, dir: nat, name: Str, entryIno: nat) returns (ok: bool)
    requires Sound(v) && entryIno < WORD_LIMIT && (dir < |v.inodes| ==> v.im[dir])
    modifies v`disk, v`blockBits, v`bm, v`sb, v`gd, v`owner, v`inodes, v`table
    ensures Sound(v)
    ensures ok ==> dir < |v.inodes| && v.inodes[dir].kind == Dir
    ensures dir >= |v.inodes| || old(v.inodes)[dir].kind != Dir ==>
              !ok && v.disk == old(v.disk) && v.bm == old(v.bm) && v.owner == old(v.owner) && v.inodes == old(v.inodes)
    ensures !ok ==> v.inodes == old(v.inodes)
    ensures dir < |v.inodes| && old(v.inodes)[dir].kind == Dir ==>
              && OthersSame(old(v.disk), old(v.inodes), v.disk, v.inodes, dir)
              && (forall i :: 0 <= i < |v.inodes| && i != dir ==> v.inodes[i] == old(v.inodes[i]))
              && var es := old(Ents(v.disk, v.inodes, dir));
                 var j := FirstHit(es, FreeSlot, 0);
                 && (j < |es| ==> ok && v.bm == old(v.bm) && v.owner == old(v.owner) && v.inodes == old(v.inodes))
                 && (ok ==> && Ents(v.disk, v.inodes, dir)
                               == Added(es, Entry(entryIno, Cut(name)), old(Beyond(v.disk, v.inodes, dir)))
                            && Grow(old(v.bm), old(v.owner), v.bm, v.owner, dir)
                            && (old(NoGap(v.disk, v.inodes, dir)) ==> NoGap(v.disk, v.inodes, dir)))
                 && (!ok ==> && SameImg(old(v.disk), old(v.inodes), v.disk, v.inodes, dir)
                             && forall b :: 0 <= b < TOTAL_BLOCKS ==> v.bm[b])
    ensures v.inodes == old(v.inodes) ==> KeepsDense(old(v.disk), old(v.inodes), v.disk, v.inodes)
    ensures FreeKept(old(v.disk), v.disk, v.bm)
  {
    hide v.Meta, Own, At, LocOf, Img, BlocksFrom, FreeOwnNothing, Hits, Flat, EntryAt, SetEntry, OthersSame, KeepsDense,
         Got, Grow, SameRoots, RootPtr, Beyond, SameImg, StillNamed, NoGap, RecordStored;
    SoundSizes(v);
    FileIo.KeepsDenseReflexive(v.disk, v.inodes);
    var inode: Inode, found: bool;
    found, inode := ReadInode(v, dir);
    if !found || inode.kind != Dir {
      return false;
    }
    var e := Entry(entryIno, Cut(name));
    var phys, lb, i, b := ScanDir(v, inode, dir, FreeSlot);
    if phys >= 0 {
      StoreEntry(v.disk, v.inodes, v.bm, v.owner, dir, lb, i, e);
      FreeIsKept(v.disk, v.inodes, v.bm, v.owner, v.disk[phys := SetEntry(b, i, e)], dir);
      GrowReflexive(v.disk, v.inodes, v.bm, v.owner, dir);
      v.disk := v.disk[phys := SetEntry(b, i, e)];
      ok := WriteInode(v, dir, inode);
      assert v.inodes == old(v.inodes);
      return;
    }
    var newBlk;
    assert v.inodes[dir := inode] == v.inodes;
    inode, newBlk := InodeGetBlock(v, inode, lb, true, dir);
    ghost var t1 := v.inodes[dir := inode];
    if newBlk < 0 {
      FileIo.FoundRange(old(v.disk), v.inodes, old(v.bm), old(v.owner), v.disk, t1, v.bm, v.owner, dir, lb, newBlk);
      AbandonedLookup(old(v.disk), v.inodes, old(v.bm), old(v.owner), v.disk, t1, v.bm, v.owner, dir, lb, v.im);
      OthersFromSame(old(v.disk), v.inodes, v.disk, v.inodes, dir);
      AllSameKeepsDense(old(v.disk), v.inodes, v.disk, dir);
      v.owner := StillNamed(v.disk, v.inodes, v.owner);
      return false;
    }
    inode := inode.(size := U32(inode.size + BLOCK_SIZE));
    SizeOnly(t1, dir, inode);
    assert t1[dir := inode] == v.inodes[dir := inode];
    AppendEntry(old(v.disk), v.inodes, old(v.bm), old(v.owner), v.disk, t1, v.bm, v.owner,
                v.inodes[dir := inode], dir, lb, newBlk, e);
    GrowExact(old(v.bm), old(v.owner), v.bm, v.owner, dir, v.im);
    v.disk := v.disk[newBlk := SetEntry(ZERO, 0, e)];
    ok := WriteInode(v, dir, inode);
  }

  lemma GrowReflexive(d: Disk, t: Table, bm: seq<bool>, owner: Owners, ino: nat)
    requires Own(d, t, bm, owner)
    ensures Grow(bm, owner, bm, owner, ino)
  {
    hide At, ValidLoc, LocIno;
  }

  lemma OthersFromSame(d: Disk, t: Table, d': Disk, t': Table, dir: nat)
    requires forall i: nat :: i < TOTAL_INODES ==> SameImg(d, t, d', t', i)
    ensures OthersSame(d, t, d', t', dir)
  {
    hide SameImg;
  }

  /** Where nothing is mapped behind the first hole, a directory grows at its very end. */
  lemma BeyondEmpty(d: Disk, t: Table, i: nat)
    requires NoGap(d, t, i)
    ensures Beyond(d, t, i) == []
  {
    hide Img;
    var n := |BlocksFrom(d, t, i, 0)|;
    if n + 1 < TRIPLE_END {
      assert Img(d, t, i, n + 1) == None;
    }
    assert BlocksFrom(d, t, i, n + 1) == [];
  }

  lemma AllSameKeepsDense(d: Disk, t: Table, d': Disk, dir: nat)
    requires |t| == TOTAL_INODES && dir < TOTAL_INODES && forall i: nat :: i < TOTAL_INODES ==> SameImg(d, t, d', t, i)
    ensures KeepsDense(d, t, d', t)
  {
    hide Img;
    assert SameImg(d, t, d', t, dir);
    MapsStill(d, t, d', t, dir);
  }
}
