/** inode.c: the four-level block map of an inode, and its release. */
module InodeMap {
  import opened Bytes
  import opened Layout
  import opened BlockMap
  import opened InodeTable
  import opened Volumes
  import opened Bitmap
  import opened Space

  method ReadInode(v: Volume, ino: nat) returns (ok: bool, inode: Inode)
    requires v.Meta()
    ensures ok == (ino < TOTAL_INODES) && |v.inodes| == TOTAL_INODES
    ensures ok ==> inode == v.inodes[ino]
  {
    hide InodeAt, Reads;
    if ino >= TOTAL_INODES {
      return false, FreshInode(File);
    }
    IntendedSlots(ino);
    var offset := ino * RECORD;
    var index, off := offset / BLOCK_SIZE, offset % BLOCK_SIZE;
    var buf := v.table[index];
    return true, InodeAt(buf, off / 4);
  }

  method WriteInode(v: Volume, ino: nat, inode: Inode) returns (ok: bool)
    requires v.Meta()
    modifies v`inodes, v`table
    ensures v.Meta()
    ensures ok == (ino < TOTAL_INODES) && |old(v.inodes)| == TOTAL_INODES
    ensures v.inodes == if ok then old(v.inodes)[ino := inode] else old(v.inodes)
    ensures if ok then RecordStored(old(v.table), v.table, ino, inode) else v.table == old(v.table)
  {
    hide InodeAt, Reads, Base, ClearCount, RecordIn;
    if ino >= TOTAL_INODES {
      return false;
    }
    IntendedSlots(ino);
    BaseIsOffset(ino);
    var offset := ino * RECORD;
    var index, off := offset / BLOCK_SIZE, offset % BLOCK_SIZE;
    var buf := v.table[index];
    buf := StoreRecord(buf, off / 4, inode);
    RecordIsPoint(v.table, v.inodes, ino, inode, buf);
    v.table := v.table[index := buf];
    v.inodes := v.inodes[ino := inode];
    return true;
  }

  lemma BaseIsOffset(i: nat)
    requires i < TOTAL_INODES
    ensures Base(i) == (RECORD * (i % 32)) / 4
  {
  }

  method InodeInit(v: Volume, ino: nat, kind: Kind)
    requires v.Meta() && ino < TOTAL_INODES
    modifies v`inodes, v`table
    ensures v.Meta() && |old(v.inodes)| == TOTAL_INODES
    ensures v.inodes == old(v.inodes)[ino := FreshInode(kind)]
  {
    var inode := FreshInode(kind);
    var _ := WriteInode(v, ino, inode);
  }

  lemma MetaSizes(v: Volume)
    requires v.Meta()
    ensures |v.bm| == TOTAL_BLOCKS && |v.im| == TOTAL_INODES && v.im[0]
  {
  }

  lemma ParentIsValid(p: Loc, k: nat)
    requires ValidLoc(Sub(p, k))
    ensures ValidLoc(p) && k < PTRS && Height(p) >= 1 && Height(Sub(p, k)) == Height(p) - 1
    ensures LocIno(Sub(p, k)) == LocIno(p)
  {
  }

  /** Follows root pointer `s` of the in-memory inode, linking a fresh block when it is 0 and
      `allocate` asks for it. Pointer blocks are zeroed, data blocks keep their old bytes. */
  method FollowSlot(v: Volume, inode: Inode, s: nat, allocate: bool, ghost ino: nat)
    returns (inode': Inode, r: int)
    requires v.Meta() && ino < |v.inodes| && s < ROOT_SLOTS
    requires Own(v.disk, v.inodes[ino := inode], v.bm, v.owner)
    modifies v`disk, v`blockBits, v`bm, v`sb, v`gd, v`owner
    ensures v.Meta()
    ensures inode'.kind == inode.kind && inode'.size == inode.size
    ensures Followed(old(v.disk), v.inodes[ino := inode], old(v.bm), old(v.owner),
                     v.disk, v.inodes[ino := inode'], v.bm, v.owner, allocate, Slot(ino, s), r)
    ensures allocate ==> Placed(old(v.owner), old(v.bm), v.owner, v.bm, Slot(ino, s), r)
    ensures !allocate ==> inode' == inode && v.sb == old(v.sb) && v.gd == old(v.gd) && v.blockBits == old(v.blockBits)
    ensures r == -1 ==> inode' == inode
    ensures r != -1 && RootPtr(inode, s) == 0 ==> 0 <= r < |old(v.bm)| && !old(v.bm)[r] && v.bm == old(v.bm)[r := true]
  {
    hide v.Meta, Own, At, ValidLoc, LocIno, RootPtr, SetRootPtr, PointUpdate, Extends, Take, Place;
    inode' := inode;
    ghost var t := v.inodes[ino := inode];
    MetaSizes(v);
    OwnSizes(v.disk, t, v.bm, v.owner);
    AtSlot(v.disk, t, ino, s);
    ExtendsReflexive(v.disk, t, v.bm, v.owner, ino, Slot(ino, s));
    PlaceOne(v.disk, t, v.bm, v.owner, Slot(ino, s));
    if RootPtr(inode, s) != 0 {
      NamedInRange(v.disk, t, v.bm, v.owner, Slot(ino, s));
      return inode, RootPtr(inode, s);
    }
    if !allocate {
      return inode, -1;
    }
    var nb := AllocBlock(v);
    TakeIs(v.owner, old(v.bm), Slot(ino, s), nb);
    if nb < 0 {
      return inode, -1;
    }
    inode' := SetRootPtr(inode, s, nb);
    SetRootPtrKeeps(inode, s, nb);
    assert v.inodes[ino := inode'] == t[ino := inode'];
    ghost var d := v.disk;
    if s >= DIRECT {
      v.disk := v.disk[nb := ZERO];
    }
    LinkSlot(d, t, v.disk, v.inodes[ino := inode'], old(v.bm), v.owner, ino, s, nb);
    v.owner := v.owner[nb := Slot(ino, s)];
    return inode', nb;
  }

  /** Follows word `k` of pointer block `pb`, linking a fresh block when it is 0. */
  method FollowWord(v: Volume, pb: nat, k: nat, pointer: bool, allocate: bool, ghost t: Table, ghost p: Loc)
    returns (r: int)
    requires v.Meta() && Own(v.disk, t, v.bm, v.owner)
    requires ValidLoc(Sub(p, k)) && pb != 0 && At(v.disk, t, p) == pb && pointer == (Height(p) >= 2)
    modifies v`disk, v`blockBits, v`bm, v`sb, v`gd, v`owner
    ensures v.Meta()
    ensures Followed(old(v.disk), t, old(v.bm), old(v.owner), v.disk, t, v.bm, v.owner, allocate, Sub(p, k), r)
    ensures allocate ==> Placed(old(v.owner), old(v.bm), v.owner, v.bm, Sub(p, k), r)
    ensures !allocate ==> v.sb == old(v.sb) && v.gd == old(v.gd) && v.blockBits == old(v.blockBits)
  {
    hide v.Meta, Word, SetWord, Height, Own, At, ValidLoc, PointUpdate, Extends, LocIno, Take, Place;
    MetaSizes(v);
    ParentIsValid(p, k);
    NamedInRange(v.disk, t, v.bm, v.owner, p);
    AtWord(v.disk, t, p, k);
    ExtendsReflexive(v.disk, t, v.bm, v.owner, LocIno(p), Sub(p, k));
    PlaceOne(v.disk, t, v.bm, v.owner, Sub(p, k));
    var buf := v.disk[pb];
    if Word(buf, k) != 0 {
      NamedInRange(v.disk, t, v.bm, v.owner, Sub(p, k));
      return Word(buf, k);
    }
    if !allocate {
      return -1;
    }
    var nb := AllocBlock(v);
    TakeIs(v.owner, old(v.bm), Sub(p, k), nb);
    if nb < 0 {
      return -1;
    }
    buf := SetWord(buf, k, nb);
    ghost var d := v.disk;
    if pointer {
      v.disk := v.disk[nb := ZERO];
    }
    v.disk := v.disk[pb := buf];
    LinkWord(d, t, v.disk, old(v.bm), v.owner, p, k, nb);
    v.owner := v.owner[nb := Sub(p, k)];
    return nb;
  }

  /** The last step: word `k` of an indirect block names a data block. */
  method GetBelowSingle(v: Volume, pb: nat, k: nat, allocate: bool, ghost t: Table, ghost p: Loc)
    returns (r: int)
    requires v.Meta() && Own(v.disk, t, v.bm, v.owner)
    requires pb != 0 && At(v.disk, t, p) == pb && ValidLoc(Sub(p, k)) && Height(p) == 1
    modifies v`disk, v`blockBits, v`bm, v`sb, v`gd, v`owner
    ensures v.Meta()
    ensures Got(old(v.disk), t, old(v.bm), old(v.owner), v.disk, t, v.bm, v.owner, allocate, Sub(p, k), r)
    ensures allocate ==> Placed(old(v.owner), old(v.bm), v.owner, v.bm, Sub(p, k), r)
    ensures !allocate ==> v.sb == old(v.sb) && v.gd == old(v.gd) && v.blockBits == old(v.blockBits)
  {
    hide v.Meta, Own, At, ValidLoc, Followed, Got, Placed;
    r := FollowWord(v, pb, k, false, allocate, t, p);
    FollowedData(old(v.disk), t, old(v.bm), old(v.owner), v.disk, t, v.bm, v.owner, allocate, Sub(p, k), r);
  }

  method GetBelowDouble(v: Volume, pb: nat, j: nat, k: nat, allocate: bool, ghost t: Table, ghost p: Loc)
    returns (r: int)
    requires v.Meta() && Own(v.disk, t, v.bm, v.owner)
    requires pb != 0 && At(v.disk, t, p) == pb && ValidLoc(Sub(Sub(p, j), k)) && Height(p) == 2
    modifies v`disk, v`blockBits, v`bm, v`sb, v`gd, v`owner
    ensures v.Meta()
    ensures Got(old(v.disk), t, old(v.bm), old(v.owner), v.disk, t, v.bm, v.owner, allocate, Sub(Sub(p, j), k), r)
    ensures allocate ==> Placed(old(v.owner), old(v.bm), v.owner, v.bm, Sub(Sub(p, j), k), r)
    ensures !allocate ==> v.sb == old(v.sb) && v.gd == old(v.gd) && v.blockBits == old(v.blockBits)
  {
    hide v.Meta, Own, At, ValidLoc, Followed, Got, Placed;
    ghost var q := Sub(p, j);
    ghost var l := Sub(q, k);
    ParentIsValid(q, k);
    ParentIsValid(p, j);
    UnderSteps(q, 0, 0, k);
    r := FollowWord(v, pb, j, true, allocate, t, p);
    if r == -1 {
      FollowedNowhere(old(v.disk), t, old(v.bm), old(v.owner), v.disk, t, v.bm, v.owner, allocate, q, l);
      if allocate {
        PlacedThen(old(v.disk), t, old(v.owner), old(v.bm), v.owner, v.bm, v.owner, v.bm, q, l, -1, -1);
      }
      return;
    }
    ghost var d1, bm1, owner1, b := v.disk, v.bm, v.owner, r;
    FollowedHere(old(v.disk), t, old(v.bm), old(v.owner), d1, t, bm1, owner1, allocate, q, b);
    r := GetBelowSingle(v, r, k, allocate, t, q);
    FollowedThenGot(old(v.disk), t, old(v.bm), old(v.owner), d1, t, bm1, owner1,
                    v.disk, t, v.bm, v.owner, allocate, q, l, b, r);
    if allocate {
      PlacedThen(old(v.disk), t, old(v.owner), old(v.bm), owner1, bm1, v.owner, v.bm, q, l, b, r);
    }
  }

  method GetBelowTriple(v: Volume, pb: nat, i: nat, j: nat, k: nat, allocate: bool, ghost t: Table, ghost p: Loc)
    returns (r: int)
    requires v.Meta() && Own(v.disk, t, v.bm, v.owner)
    requires pb != 0 && At(v.disk, t, p) == pb && ValidLoc(Sub(Sub(Sub(p, i), j), k)) && Height(p) == 3
    modifies v`disk, v`blockBits, v`bm, v`sb, v`gd, v`owner
    ensures v.Meta()
    ensures Got(old(v.disk), t, old(v.bm), old(v.owner), v.disk, t, v.bm, v.owner, allocate,
                Sub(Sub(Sub(p, i), j), k), r)
    ensures allocate ==> Placed(old(v.owner), old(v.bm), v.owner, v.bm, Sub(Sub(Sub(p, i), j), k), r)
    ensures !allocate ==> v.sb == old(v.sb) && v.gd == old(v.gd) && v.blockBits == old(v.blockBits)
  {
    hide v.Meta, Own, At, ValidLoc, Followed, Got, Placed;
    ghost var q := Sub(p, i);
    ghost var l := Sub(Sub(q, j), k);
    ParentIsValid(Sub(q, j), k);
    ParentIsValid(q, j);
    ParentIsValid(p, i);
    UnderSteps(q, 0, j, k);
    r := FollowWord(v, pb, i, true, allocate, t, p);
    if r == -1 {
      FollowedNowhere(old(v.disk), t, old(v.bm), old(v.owner), v.disk, t, v.bm, v.owner, allocate, q, l);
      if allocate {
        PlacedThen(old(v.disk), t, old(v.owner), old(v.bm), v.owner, v.bm, v.owner, v.bm, q, l, -1, -1);
      }
      return;
    }
    ghost var d1, bm1, owner1, b := v.disk, v.bm, v.owner, r;
    FollowedHere(old(v.disk), t, old(v.bm), old(v.owner), d1, t, bm1, owner1, allocate, q, b);
    r := GetBelowDouble(v, r, j, k, allocate, t, q);
    FollowedThenGot(old(v.disk), t, old(v.bm), old(v.owner), d1, t, bm1, owner1,
                    v.disk, t, v.bm, v.owner, allocate, q, l, b, r);
    if allocate {
      PlacedThen(old(v.disk), t, old(v.owner), old(v.bm), owner1, bm1, v.owner, v.bm, q, l, b, r);
    }
  }

  lemma LocOfUnder(ino: nat, lb: nat, root: nat)
    requires DIRECT <= lb < TRIPLE_END
    requires root == if lb < SINGLE_END then 12 else if lb < DOUBLE_END then 13 else 14
    ensures Under(LocOf(ino, lb), Slot(ino, root)) && Height(Slot(ino, root)) == root - 11
  {
    var s, d, t := lb - SINGLE_END, lb - DOUBLE_END, Slot(ino, root);
    if lb < SINGLE_END {
      UnderSteps(t, 0, 0, lb - DIRECT);
    } else if lb < DOUBLE_END {
      UnderSteps(t, 0, s / PTRS, s % PTRS);
    } else {
      UnderSteps(t, d / (PTRS * PTRS), (d / PTRS) % PTRS, d % PTRS);
    }
  }

  /** Maps logical block `lb` to a disk block, allocating on request: a point update of the
      logical-to-physical map across all four levels. */
  method InodeGetBlock(v: Volume, inode: Inode, lb: nat, allocate: bool, ghost ino: nat)
    returns (inode': Inode, r: int)
    requires v.Meta() && ino < |v.inodes| && lb < TRIPLE_END
    requires Own(v.disk, v.inodes[ino := inode], v.bm, v.owner)
    modifies v`disk, v`blockBits, v`bm, v`sb, v`gd, v`owner
    ensures v.Meta()
    ensures inode'.kind == inode.kind && inode'.size == inode.size
    ensures Got(old(v.disk), v.inodes[ino := inode], old(v.bm), old(v.owner),
                v.disk, v.inodes[ino := inode'], v.bm, v.owner, allocate, LocOf(ino, lb), r)
    ensures allocate ==> Placed(old(v.owner), old(v.bm), v.owner, v.bm, LocOf(ino, lb), r)
    ensures lb < DIRECT && r == -1 ==>
              inode' == inode && v.disk == old(v.disk) && v.bm == old(v.bm) && v.owner == old(v.owner)
    ensures lb < DIRECT && r != -1 && inode.blocks[lb] == 0 ==>
              0 <= r < |old(v.bm)| && !old(v.bm)[r] && v.bm == old(v.bm)[r := true]
    ensures !allocate ==> inode' == inode && v.sb == old(v.sb) && v.gd == old(v.gd) && v.blockBits == old(v.blockBits)
  {
    hide v.Meta, Own, At, ValidLoc, Followed, Got, Extends, Placed;
    ghost var l := LocOf(ino, lb);
    ghost var t0 := v.inodes[ino := inode];
    OwnSizes(v.disk, t0, v.bm, v.owner);
    LocOfIsValid(ino, lb);
    if lb < DIRECT {
      inode', r := FollowSlot(v, inode, lb, allocate, ino);
      FollowedStuck(old(v.disk), t0, old(v.bm), old(v.owner), v.disk, v.inodes[ino := inode'], v.bm, v.owner,
                    allocate, l, r);
      FollowedData(old(v.disk), t0, old(v.bm), old(v.owner), v.disk, v.inodes[ino := inode'], v.bm, v.owner, allocate,
                   l, r);
      return;
    }
    var root := if lb < SINGLE_END then 12 else if lb < DOUBLE_END then 13 else 14;
    ghost var p := Slot(ino, root);
    AtSlot(v.disk, t0, ino, root);
    LocOfUnder(ino, lb, root);
    inode', r := FollowSlot(v, inode, root, allocate, ino);
    ghost var t := v.inodes[ino := inode'];
    if r == -1 {
      FollowedNowhere(old(v.disk), t0, old(v.bm), old(v.owner), v.disk, t, v.bm, v.owner, allocate, p, l);
      if allocate {
        PlacedThen(old(v.disk), t0, old(v.owner), old(v.bm), v.owner, v.bm, v.owner, v.bm, p, l, -1, -1);
      }
      return;
    }
    ghost var d1, bm1, owner1, b := v.disk, v.bm, v.owner, r;
    FollowedHere(old(v.disk), t0, old(v.bm), old(v.owner), d1, t, bm1, owner1, allocate, p, b);
    if lb < SINGLE_END {
      r := GetBelowSingle(v, r, lb - DIRECT, allocate, t, p);
    } else if lb < DOUBLE_END {
      var offset := lb - SINGLE_END;
      r := GetBelowDouble(v, r, offset / PTRS, offset % PTRS, allocate, t, p);
    } else {
      var offset := lb - DOUBLE_END;
      r := GetBelowTriple(v, r, offset / (PTRS * PTRS), (offset / PTRS) % PTRS, offset % PTRS, allocate, t, p);
    }
    FollowedThenGot(old(v.disk), t0, old(v.bm), old(v.owner), d1, t, bm1, owner1,
                    v.disk, t, v.bm, v.owner, allocate, p, l, b, r);
    if allocate {
      PlacedThen(old(v.disk), t0, old(v.owner), old(v.bm), owner1, bm1, v.owner, v.bm, p, l, b, r);
    }
  }
}
