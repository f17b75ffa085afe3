/** The block-level contracts of the two writers, read as steps of the simple file system. */
module Views {
  import opened Bytes
  import opened Layout
  import opened BlockMap
  import opened Volumes
  import opened Space
  import opened Contents
  import opened FileIo
  import opened Steps

  lemma NamedMapped(d: Disk, t: Table, bm: seq<bool>, owner: Owners, i: nat, lb: nat)
    requires Own(d, t, bm, owner) && i < TOTAL_INODES && lb < TRIPLE_END
    ensures LocOf(i, lb) in owner.Values <==> Img(d, t, i, lb).Some?
    ensures LocOf(i, lb) in owner.Values <==> At(d, t, LocOf(i, lb)) != 0
  {
    hide At, ValidLoc, Own, LocOf, LocIno, Height, RootSlot;
    LocOfIsValid(i, lb);
    NamedIffAt(d, t, bm, owner, LocOf(i, lb));
    OwnSizes(d, t, bm, owner);
    if At(d, t, LocOf(i, lb)) != 0 {
      NamedInRange(d, t, bm, owner, LocOf(i, lb));
    }
  }

  /** A stored write, byte by byte. */
  lemma StoredIs(d0: Disk, t0: Table, bm0: seq<bool>, owner0: Owners, d: Disk, t: Table,
                 ino: nat, off: nat, cur: nat, data: seq<byte>)
    requires Own(d0, t0, bm0, owner0) && ino < |t0| == |t| == TOTAL_INODES && |d| == |d0|
    requires off <= cur <= off + |data| && BytesStored(d0, d, t, ino, off, cur, data)
    requires MapGrown(d0, t0, d, t, ino, off, cur) && PlacesKept(d0, t0, d, t, ino)
    requires t[ino].size == Max(t0[ino].size, cur)
    ensures Stored(Content(d0, t0, ino), owner0.Values, ino, off, data[..cur - off], Content(d, t, ino))
  {
    hide Own, ByteAt, Img, Beneath, Touched, MapGrown, PlacesKept, LocOf, ByteAfter, BytesStored;
    var c, c' := Content(d0, t0, ino), Content(d, t, ino);
    forall p: nat | p < |c'|
      ensures ByteAfter(c, owner0.Values, ino, off, data[..cur - off], p, c'[p])
    {
      NamedMapped(d0, t0, bm0, owner0, ino, BlockOf(p));
      BeneathIs(d0, t0, d, t, ino, off, cur, p);
      ByteAfterIs(d0, t0, d, t, owner0.Values, ino, off, cur, data, p);
    }
  }

  lemma ByteAfterIs(d0: Disk, t0: Table, d: Disk, t: Table, named: set<Loc>,
                     ino: nat, off: nat, cur: nat, data: seq<byte>, p: nat)
    requires ino < |t0| == |t| && p < WORD_LIMIT && off <= cur <= off + |data|
    requires LocOf(ino, BlockOf(p)) in named <==> Img(d0, t0, ino, BlockOf(p)).Some?
    requires BytesStored(d0, d, t, ino, off, cur, data)
    requires Img(d0, t0, ino, BlockOf(p)).Some? ==> Beneath(d0, d, t, ino, p) == ByteAt(d0, t0, ino, p)
    requires Img(d0, t0, ino, BlockOf(p)).None? && !Touched(BlockOf(p), off, cur) ==> Beneath(d0, d, t, ino, p) == 0
    requires Img(d0, t0, ino, BlockOf(p)).None? ==> ByteAt(d0, t0, ino, p) == 0
    ensures ByteAfter(Content(d0, t0, ino), named, ino, off, data[..cur - off], p, ByteAt(d, t, ino, p))
  {
    hide ByteAt, Img, Beneath, Touched, LocOf;
  }

  /** A write whose inode was not stored, byte by byte. */
  lemma KeptIs(d0: Disk, t0: Table, bm0: seq<bool>, owner0: Owners, d: Disk,
               ino: nat, off: nat, cur: nat, data: seq<byte>)
    requires Own(d0, t0, bm0, owner0) && ino < |t0| == TOTAL_INODES && |d| == |d0| && off <= cur <= off + |data|
    requires MapKept(d0, t0, d, ino, off, cur) && PlacesKept(d0, t0, d, t0, ino)
    requires BytesKept(d0, t0, d, ino, off, cur, data)
    ensures Kept(Content(d0, t0, ino), owner0.Values, ino, off, data[..cur - off], Content(d, t0, ino))
  {
    hide Own, ByteAt, Img, Beneath, Touched, MapKept, PlacesKept, LocOf, ByteLeft, BytesKept, RootPtr;
    var c, c' := Content(d0, t0, ino), Content(d, t0, ino);
    forall p: nat | p < |c'|
      ensures ByteLeft(c, owner0.Values, ino, off, data[..cur - off], p, c'[p])
    {
      NamedMapped(d0, t0, bm0, owner0, ino, BlockOf(p));
      RootNamed(d0, t0, bm0, owner0, ino, RootSlotOf(BlockOf(p)));
      BeneathKept(d0, t0, d, ino, off, cur, p);
      ByteLeftIs(d0, t0, d, owner0.Values, ino, off, cur, data, p);
    }
  }

  lemma RootNamed(d: Disk, t: Table, bm: seq<bool>, owner: Owners, ino: nat, s: nat)
    requires Own(d, t, bm, owner) && ino < |t| == TOTAL_INODES && s < ROOT_SLOTS
    ensures Slot(ino, s) in owner.Values <==> RootPtr(t[ino], s) != 0
  {
    hide At, ValidLoc, Own, RootPtr;
    AtSlot(d, t, ino, s);
    NamedIffAt(d, t, bm, owner, Slot(ino, s));
  }

  /** What lies beneath a position when the old root pointers are back. */
  lemma BeneathKept(d0: Disk, t0: Table, d: Disk, ino: nat, off: nat, cur: nat, p: nat)
    requires ino < |t0| == TOTAL_INODES && |d| == |d0| && p < WORD_LIMIT
    requires MapKept(d0, t0, d, ino, off, cur) && PlacesKept(d0, t0, d, t0, ino)
    ensures Img(d0, t0, ino, BlockOf(p)).Some? ==> Beneath(d0, d, t0, ino, p) == ByteAt(d0, t0, ino, p)
    ensures Img(d0, t0, ino, BlockOf(p)).None? && !Touched(BlockOf(p), off, cur) ==> Beneath(d0, d, t0, ino, p) == 0
    ensures Img(d0, t0, ino, BlockOf(p)).None? ==> ByteAt(d0, t0, ino, p) == 0
  {
    hide At, LocOf, Touched, RootPtr;
    var lb := BlockOf(p);
    var _ := Img(d, t0, ino, lb);
  }

  lemma ByteLeftIs(d0: Disk, t0: Table, d: Disk, named: set<Loc>, ino: nat, off: nat, cur: nat, data: seq<byte>, p: nat)
    requires ino < |t0| && p < t0[ino].size && off <= cur <= off + |data|
    requires LocOf(ino, BlockOf(p)) in named <==> Img(d0, t0, ino, BlockOf(p)).Some?
    requires Slot(ino, RootSlotOf(BlockOf(p))) in named <==> RootPtr(t0[ino], RootSlotOf(BlockOf(p))) != 0
    requires BytesKept(d0, t0, d, ino, off, cur, data)
    requires Img(d0, t0, ino, BlockOf(p)).Some? ==> Beneath(d0, d, t0, ino, p) == ByteAt(d0, t0, ino, p)
    requires Img(d0, t0, ino, BlockOf(p)).None? && !Touched(BlockOf(p), off, cur) ==> Beneath(d0, d, t0, ino, p) == 0
    requires Img(d0, t0, ino, BlockOf(p)).None? ==> ByteAt(d0, t0, ino, p) == 0
    ensures ByteLeft(Content(d0, t0, ino), named, ino, off, data[..cur - off], p, ByteAt(d, t0, ino, p))
  {
    hide ByteAt, Img, Beneath, Touched, LocOf, RootPtr;
  }

  /** The blocks that mapping a range takes, seen from outside. */
  lemma MappingIs(d: Disk, t: Table, bm: seq<bool>, owner: Owners, ino: nat, lo: nat, hi: nat)
    requires Own(d, t, bm, owner)
    ensures var (k, owner', bm') := PlaceAll(owner, bm, ino, lo, hi);
            LinkAll(owner.Values, ClearCount(bm), ino, lo, hi) == (k, owner'.Values, ClearCount(bm'))
  {
    hide Own, ClearCount, PlaceAll, LinkAll;
    OwnSpace(d, t, bm, owner);
    PlaceAllFacts(owner, bm, ino, lo, hi);
  }

  lemma BackAtIs(owner: Owners, named0: set<Loc>, ino: nat)
    ensures Rooted(owner, named0, ino).Values == BackAt(named0, owner.Values, ino)
  {
    hide LocIno, RootSlot;
    var r := Rooted(owner, named0, ino);
    forall l
      ensures l in r.Values <==> l in BackAt(named0, owner.Values, ino)
    {
      if l in BackAt(named0, owner.Values, ino) {
        var b :| b in owner && owner[b] == l;
        assert r[b] == l;
      }
    }
  }
}
