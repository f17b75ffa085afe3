/** The release half of inode.c: `inode_free_blocks`. */
module ReleaseBlocks {
  import opened Bytes
  import opened Layout
  import opened BlockMap
  import opened Volumes
  import opened Bitmap
  import opened InodeMap

  /** `l` hangs below word j of the block at `p`, for some j < k. */
  ghost predicate Below(l: Loc, p: Loc, k: nat) {
    l.Sub? && ((l.parent == p && l.idx < k) || Below(l.parent, p, k))
  }

  ghost function UnderSet(owner: Owners, p: Loc): set<nat> {
    set b | b in owner && Under(owner[b], p)
  }

  ghost function BelowSet(owner: Owners, p: Loc, k: nat): set<nat> {
    set b | b in owner && Below(owner[b], p, k)
  }

  /** What `ino` owns through its first `s` root pointers. */
  ghost function SlotsSet(owner: Owners, ino: nat, s: nat): set<nat> {
    set b | b in owner && LocIno(owner[b]) == ino && RootSlot(owner[b]) < s
  }

  ghost function OwnedBy(owner: Owners, ino: nat): set<nat> {
    set b | b in owner && LocIno(owner[b]) == ino
  }

  ghost predicate ClearedBy(bm: seq<bool>, bm': seq<bool>, s: set<nat>) {
    && |bm'| == |bm|
    && forall x :: 0 <= x < |bm| ==> bm'[x] == (bm[x] && x !in s)
  }

  ghost predicate AllMarked(bm: seq<bool>, s: set<nat>) {
    forall x :: x in s ==> x < |bm| && bm[x]
  }

  lemma {:induction false} BelowStep(l: Loc, p: Loc, k: nat)
    ensures Below(l, p, k + 1) <==> Below(l, p, k) || Under(l, Sub(p, k))
  {
    if l.Sub? && l != Sub(p, k) {
      BelowStep(l.parent, p, k);
    }
  }

  lemma {:induction false} BelowIsLower(l: Loc, p: Loc, k: nat)
    requires Below(l, p, k)
    ensures Height(l) < Height(p)
  {
    if l.parent != p {
      BelowIsLower(l.parent, p, k);
    } else if l.idx >= k {
      BelowIsLower(l.parent, p, k);
    }
  }

  lemma {:induction false} UnderIsBelow(l: Loc, p: Loc)
    requires ValidLoc(l)
    ensures Under(l, p) <==> l == p || Below(l, p, PTRS)
  {
    if l.Sub? {
      UnderIsBelow(l.parent, p);
    }
  }

  lemma {:induction false} BelowDisjoint(l: Loc, p: Loc, k: nat)
    requires Under(l, Sub(p, k))
    ensures !Below(l, p, k)
  {
    if l == Sub(p, k) {
      if Below(p, p, k) {
        BelowIsLower(p, p, k);
      }
    } else {
      BelowDisjoint(l.parent, p, k);
      UnderHeight(l.parent, Sub(p, k));
    }
  }

  lemma {:induction false} UnderSlot(l: Loc, ino: nat, s: nat)
    ensures Under(l, Slot(ino, s)) <==> LocIno(l) == ino && RootSlot(l) == s
  {
    if l.Sub? {
      UnderSlot(l.parent, ino, s);
    }
  }

  lemma {:induction false} RootSlotBound(l: Loc)
    requires ValidLoc(l)
    ensures RootSlot(l) < ROOT_SLOTS
  {
    if l.Sub? {
      RootSlotBound(l.parent);
    }
  }

  // ---- the owned sets, step by step ----

  lemma BelowSetStep(owner: Owners, p: Loc, k: nat)
    ensures BelowSet(owner, p, k + 1) == BelowSet(owner, p, k) + UnderSet(owner, Sub(p, k))
    ensures BelowSet(owner, p, k) !! UnderSet(owner, Sub(p, k))
  {
    forall b | b in owner
      ensures Below(owner[b], p, k + 1) <==> Below(owner[b], p, k) || Under(owner[b], Sub(p, k))
      ensures !(Below(owner[b], p, k) && Under(owner[b], Sub(p, k)))
    {
      BelowStep(owner[b], p, k);
      if Under(owner[b], Sub(p, k)) {
        BelowDisjoint(owner[b], p, k);
      }
    }
    hide Below, Under;
  }

  lemma BelowSetStart(owner: Owners, p: Loc)
    ensures BelowSet(owner, p, 0) == {}
  {
    forall b | b in owner
      ensures !Below(owner[b], p, 0)
    {
      BelowNone(owner[b], p);
    }
  }

  lemma {:induction false} BelowNone(l: Loc, p: Loc)
    ensures !Below(l, p, 0)
  {
    if l.Sub? {
      BelowNone(l.parent, p);
    }
  }

  lemma UnderSetSplit(d: Disk, t: Table, bm: seq<bool>, owner: Owners, p: Loc)
    requires Own(d, t, bm, owner) && ValidLoc(p) && At(d, t, p) != 0
    ensures UnderSet(owner, p) == BelowSet(owner, p, PTRS) + {At(d, t, p)}
    ensures At(d, t, p) !in BelowSet(owner, p, PTRS)
  {
    hide At, ValidLoc, Height, Below, Under;
    forall b | b in owner
      ensures Under(owner[b], p) <==> owner[b] == p || Below(owner[b], p, PTRS)
    {
      UnderIsBelow(owner[b], p);
    }
    if Below(p, p, PTRS) {
      BelowIsLower(p, p, PTRS);
    }
  }

  lemma UnderSetEmpty(d: Disk, t: Table, bm: seq<bool>, owner: Owners, p: Loc)
    requires Own(d, t, bm, owner) && At(d, t, p) == 0
    ensures UnderSet(owner, p) == {}
  {
    hide At, ValidLoc, Height, Under;
    forall b | b in owner
      ensures !Under(owner[b], p)
    {
      if Under(owner[b], p) {
        NamedAbove(d, t, owner[b], p);
      }
    }
  }

  lemma UnderSetLeaf(d: Disk, t: Table, bm: seq<bool>, owner: Owners, p: Loc)
    requires Own(d, t, bm, owner) && ValidLoc(p) && Height(p) == 0 && At(d, t, p) != 0
    ensures UnderSet(owner, p) == {At(d, t, p)}
  {
    hide At, ValidLoc, Height, Under, Below;
    UnderSetSplit(d, t, bm, owner, p);
    forall b | b in owner
      ensures !Below(owner[b], p, PTRS)
    {
      if Below(owner[b], p, PTRS) {
        BelowIsLower(owner[b], p, PTRS);
        HeightBound(owner[b]);
      }
    }
  }

  lemma SlotsSetStep(owner: Owners, ino: nat, s: nat)
    ensures SlotsSet(owner, ino, s + 1) == SlotsSet(owner, ino, s) + UnderSet(owner, Slot(ino, s))
    ensures SlotsSet(owner, ino, s) !! UnderSet(owner, Slot(ino, s))
  {
    hide LocIno, RootSlot, Under;
    forall b | b in owner
      ensures Under(owner[b], Slot(ino, s)) <==> LocIno(owner[b]) == ino && RootSlot(owner[b]) == s
    {
      UnderSlot(owner[b], ino, s);
    }
  }

  lemma SlotsSetAll(d: Disk, t: Table, bm: seq<bool>, owner: Owners, ino: nat)
    requires Own(d, t, bm, owner)
    ensures SlotsSet(owner, ino, ROOT_SLOTS) == OwnedBy(owner, ino)
    ensures SlotsSet(owner, ino, 0) == {}
    ensures AllMarked(bm, OwnedBy(owner, ino))
  {
    hide At, ValidLoc, LocIno, RootSlot;
    forall b | b in owner
      ensures RootSlot(owner[b]) < ROOT_SLOTS
    {
      RootSlotBound(owner[b]);
    }
  }

  lemma ClearBoth(bm: seq<bool>, bm1: seq<bool>, bm2: seq<bool>, s: set<nat>, u: set<nat>)
    requires ClearedBy(bm, bm1, s) && ClearedBy(bm1, bm2, u)
    ensures ClearedBy(bm, bm2, s + u)
  {
  }

  lemma StillMarked(bm: seq<bool>, bm1: seq<bool>, s: set<nat>, u: set<nat>, all: set<nat>)
    requires AllMarked(bm, all) && ClearedBy(bm, bm1, s) && u <= all && u !! s
    ensures AllMarked(bm1, u)
  {
  }

  /** Releases one block that is known to be marked: "already free" does not happen. */
  method FreeMarked(v: Volume, b: nat)
    requires v.Meta() && FIRST_DATA_BLOCK <= b && AllMarked(v.bm, {b})
    modifies v`blockBits, v`bm, v`sb, v`gd
    ensures v.Meta() && ClearedBy(old(v.bm), v.bm, {b})
  {
    hide v.Meta;
    MetaSizes(v);
    assert b in {b};
    var r := FreeBlock(v, b);
    assert r == 0;
  }

  lemma ClearNothing(bm: seq<bool>)
    ensures ClearedBy(bm, bm, {})
  {
  }

  lemma ChildIsValid(p: Loc, k: nat)
    requires ValidLoc(p) && Height(p) >= 1 && k < PTRS
    ensures ValidLoc(Sub(p, k)) && Height(Sub(p, k)) == Height(p) - 1
  {
  }

  lemma BelowSetGrows(owner: Owners, p: Loc, i: nat)
    requires i < PTRS
    ensures BelowSet(owner, p, i + 1) <= BelowSet(owner, p, PTRS)
  {
    forall b | b in owner && Below(owner[b], p, i + 1)
      ensures Below(owner[b], p, PTRS)
    {
      BelowGrows(owner[b], p, i + 1, PTRS);
    }
  }

  lemma {:induction false} BelowGrows(l: Loc, p: Loc, i: nat, j: nat)
    requires i <= j && Below(l, p, i)
    ensures Below(l, p, j)
  {
    if !(l.parent == p && l.idx < i) {
      BelowGrows(l.parent, p, i, j);
    }
  }

  /** Releases the data blocks named by an indirect block, then the indirect block. */
  method FreeSingle(v: Volume, pb: nat, ghost t: Table, ghost p: Loc, ghost bm0: seq<bool>)
    requires v.Meta() && Own(v.disk, t, bm0, v.owner)
    requires ValidLoc(p) && Height(p) == 1 && pb != 0 && At(v.disk, t, p) == pb
    requires AllMarked(v.bm, UnderSet(v.owner, p))
    modifies v`blockBits, v`bm, v`sb, v`gd
    ensures v.Meta() && ClearedBy(old(v.bm), v.bm, UnderSet(v.owner, p))
  {
    hide v.Meta, Own, At, ValidLoc, Height, Word, UnderSet, BelowSet, ClearedBy, AllMarked;
    NamedInRange(v.disk, t, bm0, v.owner, p);
    UnderSetSplit(v.disk, t, bm0, v.owner, p);
    BelowSetStart(v.owner, p);
    ClearNothing(v.bm);
    var indirect := v.disk[pb];
    for i := 0 to PTRS
      invariant v.Meta() && ClearedBy(old(v.bm), v.bm, BelowSet(v.owner, p, i))
    {
      ghost var bm1 := v.bm;
      AtWord(v.disk, t, p, i);
      ChildIsValid(p, i);
      BelowSetStep(v.owner, p, i);
      BelowSetGrows(v.owner, p, i);
      if Word(indirect, i) != 0 {
        NamedInRange(v.disk, t, bm0, v.owner, Sub(p, i));
        UnderSetLeaf(v.disk, t, bm0, v.owner, Sub(p, i));
        StillMarked(old(v.bm), v.bm, BelowSet(v.owner, p, i), {Word(indirect, i)}, UnderSet(v.owner, p));
        FreeMarked(v, Word(indirect, i));
        ClearBoth(old(v.bm), bm1, v.bm, BelowSet(v.owner, p, i), {Word(indirect, i)});
      } else {
        UnderSetEmpty(v.disk, t, bm0, v.owner, Sub(p, i));
        assert BelowSet(v.owner, p, i + 1) == BelowSet(v.owner, p, i);
      }
    }
    ghost var bm1 := v.bm;
    StillMarked(old(v.bm), v.bm, BelowSet(v.owner, p, PTRS), {pb}, UnderSet(v.owner, p));
    FreeMarked(v, pb);
    ClearBoth(old(v.bm), bm1, v.bm, BelowSet(v.owner, p, PTRS), {pb});
  }

  /** Releases every tree below a double-indirect block, then the block itself. */
  method FreeDouble(v: Volume, pb: nat, ghost t: Table, ghost p: Loc, ghost bm0: seq<bool>)
    requires v.Meta() && Own(v.disk, t, bm0, v.owner)
    requires ValidLoc(p) && Height(p) == 2 && pb != 0 && At(v.disk, t, p) == pb
    requires AllMarked(v.bm, UnderSet(v.owner, p))
    modifies v`blockBits, v`bm, v`sb, v`gd
    ensures v.Meta() && ClearedBy(old(v.bm), v.bm, UnderSet(v.owner, p))
  {
    hide v.Meta, Own, At, ValidLoc, Height, Word, UnderSet, BelowSet, ClearedBy, AllMarked;
    NamedInRange(v.disk, t, bm0, v.owner, p);
    UnderSetSplit(v.disk, t, bm0, v.owner, p);
    BelowSetStart(v.owner, p);
    ClearNothing(v.bm);
    var pointers := v.disk[pb];
    for i := 0 to PTRS
      invariant v.Meta() && ClearedBy(old(v.bm), v.bm, BelowSet(v.owner, p, i))
    {
      ghost var bm1, q := v.bm, Sub(p, i);
      AtWord(v.disk, t, p, i);
      ChildIsValid(p, i);
      BelowSetStep(v.owner, p, i);
      BelowSetGrows(v.owner, p, i);
      if Word(pointers, i) != 0 {
        StillMarked(old(v.bm), v.bm, BelowSet(v.owner, p, i), UnderSet(v.owner, q), UnderSet(v.owner, p));
        FreeSingle(v, Word(pointers, i), t, q, bm0);
        ClearBoth(old(v.bm), bm1, v.bm, BelowSet(v.owner, p, i), UnderSet(v.owner, q));
      } else {
        UnderSetEmpty(v.disk, t, bm0, v.owner, q);
        assert BelowSet(v.owner, p, i + 1) == BelowSet(v.owner, p, i);
      }
    }
    ghost var bm1 := v.bm;
    StillMarked(old(v.bm), v.bm, BelowSet(v.owner, p, PTRS), {pb}, UnderSet(v.owner, p));
    FreeMarked(v, pb);
    ClearBoth(old(v.bm), bm1, v.bm, BelowSet(v.owner, p, PTRS), {pb});
  }

  /** Releases every tree below a triple-indirect block, then the block itself. */
  method FreeTriple(v: Volume, pb: nat, ghost t: Table, ghost p: Loc, ghost bm0: seq<bool>)
    requires v.Meta() && Own(v.disk, t, bm0, v.owner)
    requires ValidLoc(p) && Height(p) == 3 && pb != 0 && At(v.disk, t, p) == pb
    requires AllMarked(v.bm, UnderSet(v.owner, p))
    modifies v`blockBits, v`bm, v`sb, v`gd
    ensures v.Meta() && ClearedBy(old(v.bm), v.bm, UnderSet(v.owner, p))
  {
    hide v.Meta, Own, At, ValidLoc, Height, Word, UnderSet, BelowSet, ClearedBy, AllMarked;
    NamedInRange(v.disk, t, bm0, v.owner, p);
    UnderSetSplit(v.disk, t, bm0, v.owner, p);
    BelowSetStart(v.owner, p);
    ClearNothing(v.bm);
    var pointers := v.disk[pb];
    for i := 0 to PTRS
      invariant v.Meta() && ClearedBy(old(v.bm), v.bm, BelowSet(v.owner, p, i))
    {
      ghost var bm1, q := v.bm, Sub(p, i);
      AtWord(v.disk, t, p, i);
      ChildIsValid(p, i);
      BelowSetStep(v.owner, p, i);
      BelowSetGrows(v.owner, p, i);
      if Word(pointers, i) != 0 {
        StillMarked(old(v.bm), v.bm, BelowSet(v.owner, p, i), UnderSet(v.owner, q), UnderSet(v.owner, p));
        FreeDouble(v, Word(pointers, i), t, q, bm0);
        ClearBoth(old(v.bm), bm1, v.bm, BelowSet(v.owner, p, i), UnderSet(v.owner, q));
      } else {
        UnderSetEmpty(v.disk, t, bm0, v.owner, q);
        assert BelowSet(v.owner, p, i + 1) == BelowSet(v.owner, p, i);
      }
    }
    ghost var bm1 := v.bm;
    StillMarked(old(v.bm), v.bm, BelowSet(v.owner, p, PTRS), {pb}, UnderSet(v.owner, p));
    FreeMarked(v, pb);
    ClearBoth(old(v.bm), bm1, v.bm, BelowSet(v.owner, p, PTRS), {pb});
  }

  /** Exactly what hangs below the first `s` root pointers of `ino` has been released. */
  ghost predicate SlotsCleared(bm0: seq<bool>, bm: seq<bool>, owner: Owners, ino: nat, s: nat) {
    ClearedBy(bm0, bm, SlotsSet(owner, ino, s))
  }

  /** Bookkeeping for one root pointer: before the release its blocks are all marked, after it
      one more root pointer is done. */
  lemma SlotReady(d: Disk, t: Table, bm0: seq<bool>, bm: seq<bool>, owner: Owners, ino: nat, s: nat)
    requires Own(d, t, bm0, owner) && ino < TOTAL_INODES && s < ROOT_SLOTS
    requires SlotsCleared(bm0, bm, owner, ino, s)
    ensures AllMarked(bm, UnderSet(owner, Slot(ino, s)))
    ensures forall bm' :: ClearedBy(bm, bm', UnderSet(owner, Slot(ino, s))) ==>
              SlotsCleared(bm0, bm', owner, ino, s + 1)
    ensures At(d, t, Slot(ino, s)) == RootPtr(t[ino], s) && ValidLoc(Slot(ino, s))
    ensures RootPtr(t[ino], s) == 0 ==> SlotsCleared(bm0, bm, owner, ino, s + 1)
    ensures RootPtr(t[ino], s) != 0 ==> FIRST_DATA_BLOCK <= RootPtr(t[ino], s)
    ensures RootPtr(t[ino], s) != 0 && s < DIRECT ==> UnderSet(owner, Slot(ino, s)) == {RootPtr(t[ino], s)}
  {
    hide At, Own, ValidLoc, LocIno, RootSlot, Under, RootPtr, UnderSet, ClearedBy, AllMarked, SlotsSet;
    var u, p := UnderSet(owner, Slot(ino, s)), Slot(ino, s);
    OwnSizes(d, t, bm0, owner);
    AtSlot(d, t, ino, s);
    SlotsSetStep(owner, ino, s);
    SlotsSetAll(d, t, bm0, owner, ino);
    UnderIsOwned(owner, ino, s);
    StillMarked(bm0, bm, SlotsSet(owner, ino, s), u, OwnedBy(owner, ino));
    forall bm' | ClearedBy(bm, bm', u)
      ensures SlotsCleared(bm0, bm', owner, ino, s + 1)
    {
      ClearBoth(bm0, bm, bm', SlotsSet(owner, ino, s), u);
    }
    if RootPtr(t[ino], s) == 0 {
      UnderSetEmpty(d, t, bm0, owner, p);
      ClearNothing(bm);
    } else {
      NamedInRange(d, t, bm0, owner, p);
      if s < DIRECT {
        UnderSetLeaf(d, t, bm0, owner, p);
      }
    }
  }

  lemma UnderIsOwned(owner: Owners, ino: nat, s: nat)
    ensures UnderSet(owner, Slot(ino, s)) <= OwnedBy(owner, ino)
  {
    forall b | b in owner && Under(owner[b], Slot(ino, s))
      ensures LocIno(owner[b]) == ino
    {
      UnderSlot(owner[b], ino, s);
    }
  }

  /** Releases exactly the blocks that `ino` owns, each once, and stores the emptied inode. */
  method InodeFreeBlocks(v: Volume, ino: nat, inode: Inode) returns (inode': Inode)
    requires v.Meta() && ino < TOTAL_INODES == |v.inodes|
    requires Own(v.disk, v.inodes[ino := inode], v.bm, v.owner)
    modifies v`blockBits, v`bm, v`sb, v`gd, v`owner, v`inodes, v`table
    ensures v.Meta()
    ensures inode' == FreshInode(inode.kind)
    ensures v.inodes == old(v.inodes)[ino := inode']
    ensures ClearedBy(old(v.bm), v.bm, OwnedBy(old(v.owner), ino)) && AllMarked(old(v.bm), OwnedBy(old(v.owner), ino))
    ensures v.owner == WithoutIno(old(v.owner), ino)
    ensures Own(v.disk, v.inodes, v.bm, v.owner)
    ensures old(Exact(v.bm, v.owner)) ==> Exact(v.bm, v.owner)
    ensures forall m :: At(v.disk, v.inodes, m) ==
                        if LocIno(m) == ino then 0 else old(At(v.disk, v.inodes[ino := inode], m))
  {
    hide v.Meta, Own, At, ValidLoc, UnderSet, SlotsSet, ClearedBy, AllMarked, SlotsCleared, OwnedBy, WithoutIno,
         Exact, LocIno;
    inode' := inode;
    ghost var t := v.inodes[ino := inode];
    SlotsSetAll(v.disk, t, v.bm, v.owner, ino);
    NoneCleared(v.bm, v.owner, ino);
    for i := 0 to DIRECT
      modifies v`blockBits, v`bm, v`sb, v`gd
      invariant v.Meta() && SlotsCleared(old(v.bm), v.bm, v.owner, ino, i)
      invariant forall s :: i <= s < ROOT_SLOTS ==> RootPtr(inode', s) == RootPtr(inode, s)
      invariant forall s :: 0 <= s < i ==> inode'.blocks[s] == 0
      invariant inode'.kind == inode.kind
    {
      SlotReady(v.disk, t, old(v.bm), v.bm, v.owner, ino, i);
      if inode'.blocks[i] != 0 {
        FreeMarked(v, inode'.blocks[i]);
        inode' := inode'.(blocks := inode'.blocks[i := 0]);
      }
    }
    SlotReady(v.disk, t, old(v.bm), v.bm, v.owner, ino, 12);
    if inode'.indirect != 0 {
      FreeSingle(v, inode'.indirect, t, Slot(ino, 12), old(v.bm));
      inode' := inode'.(indirect := 0);
    }
    SlotReady(v.disk, t, old(v.bm), v.bm, v.owner, ino, 13);
    if inode'.doubleIndirect != 0 {
      FreeDouble(v, inode'.doubleIndirect, t, Slot(ino, 13), old(v.bm));
      inode' := inode'.(doubleIndirect := 0);
    }
    SlotReady(v.disk, t, old(v.bm), v.bm, v.owner, ino, 14);
    if inode'.tripleIndirect != 0 {
      FreeTriple(v, inode'.tripleIndirect, t, Slot(ino, 14), old(v.bm));
      inode' := inode'.(tripleIndirect := 0);
    }
    inode' := inode'.(size := 0);
    assert inode'.blocks == FreshInode(inode.kind).blocks;
    var _ := WriteInode(v, ino, inode');
    Released(v.disk, t, v.inodes, old(v.bm), v.bm, v.owner, ino);
    v.owner := WithoutIno(v.owner, ino);
  }

  lemma NoneCleared(bm: seq<bool>, owner: Owners, ino: nat)
    ensures SlotsCleared(bm, bm, owner, ino, 0)
  {
  }

  lemma Released(d: Disk, t: Table, t': Table, bm0: seq<bool>, bm: seq<bool>, owner: Owners, ino: nat)
    requires Own(d, t, bm0, owner) && ino < TOTAL_INODES == |t|
    requires SlotsCleared(bm0, bm, owner, ino, ROOT_SLOTS)
    requires t' == t[ino := FreshInode(t[ino].kind)]
    ensures ClearedBy(bm0, bm, OwnedBy(owner, ino)) && AllMarked(bm0, OwnedBy(owner, ino))
    ensures Own(d, t', bm, WithoutIno(owner, ino))
    ensures Exact(bm0, owner) ==> Exact(bm, WithoutIno(owner, ino))
    ensures forall m :: At(d, t', m) == if LocIno(m) == ino then 0 else At(d, t, m)
  {
    hide At, Own, ValidLoc, LocIno, AllMarked, SlotsSet, Exact, WithoutIno;
    SlotsSetAll(d, t, bm0, owner, ino);
    Release(d, t, t', bm0, bm, owner, ino);
  }
}
