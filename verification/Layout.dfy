/** The on-disk structures and the geometry of an inode's block map. */
module Layout {
  import opened Bytes

  const TOTAL_BLOCKS: nat := 2048
  const TOTAL_INODES: nat := 128
  // Blocks 0..9 hold the super block, group descriptor, bitmaps, inode table and user tables.
  const FIRST_DATA_BLOCK: nat := 10
  const ROOT_INODE: nat := 1
  const DIRECT: nat := 12
  const ROOT_SLOTS: nat := 15

  // The logical blocks that the four levels of an inode can address.
  const SINGLE_END: nat := DIRECT + PTRS
  const DOUBLE_END: nat := SINGLE_END + PTRS * PTRS
  const TRIPLE_END: nat := DOUBLE_END + PTRS * PTRS * PTRS

  datatype Kind = File | Dir

  datatype RawInode = Inode(kind: Kind, size: u32, blocks: seq<u32>,
                            indirect: u32, doubleIndirect: u32, tripleIndirect: u32)

  type Inode = i: RawInode | |i.blocks| == 12 witness RawInode.Inode(File, 0, seq(12, _ => 0), 0, 0, 0)

  function FreshInode(kind: Kind): Inode {
    RawInode.Inode(kind, 0, seq(12, _ => 0), 0, 0, 0)
  }

  /** The fifteen root pointers of an inode, numbered in declaration order. */
  function RootPtr(inode: Inode, slot: nat): u32
    requires slot < ROOT_SLOTS
  {
    if slot < DIRECT then inode.blocks[slot]
    else if slot == 12 then inode.indirect
    else if slot == 13 then inode.doubleIndirect
    else inode.tripleIndirect
  }

  function SetRootPtr(inode: Inode, slot: nat, b: u32): Inode
    requires slot < ROOT_SLOTS
  {
    if slot < DIRECT then inode.(blocks := inode.blocks[slot := b])
    else if slot == 12 then inode.(indirect := b)
    else if slot == 13 then inode.(doubleIndirect := b)
    else inode.(tripleIndirect := b)
  }

  lemma SetRootPtrKeeps(inode: Inode, slot: nat, b: u32)
    requires slot < ROOT_SLOTS
    ensures var i := SetRootPtr(inode, slot, b);
            && i.kind == inode.kind && i.size == inode.size
            && forall s :: 0 <= s < ROOT_SLOTS ==> RootPtr(i, s) == if s == slot then b else RootPtr(inode, s)
  {
  }

  /** A location that can hold a block number: a root pointer of an inode, or
      word `idx` of the pointer block that another location names. */
  datatype Loc = Slot(ino: nat, slot: nat) | Sub(parent: Loc, idx: nat)

  function LocIno(l: Loc): nat {
    match l
    case Slot(i, _) => i
    case Sub(p, _) => LocIno(p)
  }

  function RootSlot(l: Loc): nat {
    match l
    case Slot(_, s) => s
    case Sub(p, _) => RootSlot(p)
  }

  /** How many levels of pointer blocks hang below a location; 0 for a data block. */
  function Height(l: Loc): int {
    match l
    case Slot(_, s) => if s < DIRECT then 0 else s - 11
    case Sub(p, _) => Height(p) - 1
  }

  ghost predicate ValidLoc(l: Loc) {
    match l
    case Slot(i, s) => i < TOTAL_INODES && s < ROOT_SLOTS
    case Sub(p, k) => ValidLoc(p) && Height(p) >= 1 && k < PTRS
  }

  /** The location that holds the number of logical block `lb`. */
  function LocOf(ino: nat, lb: nat): Loc {
    if lb < DIRECT then Slot(ino, lb)
    else if lb < SINGLE_END then Sub(Slot(ino, 12), lb - DIRECT)
    else if lb < DOUBLE_END then
      var o := lb - SINGLE_END;
      Sub(Sub(Slot(ino, 13), o / PTRS), o % PTRS)
    else
      var o := lb - DOUBLE_END;
      Sub(Sub(Sub(Slot(ino, 14), o / (PTRS * PTRS)), (o / PTRS) % PTRS), o % PTRS)
  }

  /** The logical block that a data location serves: the inverse of `LocOf`. */
  function LbOf(l: Loc): nat
    requires ValidLoc(l) && Height(l) == 0
  {
    match l
    case Slot(_, s) => s
    case Sub(Slot(_, _), k) => DIRECT + k
    case Sub(Sub(Slot(_, _), j), k) => SINGLE_END + PTRS * j + k
    case Sub(Sub(Sub(_, i), j), k) => DOUBLE_END + PTRS * PTRS * i + PTRS * j + k
  }

  lemma HeightBound(l: Loc)
    requires ValidLoc(l)
    ensures 0 <= Height(l) <= 3
  {
  }

  lemma SlotIsValid(ino: nat, s: nat)
    requires ino < TOTAL_INODES && s < ROOT_SLOTS
    ensures var l := Slot(ino, s);
            ValidLoc(l) && LocIno(l) == ino && RootSlot(l) == s && Height(l) == if s < DIRECT then 0 else s - 11
  {
  }

  lemma SubIsValid(p: Loc, k: nat)
    requires ValidLoc(p) && Height(p) >= 1 && k < PTRS
    ensures var l := Sub(p, k);
            ValidLoc(l) && LocIno(l) == LocIno(p) && RootSlot(l) == RootSlot(p) && Height(l) == Height(p) - 1
  {
  }

  /** The root pointer through which logical block `lb` is reached. */
  function RootSlotOf(lb: nat): (s: nat)
    ensures lb < TRIPLE_END ==> s < ROOT_SLOTS
  {
    if lb < DIRECT then lb else if lb < SINGLE_END then 12 else if lb < DOUBLE_END then 13 else 14
  }

  /** The address split is a bijection between [0, TRIPLE_END) and the data locations. */
  lemma LocOfIsValid(ino: nat, lb: nat)
    requires ino < TOTAL_INODES && lb < TRIPLE_END
    ensures var l := LocOf(ino, lb);
            && ValidLoc(l) && Height(l) == 0 && LocIno(l) == ino && LbOf(l) == lb
            && RootSlot(l) == RootSlotOf(lb)
  {
    hide ValidLoc, Height, LocIno, RootSlot;
    SlotIsValid(ino, RootSlotOf(lb));
    if lb < DIRECT {
    } else if lb < SINGLE_END {
      SubIsValid(Slot(ino, 12), lb - DIRECT);
    } else if lb < DOUBLE_END {
      DoubleIsValid(ino, lb - SINGLE_END);
    } else {
      TripleIsValid(ino, lb - DOUBLE_END);
    }
  }

  lemma DoubleIsValid(ino: nat, o: nat)
    requires ino < TOTAL_INODES && o < PTRS * PTRS
    ensures var l := Sub(Sub(Slot(ino, 13), o / PTRS), o % PTRS);
            && ValidLoc(l) && Height(l) == 0 && LocIno(l) == ino && RootSlot(l) == 13
            && LbOf(l) == SINGLE_END + o
  {
    hide ValidLoc, Height, LocIno, RootSlot;
    SlotIsValid(ino, 13);
    SubIsValid(Slot(ino, 13), o / PTRS);
    SubIsValid(Sub(Slot(ino, 13), o / PTRS), o % PTRS);
  }

  lemma TripleIsValid(ino: nat, o: nat)
    requires ino < TOTAL_INODES && o < PTRS * PTRS * PTRS
    ensures var l := Sub(Sub(Sub(Slot(ino, 14), o / (PTRS * PTRS)), (o / PTRS) % PTRS), o % PTRS);
            && ValidLoc(l) && Height(l) == 0 && LocIno(l) == ino && RootSlot(l) == 14
            && LbOf(l) == DOUBLE_END + o
  {
    hide ValidLoc, Height, LocIno, RootSlot;
    SplitTriple(o);
    var i, j, k := o / (PTRS * PTRS), (o / PTRS) % PTRS, o % PTRS;
    SlotIsValid(ino, 14);
    SubIsValid(Slot(ino, 14), i);
    SubIsValid(Sub(Slot(ino, 14), i), j);
    SubIsValid(Sub(Sub(Slot(ino, 14), i), j), k);
  }

  lemma LbOfIsLogical(l: Loc)
    requires ValidLoc(l) && Height(l) == 0
    ensures LbOf(l) < TRIPLE_END && LocOf(LocIno(l), LbOf(l)) == l
  {
    match l
    case Slot(_, _) =>
    case Sub(Slot(i, s), k) =>
      assert s == 12;
    case Sub(Sub(Slot(i, s), j), k) =>
      ParentOf(l);
      ParentOf(l.parent);
      JoinDouble(j, k);
    case Sub(Sub(Sub(p, i), j), k) =>
      TripleIsLogical(p, i, j, k);
  }

  lemma ParentOf(l: Loc)
    requires ValidLoc(l) && l.Sub?
    ensures ValidLoc(l.parent) && Height(l.parent) == Height(l) + 1 <= 3 && LocIno(l.parent) == LocIno(l)
    ensures l.idx < PTRS
    ensures Height(l) == 2 ==> l.parent.Slot? && l.parent.slot == 14
  {
    if l.parent.Sub? {
      HeightBound(l.parent.parent);
    }
    HeightBound(l.parent);
  }

  lemma TripleIsLogical(p: Loc, i: nat, j: nat, k: nat)
    requires var l := Sub(Sub(Sub(p, i), j), k); ValidLoc(l) && Height(l) == 0
    ensures var l := Sub(Sub(Sub(p, i), j), k); LbOf(l) < TRIPLE_END && LocOf(LocIno(l), LbOf(l)) == l
  {
    hide ValidLoc, Height, LocIno, LocOf;
    ParentOf(Sub(Sub(Sub(p, i), j), k));
    ParentOf(Sub(Sub(p, i), j));
    ParentOf(Sub(p, i));
    JoinTriple(i, j, k);
    SlotIno(p);
    TripleLoc(p.ino, i, j, k);
  }

  lemma SlotIno(p: Loc)
    requires p.Slot?
    ensures LocIno(p) == p.ino
  {
  }

  lemma TripleLoc(ino: nat, i: nat, j: nat, k: nat)
    requires i < PTRS && j < PTRS && k < PTRS
    ensures var lb := DOUBLE_END + PTRS * PTRS * i + PTRS * j + k;
            lb < TRIPLE_END && LocOf(ino, lb) == Sub(Sub(Sub(Slot(ino, 14), i), j), k)
  {
    JoinTriple(i, j, k);
    var lb := DOUBLE_END + PTRS * PTRS * i + PTRS * j + k;
    assert lb - DOUBLE_END == PTRS * PTRS * i + PTRS * j + k;
  }

  lemma SplitTriple(o: nat)
    requires o < PTRS * PTRS * PTRS
    ensures o == PTRS * PTRS * (o / (PTRS * PTRS)) + PTRS * ((o / PTRS) % PTRS) + o % PTRS
    ensures o / (PTRS * PTRS) < PTRS
  {
    assert (o / PTRS) / PTRS == o / (PTRS * PTRS);
  }

  lemma JoinDouble(j: nat, k: nat)
    requires j < PTRS && k < PTRS
    ensures PTRS * j + k < PTRS * PTRS
    ensures (PTRS * j + k) / PTRS == j && (PTRS * j + k) % PTRS == k
  {
  }

  lemma JoinTriple(i: nat, j: nat, k: nat)
    requires i < PTRS && j < PTRS && k < PTRS
    ensures var o := PTRS * PTRS * i + PTRS * j + k;
            o < PTRS * PTRS * PTRS && o / (PTRS * PTRS) == i && (o / PTRS) % PTRS == j && o % PTRS == k
  {
    var o := PTRS * PTRS * i + PTRS * j + k;
    JoinDouble(j, k);
    assert o / PTRS == PTRS * i + j;
  }

  lemma LocOfInjective(i: nat, a: nat, j: nat, b: nat)
    requires i < TOTAL_INODES && j < TOTAL_INODES && a < TRIPLE_END && b < TRIPLE_END
    requires LocOf(i, a) == LocOf(j, b)
    ensures i == j && a == b
  {
    LocOfIsValid(i, a);
    LocOfIsValid(j, b);
  }
}
