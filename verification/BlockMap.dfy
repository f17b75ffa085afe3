/** What the pointer blocks on the disk mean: which block every location names,
    who owns each block, and how one store changes that. */
module BlockMap {
  import opened Bytes
  import opened Layout

  type Disk = seq<Block>
  type Table = seq<Inode>
  type Owners = map<nat, Loc>

  /** The block number found at a location, 0 when there is none. */
  ghost function At(disk: Disk, inodes: Table, l: Loc): nat {
    match l
    case Slot(i, s) =>
      if i < |inodes| && s < ROOT_SLOTS then RootPtr(inodes[i], s) else 0
    case Sub(p, k) =>
      var b := At(disk, inodes, p);
      if 0 < b < |disk| && k < PTRS then Word(disk[b], k) else 0
  }

  /** `owner` is the inverse of `At`: every block is named by at most one location of
      one inode, every named block is a data-area block marked in the bitmap. */
  ghost predicate Own(disk: Disk, inodes: Table, bm: seq<bool>, owner: Owners) {
    && |disk| == |bm| == TOTAL_BLOCKS
    && |inodes| == TOTAL_INODES
    && (forall l :: ValidLoc(l) && At(disk, inodes, l) != 0 ==>
          At(disk, inodes, l) in owner && owner[At(disk, inodes, l)] == l)
    && (forall b :: b in owner ==>
          FIRST_DATA_BLOCK <= b < TOTAL_BLOCKS && bm[b] && ValidLoc(owner[b]) && At(disk, inodes, owner[b]) == b)
  }

  /** Every marked data-area block is owned: nothing has leaked. */
  ghost predicate Exact(bm: seq<bool>, owner: Owners) {
    forall b :: FIRST_DATA_BLOCK <= b < |bm| && bm[b] ==> b in owner
  }

  /** The image of an inode: what each of its logical blocks holds. Files and
      directories are functions of it. */
  ghost function Img(disk: Disk, inodes: Table, i: nat, lb: nat): Option<Block> {
    var b := At(disk, inodes, LocOf(i, lb));
    if 0 < b < |disk| then Some(disk[b]) else None
  }

  ghost predicate SameImg(d: Disk, t: Table, d': Disk, t': Table, i: nat) {
    forall lb: nat :: lb < TRIPLE_END ==> Img(d', t', i, lb) == Img(d, t, i, lb)
  }

  /** Ownership grows: `bm'` marks the old blocks and the newly owned ones, which belong to `ino`. */
  ghost predicate Grow(bm: seq<bool>, owner: Owners, bm': seq<bool>, owner': Owners, ino: nat) {
    && |bm'| == |bm|
    && (forall b :: b in owner ==> b in owner' && owner'[b] == owner[b])
    && (forall b :: b in owner' && b !in owner ==> b < |bm| && !bm[b] && LocIno(owner'[b]) == ino)
    && (forall b :: 0 <= b < |bm| ==> bm'[b] == (bm[b] || b in owner'))
  }

  /** Only the location `l` changes, from nothing to block `b`. */
  ghost predicate PointUpdate(d: Disk, t: Table, d': Disk, t': Table, l: Loc, b: nat) {
    forall m :: ValidLoc(m) ==> At(d', t', m) == if m == l then b else At(d, t, m)
  }

  /** No block that holds data is overwritten, and none that is free afterwards. */
  ghost predicate DataKept(d: Disk, owner: Owners, d': Disk, bm': seq<bool>) {
    && |d'| == |d| && FreeKept(d, d', bm')
    && forall b :: b in owner && b < |d| && Height(owner[b]) == 0 ==> d'[b] == d[b]
  }

  /** The blocks that are free afterwards hold what they held before. */
  ghost predicate FreeKept(d: Disk, d': Disk, bm': seq<bool>) {
    && |d'| == |d|
    && forall b :: 0 <= b < |d| && b < |bm'| && !bm'[b] ==> d'[b] == d[b]
  }

  lemma OwnSizes(d: Disk, t: Table, bm: seq<bool>, owner: Owners)
    requires Own(d, t, bm, owner)
    ensures |d| == |bm| == TOTAL_BLOCKS && |t| == TOTAL_INODES
  {
    hide At, ValidLoc;
  }

  lemma AtSlot(d: Disk, t: Table, ino: nat, s: nat)
    requires ino < |t| <= TOTAL_INODES && s < ROOT_SLOTS
    ensures At(d, t, Slot(ino, s)) == RootPtr(t[ino], s) && ValidLoc(Slot(ino, s)) && LocIno(Slot(ino, s)) == ino
  {
  }

  lemma AtWord(d: Disk, t: Table, p: Loc, k: nat)
    requires 0 < At(d, t, p) < |d| && k < PTRS
    ensures At(d, t, Sub(p, k)) == Word(d[At(d, t, p)], k) && LocIno(Sub(p, k)) == LocIno(p)
  {
    hide Word;
  }

  lemma NamedInRange(d: Disk, t: Table, bm: seq<bool>, owner: Owners, l: Loc)
    requires Own(d, t, bm, owner) && ValidLoc(l) && At(d, t, l) != 0
    ensures FIRST_DATA_BLOCK <= At(d, t, l) < TOTAL_BLOCKS == |d| == |bm| && bm[At(d, t, l)]
  {
    hide At, ValidLoc;
  }

  /** What ownership means: no block is named from two places, and every named block is a marked block
      of the data area. */
  lemma BlocksAreDisjoint(d: Disk, t: Table, bm: seq<bool>, owner: Owners, l: Loc, m: Loc)
    requires Own(d, t, bm, owner) && ValidLoc(l) && ValidLoc(m) && At(d, t, l) != 0
    ensures l != m ==> At(d, t, l) != At(d, t, m)
    ensures FIRST_DATA_BLOCK <= At(d, t, l) < |bm| == TOTAL_BLOCKS && bm[At(d, t, l)]
  {
    hide At, ValidLoc;
  }

  // ---- linking a fresh block at a root pointer ----

  lemma {:induction false} SlotPoint(d: Disk, t: Table, d': Disk, t': Table, bm: seq<bool>, owner: Owners,
                                    ino: nat, s: nat, b: nat, m: Loc)
    requires Own(d, t, bm, owner)
    requires ino < TOTAL_INODES && s < ROOT_SLOTS && RootPtr(t[ino], s) == 0
    requires FIRST_DATA_BLOCK <= b < TOTAL_BLOCKS && !bm[b]
    requires |d'| == |d| && forall c :: 0 <= c < |d| && c != b ==> d'[c] == d[c]
    requires s >= DIRECT ==> d'[b] == ZERO
    requires t' == t[ino := SetRootPtr(t[ino], s, b)]
    requires ValidLoc(m)
    ensures At(d', t', m) == if m == Slot(ino, s) then b else At(d, t, m)
  {
    hide Word;
    match m
    case Slot(_, _) =>
    case Sub(p, k) =>
      SlotPoint(d, t, d', t', bm, owner, ino, s, b, p);
      if p == Slot(ino, s) {
        ZeroWord(k);
      }
  }

  lemma LinkSlot(d: Disk, t: Table, d': Disk, t': Table, bm: seq<bool>, owner: Owners,
                 ino: nat, s: nat, b: nat)
    requires Own(d, t, bm, owner)
    requires ino < TOTAL_INODES && s < ROOT_SLOTS && RootPtr(t[ino], s) == 0
    requires FIRST_DATA_BLOCK <= b < TOTAL_BLOCKS && !bm[b]
    requires |d'| == |d| && forall c :: 0 <= c < |d| && c != b ==> d'[c] == d[c]
    requires s >= DIRECT ==> d'[b] == ZERO
    requires t' == t[ino := SetRootPtr(t[ino], s, b)]
    ensures PointUpdate(d, t, d', t', Slot(ino, s), b)
    ensures Extends(d, bm, owner, d', t', bm[b := true], owner[b := Slot(ino, s)], ino)
  {
    forall m | ValidLoc(m)
      ensures At(d', t', m) == if m == Slot(ino, s) then b else At(d, t, m)
    {
      SlotPoint(d, t, d', t', bm, owner, ino, s, b, m);
    }
    FreshLink(d, t, d', t', bm, owner, Slot(ino, s), b);
  }

  /** A point update with a fresh block keeps the ownership bijection. */
  lemma FreshLink(d: Disk, t: Table, d': Disk, t': Table, bm: seq<bool>, owner: Owners, l: Loc, b: nat)
    requires Own(d, t, bm, owner)
    requires |d'| == |d| && |t'| == |t|
    requires ValidLoc(l) && At(d, t, l) == 0
    requires FIRST_DATA_BLOCK <= b < TOTAL_BLOCKS && !bm[b]
    requires PointUpdate(d, t, d', t', l, b)
    ensures Own(d', t', bm[b := true], owner[b := l])
  {
    hide At, ValidLoc;
    var bm', owner' := bm[b := true], owner[b := l];
    forall m | ValidLoc(m) && At(d', t', m) != 0
      ensures At(d', t', m) in owner' && owner'[At(d', t', m)] == m
    {
      if m != l {
        assert At(d', t', m) == At(d, t, m);
      }
    }
    forall c | c in owner'
      ensures FIRST_DATA_BLOCK <= c < TOTAL_BLOCKS && bm'[c] && ValidLoc(owner'[c]) && At(d', t', owner'[c]) == c
    {
      if c != b {
        assert owner'[c] == owner[c] && owner[c] != l;
      }
    }
  }

  // ---- linking a fresh block at a word of a pointer block ----

  lemma {:induction false} WordPoint(d: Disk, t: Table, d': Disk, bm: seq<bool>, owner: Owners,
                                    p: Loc, k: nat, b: nat, m: Loc)
    requires Own(d, t, bm, owner)
    requires ValidLoc(Sub(p, k)) && At(d, t, p) != 0 && At(d, t, Sub(p, k)) == 0
    requires FIRST_DATA_BLOCK <= b < TOTAL_BLOCKS && !bm[b]
    requires |d'| == |d| && forall c :: 0 <= c < |d| && c != b && c != At(d, t, p) ==> d'[c] == d[c]
    requires Height(p) >= 2 ==> d'[b] == ZERO
    requires At(d, t, p) < |d| && d'[At(d, t, p)] == SetWord(d[At(d, t, p)], k, b)
    requires ValidLoc(m)
    ensures At(d', t, m) == if m == Sub(p, k) then b else At(d, t, m)
  {
    hide Word;
    match m
    case Slot(_, _) =>
    case Sub(q, j) =>
      WordPoint(d, t, d', bm, owner, p, k, b, q);
      if q == Sub(p, k) {
        ZeroWord(j);
      } else if At(d, t, q) == At(d, t, p) {
        assert q == p;
        WordAfterSet(d[At(d, t, p)], k, b, j);
      }
  }

  lemma PointerBlock(d: Disk, t: Table, bm: seq<bool>, owner: Owners, p: Loc, k: nat)
    requires Own(d, t, bm, owner) && ValidLoc(Sub(p, k)) && At(d, t, p) != 0
    ensures At(d, t, p) in owner && owner[At(d, t, p)] == p && Height(p) >= 1
    ensures forall b :: b in owner ==> b < |bm| && bm[b]
  {
    hide At;
  }

  lemma LinkWord(d: Disk, t: Table, d': Disk, bm: seq<bool>, owner: Owners, p: Loc, k: nat, b: nat)
    requires Own(d, t, bm, owner)
    requires ValidLoc(Sub(p, k)) && At(d, t, p) != 0 && At(d, t, Sub(p, k)) == 0
    requires FIRST_DATA_BLOCK <= b < TOTAL_BLOCKS && !bm[b]
    requires |d'| == |d| && forall c :: 0 <= c < |d| && c != b && c != At(d, t, p) ==> d'[c] == d[c]
    requires Height(p) >= 2 ==> d'[b] == ZERO
    requires At(d, t, p) < |d| && d'[At(d, t, p)] == SetWord(d[At(d, t, p)], k, b)
    ensures PointUpdate(d, t, d', t, Sub(p, k), b)
    ensures Extends(d, bm, owner, d', t, bm[b := true], owner[b := Sub(p, k)], LocIno(p))
  {
    hide Word, SetWord, At, ValidLoc, Own;
    OwnSizes(d, t, bm, owner);
    PointerBlock(d, t, bm, owner, p, k);
    forall m | ValidLoc(m)
      ensures At(d', t, m) == if m == Sub(p, k) then b else At(d, t, m)
    {
      WordPoint(d, t, d', bm, owner, p, k, b, m);
    }
    FreshLink(d, t, d', t, bm, owner, Sub(p, k), b);
  }

  // ---- overwriting data ----

  lemma {:induction false} PointersKept(d: Disk, t: Table, d': Disk, bm: seq<bool>, owner: Owners, m: Loc)
    requires Own(d, t, bm, owner) && |d'| == |d|
    requires forall c :: c in owner && Height(owner[c]) >= 1 && c < |d| ==> d'[c] == d[c]
    requires ValidLoc(m)
    ensures At(d', t, m) == At(d, t, m)
  {
    hide Word;
    match m
    case Slot(_, _) =>
    case Sub(q, j) => PointersKept(d, t, d', bm, owner, q);
  }

  /** Writing a data block of `ino` is a point update of that inode's image. */
  lemma WriteData(d: Disk, t: Table, bm: seq<bool>, owner: Owners, ino: nat, lb: nat, blk: Block)
    requires Own(d, t, bm, owner)
    requires ino < TOTAL_INODES && lb < TRIPLE_END
    requires At(d, t, LocOf(ino, lb)) != 0
    ensures At(d, t, LocOf(ino, lb)) < |d|
    ensures var d' := d[At(d, t, LocOf(ino, lb)) := blk];
            && Own(d', t, bm, owner)
            && (forall m :: ValidLoc(m) ==> At(d', t, m) == At(d, t, m))
            && (forall i: nat, k: nat :: i < TOTAL_INODES && k < TRIPLE_END ==>
                  Img(d', t, i, k) == if i == ino && k == lb then Some(blk) else Img(d, t, i, k))
  {
    LocOfIsValid(ino, lb);
    var b := At(d, t, LocOf(ino, lb));
    var d' := d[b := blk];
    forall m | ValidLoc(m)
      ensures At(d', t, m) == At(d, t, m)
    {
      PointersKept(d, t, d', bm, owner, m);
    }
    SameAtOwn(d, t, d', t, bm, owner);
    forall i: nat, k: nat | i < TOTAL_INODES && k < TRIPLE_END
      ensures Img(d', t, i, k) == if i == ino && k == lb then Some(blk) else Img(d, t, i, k)
    {
      hide At, ValidLoc, LocOf, Height;
      LocOfIsValid(i, k);
      if At(d, t, LocOf(i, k)) == b {
        LocOfInjective(i, k, ino, lb);
      }
    }
  }

  lemma SameAtOwn(d: Disk, t: Table, d': Disk, t': Table, bm: seq<bool>, owner: Owners)
    requires Own(d, t, bm, owner) && |d'| == |d| && |t'| == |t|
    requires forall m :: ValidLoc(m) ==> At(d', t', m) == At(d, t, m)
    ensures Own(d', t', bm, owner)
  {
    hide At, ValidLoc;
  }

  // ---- several allocations in a row ----

  /** The state after allocating for `ino`: still well owned, no data overwritten, ownership only grown. */
  ghost predicate Extends(d: Disk, bm: seq<bool>, owner: Owners,
                          d': Disk, t': Table, bm': seq<bool>, owner': Owners, ino: nat) {
    Own(d', t', bm', owner') && DataKept(d, owner, d', bm') && Grow(bm, owner, bm', owner', ino)
  }

  lemma ExtendsReflexive(d: Disk, t: Table, bm: seq<bool>, owner: Owners, ino: nat, l: Loc)
    requires Own(d, t, bm, owner)
    ensures Extends(d, bm, owner, d, t, bm, owner, ino)
    ensures PointUpdate(d, t, d, t, l, At(d, t, l))
  {
    hide At, ValidLoc, LocIno, Height;
  }

  lemma ExtendsTransitive(d0: Disk, bm0: seq<bool>, owner0: Owners, d1: Disk, t1: Table, bm1: seq<bool>, owner1: Owners,
                          d2: Disk, t2: Table, bm2: seq<bool>, owner2: Owners, ino: nat)
    requires Extends(d0, bm0, owner0, d1, t1, bm1, owner1, ino)
    requires Extends(d1, bm1, owner1, d2, t2, bm2, owner2, ino)
    ensures Extends(d0, bm0, owner0, d2, t2, bm2, owner2, ino)
  {
    hide At, ValidLoc, Own, LocIno, Height;
  }

  /** Among the data locations only `l` changes, to block `b`; pointer locations may change freely. */
  ghost predicate DataUpdate(d: Disk, t: Table, d': Disk, t': Table, l: Loc, b: nat) {
    forall m :: ValidLoc(m) && Height(m) == 0 ==> At(d', t', m) == if m == l then b else At(d, t, m)
  }

  /** `l` is `p` or hangs below it. */
  ghost predicate Under(l: Loc, p: Loc) {
    l == p || (l.Sub? && Under(l.parent, p))
  }

  lemma UnderSteps(p: Loc, i: nat, j: nat, k: nat)
    ensures Under(Sub(p, k), p) && Under(Sub(Sub(p, j), k), p) && Under(Sub(Sub(Sub(p, i), j), k), p)
  {
    assert Under(Sub(p, i), p);
    assert Under(Sub(Sub(p, i), j), p);
    assert Under(Sub(p, j), p);
  }

  lemma {:induction false} NamedAbove(d: Disk, t: Table, l: Loc, p: Loc)
    requires Under(l, p) && At(d, t, l) != 0
    ensures At(d, t, p) != 0
  {
    if l != p {
      NamedAbove(d, t, l.parent, p);
    }
  }

  lemma {:induction false} UnderHeight(l: Loc, p: Loc)
    requires Under(l, p)
    ensures Height(l) <= Height(p) && LocIno(l) == LocIno(p)
    ensures ValidLoc(l) ==> ValidLoc(p)
  {
    if l != p {
      UnderHeight(l.parent, p);
    }
  }

  /** Looking up data location `l`, allocating on request, gave `r` (-1 for nothing): the whole
      contract of `inode_get_block` over the state before (0) and after. */
  ghost predicate Got(d0: Disk, t0: Table, bm0: seq<bool>, owner0: Owners,
                      d: Disk, t: Table, bm: seq<bool>, owner: Owners, allocate: bool, l: Loc, r: int) {
    && Extends(d0, bm0, owner0, d, t, bm, owner, LocIno(l))
    && (r == -1 || FIRST_DATA_BLOCK <= r < TOTAL_BLOCKS)
    && DataUpdate(d0, t0, d, t, l, if r == -1 then 0 else r)
    && (At(d0, t0, l) != 0 ==> r == At(d0, t0, l))
    && (!allocate && At(d0, t0, l) == 0 ==> r == -1)
    && (!allocate || At(d0, t0, l) != 0 ==> d == d0 && t == t0 && bm == bm0 && owner == owner0)
    && (allocate && r == -1 ==> forall b :: 0 <= b < |bm| ==> bm[b])
    && (r != -1 ==> Untouched(d0, d, r))
  }

  /** Block `b` holds what it held before: a freshly linked data block is not cleared. */
  ghost predicate Untouched(d0: Disk, d: Disk, b: int) {
    0 <= b < |d| == |d0| && d[b] == d0[b]
  }

  /** The same for one step of the walk, at any location `p`. */
  ghost predicate Followed(d0: Disk, t0: Table, bm0: seq<bool>, owner0: Owners,
                           d: Disk, t: Table, bm: seq<bool>, owner: Owners, allocate: bool, p: Loc, r: int) {
    && Extends(d0, bm0, owner0, d, t, bm, owner, LocIno(p))
    && (r == -1 || FIRST_DATA_BLOCK <= r < TOTAL_BLOCKS)
    && (r == -1 ==> At(d0, t0, p) == 0)
    && PointUpdate(d0, t0, d, t, p, if r == -1 then 0 else r)
    && (At(d0, t0, p) != 0 ==> r == At(d0, t0, p))
    && (r == -1 || !allocate || At(d0, t0, p) != 0 ==> d == d0 && t == t0 && bm == bm0 && owner == owner0)
    && (allocate && r == -1 ==> forall b :: 0 <= b < |bm| ==> bm[b])
    && (r != -1 && Height(p) == 0 ==> Untouched(d0, d, r))
  }

  lemma FollowedData(d0: Disk, t0: Table, bm0: seq<bool>, owner0: Owners,
                     d: Disk, t: Table, bm: seq<bool>, owner: Owners, allocate: bool, l: Loc, r: int)
    requires Followed(d0, t0, bm0, owner0, d, t, bm, owner, allocate, l, r)
    requires ValidLoc(l) && Height(l) == 0
    ensures Got(d0, t0, bm0, owner0, d, t, bm, owner, allocate, l, r)
  {
    hide At, ValidLoc, Height, LocIno, Extends;
  }

  lemma FollowedHere(d0: Disk, t0: Table, bm0: seq<bool>, owner0: Owners,
                     d: Disk, t: Table, bm: seq<bool>, owner: Owners, allocate: bool, p: Loc, r: int)
    requires Followed(d0, t0, bm0, owner0, d, t, bm, owner, allocate, p, r)
    requires r != -1 && ValidLoc(p)
    ensures r > 0 && At(d, t, p) == r && Own(d, t, bm, owner)
  {
    hide At, ValidLoc, LocIno, Own, DataKept, Grow;
  }

  lemma FollowedStuck(d0: Disk, t0: Table, bm0: seq<bool>, owner0: Owners,
                      d: Disk, t: Table, bm: seq<bool>, owner: Owners, allocate: bool, p: Loc, r: int)
    requires Followed(d0, t0, bm0, owner0, d, t, bm, owner, allocate, p, r)
    ensures r == -1 ==> d == d0 && bm == bm0 && owner == owner0
  {
    hide At, ValidLoc, LocIno, Own, DataKept, Grow, PointUpdate;
  }

  lemma FollowedNowhere(d0: Disk, t0: Table, bm0: seq<bool>, owner0: Owners,
                        d: Disk, t: Table, bm: seq<bool>, owner: Owners, allocate: bool, p: Loc, l: Loc)
    requires Followed(d0, t0, bm0, owner0, d, t, bm, owner, allocate, p, -1)
    requires ValidLoc(l) && Under(l, p)
    ensures Got(d0, t0, bm0, owner0, d, t, bm, owner, allocate, l, -1)
  {
    hide At, ValidLoc, Height, LocIno, Extends, Under;
    UnderHeight(l, p);
    if At(d0, t0, l) != 0 {
      NamedAbove(d0, t0, l, p);
    }
  }

  /** Following a pointer and then looking up below it is looking up from the start. */
  lemma FollowedThenGot(d0: Disk, t0: Table, bm0: seq<bool>, owner0: Owners,
                        d1: Disk, t1: Table, bm1: seq<bool>, owner1: Owners,
                        d: Disk, t: Table, bm: seq<bool>, owner: Owners, allocate: bool, p: Loc, l: Loc, b: int, r: int)
    requires Followed(d0, t0, bm0, owner0, d1, t1, bm1, owner1, allocate, p, b)
    requires Got(d1, t1, bm1, owner1, d, t, bm, owner, allocate, l, r)
    requires ValidLoc(l) && Height(l) == 0 && Under(l, p) && Height(p) >= 1
    ensures Got(d0, t0, bm0, owner0, d, t, bm, owner, allocate, l, r)
  {
    hide At, ValidLoc, Height, LocIno, Extends, Under, Untouched;
    UnderHeight(l, p);
    ExtendsTransitive(d0, bm0, owner0, d1, t1, bm1, owner1, d, t, bm, owner, LocIno(l));
    if At(d0, t0, l) != 0 {
      NamedAbove(d0, t0, l, p);
    }
    if r != -1 {
      assert At(d, t, l) == r && At(d1, t1, l) == At(d0, t0, l);
      if At(d1, t1, l) == 0 {
        FreshWasFree(d0, bm0, owner0, d1, t1, bm1, owner1, d, t, bm, owner, l, r);
      }
    }
  }

  /** A block linked in the second of two allocations was free, and untouched, during the first. */
  lemma FreshWasFree(d0: Disk, bm0: seq<bool>, owner0: Owners, d1: Disk, t1: Table, bm1: seq<bool>, owner1: Owners,
                     d: Disk, t: Table, bm: seq<bool>, owner: Owners, l: Loc, r: int)
    requires Extends(d0, bm0, owner0, d1, t1, bm1, owner1, LocIno(l))
    requires Extends(d1, bm1, owner1, d, t, bm, owner, LocIno(l))
    requires ValidLoc(l) && At(d1, t1, l) == 0 && At(d, t, l) == r != 0 && Untouched(d1, d, r)
    ensures Untouched(d0, d, r)
  {
    hide At, ValidLoc, Height, LocIno;
    assert r in owner && owner[r] == l;
    assert r !in owner1;
  }

  /** What an allocation means for the images of all inodes. */
  lemma ImagesAfter(d: Disk, t: Table, bm: seq<bool>, owner: Owners,
                    d': Disk, t': Table, bm': seq<bool>, owner': Owners, ino: nat, lb: nat, b: nat)
    requires Own(d, t, bm, owner) && Extends(d, bm, owner, d', t', bm', owner', ino)
    requires ino < TOTAL_INODES && lb < TRIPLE_END
    requires DataUpdate(d, t, d', t', LocOf(ino, lb), b)
    requires At(d, t, LocOf(ino, lb)) != 0 ==> b == At(d, t, LocOf(ino, lb))
    ensures forall i: nat, k: nat :: i < TOTAL_INODES && k < TRIPLE_END && (i != ino || k != lb) ==>
              Img(d', t', i, k) == Img(d, t, i, k)
    ensures b < |d'|
    ensures Img(d', t', ino, lb) == if b == 0 then None else Some(d'[b])
    ensures Img(d, t, ino, lb).Some? ==> Img(d', t', ino, lb) == Img(d, t, ino, lb)
  {
    LocOfIsValid(ino, lb);
    forall i: nat, k: nat | i < TOTAL_INODES && k < TRIPLE_END && (i != ino || k != lb)
      ensures Img(d', t', i, k) == Img(d, t, i, k)
    {
      hide At, ValidLoc, LocOf, Height, LocIno;
      LocOfIsValid(i, k);
      if LocOf(i, k) == LocOf(ino, lb) {
        LocOfInjective(i, k, ino, lb);
      }
    }
  }

  /** What `inode_get_block` does to the logical-to-physical map of all inodes: on success the requested
      block resolves to the returned one, on failure nothing does that did not before; every other logical
      block of every inode resolves as before. */
  lemma GetIsPointUpdate(d: Disk, t: Table, bm: seq<bool>, owner: Owners,
                         d': Disk, t': Table, bm': seq<bool>, owner': Owners, allocate: bool,
                         ino: nat, lb: nat, r: int, i: nat, k: nat)
    requires Own(d, t, bm, owner) && ino < TOTAL_INODES && lb < TRIPLE_END && i < TOTAL_INODES && k < TRIPLE_END
    requires Got(d, t, bm, owner, d', t', bm', owner', allocate, LocOf(ino, lb), r)
    ensures r == -1 ==> At(d, t, LocOf(ino, lb)) == 0
    ensures At(d', t', LocOf(i, k)) == if r != -1 && i == ino && k == lb then r else At(d, t, LocOf(i, k))
  {
    hide At, ValidLoc, LocOf, Height, LocIno, Extends;
    LocOfIsValid(i, k);
    LocOfIsValid(ino, lb);
    if LocOf(i, k) == LocOf(ino, lb) {
      LocOfInjective(i, k, ino, lb);
    }
  }

  /** Asking again returns the same block and allocates nothing. */
  lemma GetTwice(d: Disk, t: Table, bm: seq<bool>, owner: Owners,
                 d1: Disk, t1: Table, bm1: seq<bool>, owner1: Owners,
                 d2: Disk, t2: Table, bm2: seq<bool>, owner2: Owners, again: bool, ino: nat, lb: nat, r: int, r2: int)
    requires Own(d, t, bm, owner) && ino < TOTAL_INODES && lb < TRIPLE_END
    requires Got(d, t, bm, owner, d1, t1, bm1, owner1, true, LocOf(ino, lb), r) && r != -1
    requires Got(d1, t1, bm1, owner1, d2, t2, bm2, owner2, again, LocOf(ino, lb), r2)
    ensures r2 == r && d2 == d1 && t2 == t1 && bm2 == bm1 && owner2 == owner1
  {
    hide At, LocOf, Extends;
    LocOfIsValid(ino, lb);
  }

  // ---- releasing an inode's blocks, and dropping an unsaved inode ----

  ghost function WithoutIno(owner: Owners, ino: nat): Owners {
    map b | b in owner && LocIno(owner[b]) != ino :: owner[b]
  }

  lemma {:induction false} ReleasePoint(d: Disk, t: Table, t': Table, ino: nat, m: Loc)
    requires ino < |t| && |t'| == |t|
    requires forall i :: 0 <= i < |t| && i != ino ==> t'[i] == t[i]
    requires forall s :: 0 <= s < ROOT_SLOTS ==> RootPtr(t'[ino], s) == 0
    ensures At(d, t', m) == if LocIno(m) == ino then 0 else At(d, t, m)
  {
    hide Word;
    match m
    case Slot(_, _) =>
    case Sub(p, _) => ReleasePoint(d, t, t', ino, p);
  }

  /** Clearing all root pointers of `ino` and unmarking what it owned keeps everyone else's map. */
  lemma Release(d: Disk, t: Table, t': Table, bm: seq<bool>, bm': seq<bool>, owner: Owners, ino: nat)
    requires Own(d, t, bm, owner)
    requires ino < |t| && |t'| == |t| && |bm'| == |bm|
    requires forall i :: 0 <= i < |t| && i != ino ==> t'[i] == t[i]
    requires forall s :: 0 <= s < ROOT_SLOTS ==> RootPtr(t'[ino], s) == 0
    requires forall b :: 0 <= b < |bm| ==> bm'[b] == (bm[b] && !(b in owner && LocIno(owner[b]) == ino))
    ensures Own(d, t', bm', WithoutIno(owner, ino))
    ensures Exact(bm, owner) ==> Exact(bm', WithoutIno(owner, ino))
    ensures forall m :: At(d, t', m) == if LocIno(m) == ino then 0 else At(d, t, m)
  {
    forall m
      ensures At(d, t', m) == if LocIno(m) == ino then 0 else At(d, t, m)
    {
      ReleasePoint(d, t, t', ino, m);
    }
    hide At, ValidLoc, LocIno;
  }

  ghost function StillNamed(d: Disk, t: Table, owner: Owners): Owners {
    map b | b in owner && At(d, t, owner[b]) == b :: owner[b]
  }

  lemma {:induction false} ForgetPoint(d: Disk, t: Table, t': Table, ino: nat, m: Loc)
    requires ino < |t| && |t'| == |t|
    requires forall i :: 0 <= i < |t| && i != ino ==> t'[i] == t[i]
    requires forall s :: 0 <= s < ROOT_SLOTS ==> RootPtr(t'[ino], s) == 0 || RootPtr(t'[ino], s) == RootPtr(t[ino], s)
    ensures At(d, t', m) == 0 || At(d, t', m) == At(d, t, m)
    ensures LocIno(m) != ino ==> At(d, t', m) == At(d, t, m)
  {
    hide Word;
    match m
    case Slot(_, _) =>
    case Sub(p, _) => ForgetPoint(d, t, t', ino, p);
  }

  /** Going back to older root pointers: the locations below a pointer that was 0 are gone, all others stay. */
  lemma {:induction false} RootDecides(d: Disk, t: Table, t': Table, ino: nat, m: Loc)
    requires ino < |t| && |t'| == |t| && ValidLoc(m)
    requires forall i :: 0 <= i < |t| && i != ino ==> t'[i] == t[i]
    requires forall s :: 0 <= s < ROOT_SLOTS ==> RootPtr(t'[ino], s) == 0 || RootPtr(t'[ino], s) == RootPtr(t[ino], s)
    ensures RootSlot(m) < ROOT_SLOTS
    ensures At(d, t', m) == if LocIno(m) == ino && RootPtr(t'[ino], RootSlot(m)) == 0 then 0 else At(d, t, m)
  {
    hide Word, RootPtr;
    match m
    case Slot(_, _) =>
    case Sub(p, _) => RootDecides(d, t, t', ino, p);
  }

  /** Dropping root pointers without clearing their bits leaks blocks but breaks nothing. */
  lemma Forget(d: Disk, t: Table, t': Table, bm: seq<bool>, owner: Owners, ino: nat)
    requires Own(d, t, bm, owner)
    requires ino < |t| && |t'| == |t|
    requires forall i :: 0 <= i < |t| && i != ino ==> t'[i] == t[i]
    requires forall s :: 0 <= s < ROOT_SLOTS ==> RootPtr(t'[ino], s) == 0 || RootPtr(t'[ino], s) == RootPtr(t[ino], s)
    ensures Own(d, t', bm, StillNamed(d, t', owner))
    ensures forall m :: LocIno(m) != ino ==> At(d, t', m) == At(d, t, m)
  {
    hide At, ValidLoc, LocIno, RootPtr;
    forall m
      ensures At(d, t', m) == 0 || At(d, t', m) == At(d, t, m)
      ensures LocIno(m) != ino ==> At(d, t', m) == At(d, t, m)
    {
      ForgetPoint(d, t, t', ino, m);
    }
  }

  /** Growing ownership keeps every named location, even when the root pointers added since are dropped. */
  lemma {:induction false} KeptPoint(d0: Disk, t0: Table, bm0: seq<bool>, owner0: Owners,
                                    d: Disk, t: Table, bm: seq<bool>, owner: Owners, ino: nat, m: Loc)
    requires Own(d0, t0, bm0, owner0) && Own(d, t, bm, owner) && Grow(bm0, owner0, bm, owner, ino)
    requires ValidLoc(m) && At(d0, t0, m) != 0
    ensures At(d, t, m) == At(d0, t0, m) == At(d, t0, m)
  {
    hide Word, LocIno;
    assert owner0[At(d0, t0, m)] == m;
    match m
    case Slot(_, _) =>
    case Sub(p, _) => KeptPoint(d0, t0, bm0, owner0, d, t, bm, owner, ino, p);
  }

  /** At most 2038 logical blocks of an inode in a row can be mapped at once. */
  lemma MappedBound(d: Disk, t: Table, bm: seq<bool>, owner: Owners, ino: nat, first: nat, n: nat)
    requires Own(d, t, bm, owner) && ino < TOTAL_INODES && first + n <= TRIPLE_END
    requires forall lb: nat :: first <= lb < first + n ==> At(d, t, LocOf(ino, lb)) != 0
    ensures n <= TOTAL_BLOCKS - FIRST_DATA_BLOCK
  {
    hide At, ValidLoc, LocOf, Own;
    var s := seq(n, (x: nat) => At(d, t, LocOf(ino, first + x)));
    forall a | 0 <= a < n
      ensures FIRST_DATA_BLOCK <= s[a] < TOTAL_BLOCKS
    {
      DataBlock(d, t, bm, owner, ino, first + a);
    }
    forall a, b | 0 <= a < b < n
      ensures s[a] != s[b]
    {
      DataBlocksDiffer(d, t, bm, owner, ino, first + a, first + b);
    }
    Pigeonhole(s, FIRST_DATA_BLOCK, TOTAL_BLOCKS);
  }

  lemma DataBlock(d: Disk, t: Table, bm: seq<bool>, owner: Owners, ino: nat, lb: nat)
    requires Own(d, t, bm, owner) && ino < TOTAL_INODES && lb < TRIPLE_END && At(d, t, LocOf(ino, lb)) != 0
    ensures FIRST_DATA_BLOCK <= At(d, t, LocOf(ino, lb)) < TOTAL_BLOCKS
  {
    hide At, ValidLoc, LocOf, Own;
    LocOfIsValid(ino, lb);
    NamedInRange(d, t, bm, owner, LocOf(ino, lb));
  }

  lemma DataBlocksDiffer(d: Disk, t: Table, bm: seq<bool>, owner: Owners, ino: nat, a: nat, b: nat)
    requires Own(d, t, bm, owner) && ino < TOTAL_INODES && a < TRIPLE_END && b < TRIPLE_END && a != b
    requires At(d, t, LocOf(ino, a)) != 0
    ensures At(d, t, LocOf(ino, a)) != At(d, t, LocOf(ino, b))
  {
    hide At, ValidLoc, LocOf, Own;
    LocOfIsValid(ino, a);
    LocOfIsValid(ino, b);
    if LocOf(ino, a) == LocOf(ino, b) {
      LocOfInjective(ino, a, ino, b);
    }
    BlocksAreDisjoint(d, t, bm, owner, LocOf(ino, a), LocOf(ino, b));
  }
}
