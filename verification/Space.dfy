/** Which blocks an allocation takes: on the level of bitmap and owners, and on the level of counts. */
module Space {
  import opened Bytes
  import opened Layout
  import opened BlockMap
  import opened Volumes

  // ---- block by block ----

  function LeastFrom(bm: seq<bool>, j: nat): (b: nat)
    requires j <= |bm|
    ensures j <= b <= |bm| && (forall k :: j <= k < b ==> bm[k]) && (b < |bm| ==> !bm[b])
    decreases |bm| - j
  {
    if j == |bm| || !bm[j] then j else LeastFrom(bm, j + 1)
  }

  /** The least free block. */
  function Least(bm: seq<bool>): (b: nat)
    ensures b <= |bm| && (forall k :: 0 <= k < b ==> bm[k]) && (b < |bm| ==> !bm[b])
  {
    LeastFrom(bm, 0)
  }

  lemma LeastIs(bm: seq<bool>, b: nat)
    requires b < |bm| && !bm[b] && forall k :: 0 <= k < b ==> bm[k]
    ensures Least(bm) == b
  {
  }

  /** Linking the least free block at location `l`. */
  ghost function Take(owner: Owners, bm: seq<bool>, l: Loc): (bool, Owners, seq<bool>) {
    var b := Least(bm);
    if b == |bm| then (false, owner, bm) else (true, owner[b := l], bm[b := true])
  }

  /** What `inode_get_block` takes to map location `l`: the missing pointer blocks on the way to it, from the
      root down, and a block for `l` itself; it stops where no block is left, and keeps what it has linked. */
  ghost function Place(owner: Owners, bm: seq<bool>, l: Loc): (bool, Owners, seq<bool>) {
    if l in owner.Values then (true, owner, bm)
    else match l
         case Slot(_, _) => Take(owner, bm, l)
         case Sub(p, _) =>
           var (ok, owner1, bm1) := Place(owner, bm, p);
           if ok then Take(owner1, bm1, l) else (false, owner1, bm1)
  }

  /** The whole effect of one allocation on owners and bitmap. */
  ghost predicate Placed(owner0: Owners, bm0: seq<bool>, owner: Owners, bm: seq<bool>, l: Loc, r: int) {
    Place(owner0, bm0, l) == (r != -1, owner, bm)
  }

  /** The same for the logical blocks lo .. hi - 1 in turn; the first result is the first block refused,
      or hi. */
  ghost function PlaceAll(owner: Owners, bm: seq<bool>, ino: nat, lo: nat, hi: nat): (nat, Owners, seq<bool>)
    decreases if lo < hi then hi - lo else 0
  {
    if lo >= hi then (hi, owner, bm)
    else
      var (ok, owner1, bm1) := Place(owner, bm, LocOf(ino, lo));
      if ok then PlaceAll(owner1, bm1, ino, lo + 1, hi) else (lo, owner1, bm1)
  }

  ghost predicate Marked(owner: Owners, bm: seq<bool>) {
    forall b :: b in owner ==> b < |bm| && bm[b]
  }

  /** A location is only named once its pointer block is. */
  ghost predicate UpClosed(named: set<Loc>) {
    forall l :: l in named && l.Sub? ==> l.parent in named
  }

  lemma OwnSpace(d: Disk, t: Table, bm: seq<bool>, owner: Owners)
    requires Own(d, t, bm, owner)
    ensures Marked(owner, bm) && UpClosed(owner.Values)
  {
    hide ValidLoc, Height, Word;
    forall l | l in owner.Values && l.Sub?
      ensures l.parent in owner.Values
    {
      var b: nat :| b in owner && owner[b] == l;
      ParentNamed(d, t, bm, owner, l);
    }
  }

  lemma ParentNamed(d: Disk, t: Table, bm: seq<bool>, owner: Owners, l: Loc)
    requires Own(d, t, bm, owner) && l.Sub? && ValidLoc(l) && At(d, t, l) != 0
    ensures ValidLoc(l.parent) && At(d, t, l.parent) in owner && owner[At(d, t, l.parent)] == l.parent
  {
    hide Word, Height;
  }

  /** Exactly the locations that hold a block number are owned. */
  lemma NamedIffAt(d: Disk, t: Table, bm: seq<bool>, owner: Owners, l: Loc)
    requires Own(d, t, bm, owner) && ValidLoc(l)
    ensures l in owner.Values <==> At(d, t, l) != 0
    ensures At(d, t, l) != 0 ==> At(d, t, l) in owner && owner[At(d, t, l)] == l
  {
    hide At, ValidLoc;
    if l in owner.Values {
      var b: nat :| b in owner && owner[b] == l;
      assert At(d, t, owner[b]) == b && b >= FIRST_DATA_BLOCK;
    }
  }

  /** A location whose pointer block is there, or that needs none, takes one block or none. */
  lemma PlaceOne(d: Disk, t: Table, bm: seq<bool>, owner: Owners, l: Loc)
    requires Own(d, t, bm, owner) && ValidLoc(l) && (l.Sub? ==> At(d, t, l.parent) != 0)
    ensures Place(owner, bm, l) == if At(d, t, l) != 0 then (true, owner, bm) else Take(owner, bm, l)
  {
    hide Own, At, Take;
    NamedIffAt(d, t, bm, owner, l);
    if l.Sub? {
      SubParent(l);
      NamedIffAt(d, t, bm, owner, l.parent);
    }
  }

  lemma SubParent(l: Loc)
    requires ValidLoc(l) && l.Sub?
    ensures ValidLoc(l.parent)
  {
  }

  /** What the bitmap search returns is the least free block. */
  lemma TakeIs(owner: Owners, bm: seq<bool>, l: Loc, r: int)
    requires r == -1 <==> forall j :: 0 <= j < |bm| ==> bm[j]
    requires r != -1 ==> 0 <= r < |bm| && !bm[r] && forall j :: 0 <= j < r ==> bm[j]
    ensures Take(owner, bm, l) == if r == -1 then (false, owner, bm) else (true, owner[r := l], bm[r := true])
  {
    if r != -1 {
      LeastIs(bm, r);
    }
  }

  /** A step down the pointer tree and the rest below it, put together. */
  lemma PlacedThen(d: Disk, t: Table, owner0: Owners, bm0: seq<bool>, owner1: Owners, bm1: seq<bool>,
                   owner: Owners, bm: seq<bool>, p: Loc, l: Loc, b: int, r: int)
    requires Own(d, t, bm0, owner0) && Under(l, p)
    requires Placed(owner0, bm0, owner1, bm1, p, b)
    requires if b == -1 then r == -1 && owner == owner1 && bm == bm1 else Placed(owner1, bm1, owner, bm, l, r)
    ensures Placed(owner0, bm0, owner, bm, l, r)
  {
    hide Own, Place, Under;
    OwnSpace(d, t, bm0, owner0);
    PlaceThrough(owner0, bm0, p, l);
  }

  function Depth(l: Loc): nat {
    match l
    case Slot(_, _) => 0
    case Sub(p, _) => 1 + Depth(p)
  }

  lemma {:induction false} UnderIsDeeper(l: Loc, p: Loc)
    requires Under(l, p)
    ensures Depth(l) >= Depth(p) && (Depth(l) == Depth(p) ==> l == p)
  {
    if l != p {
      UnderIsDeeper(l.parent, p);
    }
  }

  lemma {:induction false} ClosedUnder(named: set<Loc>, l: Loc, p: Loc)
    requires UpClosed(named) && l in named && Under(l, p)
    ensures p in named
  {
    if l != p {
      ClosedUnder(named, l.parent, p);
    }
  }

  lemma TakeFacts(owner: Owners, bm: seq<bool>, l: Loc)
    requires Marked(owner, bm) && l !in owner.Values
    ensures var (ok, owner', bm') := Take(owner, bm, l);
            && |bm'| == |bm| && Marked(owner', bm')
            && owner'.Values == (if ok then owner.Values + {l} else owner.Values)
            && ok == (ClearCount(bm) > 0) && ClearCount(bm') == (if ok then ClearCount(bm) - 1 else 0)
            && (forall b :: b in owner ==> b in owner' && owner'[b] == owner[b])
  {
    hide ClearCount;
    var b := Least(bm);
    ClearCountZero(bm);
    if b < |bm| {
      ClearCountUpdate(bm, b, true);
      var owner' := owner[b := l];
      assert b !in owner;
      forall m | m in owner.Values + {l}
        ensures m in owner'.Values
      {
        if m != l {
          var c: nat :| c in owner && owner[c] == m;
          assert owner'[c] == m;
        } else {
          assert owner'[b] == l;
        }
      }
    }
  }

  /** What is newly named lies on the way from the root to `l`. */
  lemma {:induction false} PlaceFacts(owner: Owners, bm: seq<bool>, l: Loc)
    requires Marked(owner, bm) && UpClosed(owner.Values)
    ensures var (ok, owner', bm') := Place(owner, bm, l);
            && |bm'| == |bm| && Marked(owner', bm') && UpClosed(owner'.Values)
            && owner.Values <= owner'.Values && (ok <==> l in owner'.Values)
            && (forall m :: m in owner'.Values && m !in owner.Values ==> Under(l, m))
            && (forall b :: b in owner ==> b in owner' && owner'[b] == owner[b])
            && Link(owner.Values, ClearCount(bm), l) == (ok, owner'.Values, ClearCount(bm'))
  {
    hide ClearCount, Take, Marked;
    if l in owner.Values {
    } else if l.Slot? {
      TakeFacts(owner, bm, l);
    } else {
      PlaceFacts(owner, bm, l.parent);
      var (ok, owner1, bm1) := Place(owner, bm, l.parent);
      if l in owner1.Values {
        UnderIsDeeper(l.parent, l);
        assert false;
      }
      if ok {
        TakeFacts(owner1, bm1, l);
      }
    }
  }

  /** Mapping what is on the way first, and then the rest, is mapping it all. */
  lemma {:induction false} PlaceThrough(owner: Owners, bm: seq<bool>, p: Loc, l: Loc)
    requires Marked(owner, bm) && UpClosed(owner.Values) && Under(l, p)
    ensures var (ok, owner1, bm1) := Place(owner, bm, p);
            Place(owner, bm, l) == if ok then Place(owner1, bm1, l) else (false, owner1, bm1)
  {
    hide ClearCount, Take, Marked, Link, UpClosed;
    PlaceFacts(owner, bm, p);
    if l == p {
    } else if l in owner.Values {
      ClosedUnder(owner.Values, l, p);
    } else {
      PlaceThrough(owner, bm, p, l.parent);
      var (ok, owner1, bm1) := Place(owner, bm, p);
      if l in owner1.Values {
        UnderIsDeeper(p, l);
        UnderIsDeeper(l, p);
        assert false;
      }
    }
  }

  // ---- in numbers ----

  /** The locations in the block map of inode `i`. */
  ghost function OfInode(named: set<Loc>, i: nat): set<Loc> {
    set l | l in named && LocIno(l) == i
  }

  /** The same as `Place` seen from outside: which locations are named, and how many blocks are free. */
  ghost function Link(named: set<Loc>, free: nat, l: Loc): (bool, set<Loc>, nat) {
    if l in named then (true, named, free)
    else match l
         case Slot(_, _) => if free == 0 then (false, named, 0) else (true, named + {l}, free - 1)
         case Sub(p, _) =>
           var (ok, named1, free1) := Link(named, free, p);
           if ok && free1 > 0 then (true, named1 + {l}, free1 - 1) else (false, named1, 0)
  }

  ghost function LinkAll(named: set<Loc>, free: nat, ino: nat, lo: nat, hi: nat): (nat, set<Loc>, nat)
    decreases if lo < hi then hi - lo else 0
  {
    if lo >= hi then (hi, named, free)
    else
      var (ok, named1, free1) := Link(named, free, LocOf(ino, lo));
      if ok then LinkAll(named1, free1, ino, lo + 1, hi) else (lo, named1, free1)
  }

  lemma {:induction false} PlaceAllFacts(owner: Owners, bm: seq<bool>, ino: nat, lo: nat, hi: nat)
    requires Marked(owner, bm) && UpClosed(owner.Values)
    ensures var (k, owner', bm') := PlaceAll(owner, bm, ino, lo, hi);
            && |bm'| == |bm| && Marked(owner', bm') && UpClosed(owner'.Values)
            && LinkAll(owner.Values, ClearCount(bm), ino, lo, hi) == (k, owner'.Values, ClearCount(bm'))
    decreases if lo < hi then hi - lo else 0
  {
    hide ClearCount, Place, Link, Marked, UpClosed;
    if lo < hi {
      PlaceFacts(owner, bm, LocOf(ino, lo));
      var (ok, owner1, bm1) := Place(owner, bm, LocOf(ino, lo));
      if ok {
        PlaceAllFacts(owner1, bm1, ino, lo + 1, hi);
      }
    }
  }
}
