/** Every block is counted once: free, or named by one location. */
module Accounts {
  import opened Layout
  import opened BlockMap
  import opened Volumes
  import opened Space
  import opened ReleaseBlocks

  ghost function ClearSet(bm: seq<bool>): set<nat> {
    set b: nat | b < |bm| && !bm[b]
  }

  lemma {:induction false} ClearCard(bm: seq<bool>)
    ensures |ClearSet(bm)| == ClearCount(bm)
  {
    if bm != [] {
      var n := |bm| - 1;
      ClearCard(bm[..n]);
      assert ClearSet(bm) == if bm[n] then ClearSet(bm[..n]) else ClearSet(bm[..n]) + {n};
    }
  }

  /** The numbers lo .. hi - 1. */
  ghost function Range(lo: nat, hi: nat): (s: set<nat>)
    ensures |s| == if lo < hi then hi - lo else 0
    ensures forall b :: b in s <==> lo <= b < hi
    decreases hi
  {
    if lo >= hi then {} else Range(lo, hi - 1) + {hi - 1}
  }

  ghost predicate OneToOne(owner: Owners) {
    forall b, c :: b in owner && c in owner && owner[b] == owner[c] ==> b == c
  }

  lemma OwnIsOneToOne(d: Disk, t: Table, bm: seq<bool>, owner: Owners)
    requires Own(d, t, bm, owner)
    ensures OneToOne(owner)
  {
    hide At, ValidLoc;
    forall b, c | b in owner && c in owner && owner[b] == owner[c]
      ensures b == c
    {
      assert At(d, t, owner[b]) == b && At(d, t, owner[c]) == c;
    }
  }

  ghost function LocsOf(owner: Owners, s: set<nat>): set<Loc> {
    set b | b in s && b in owner :: owner[b]
  }

  lemma {:induction false} LocsCard(owner: Owners, s: set<nat>)
    requires OneToOne(owner) && s <= owner.Keys
    ensures |LocsOf(owner, s)| == |s|
  {
    if s != {} {
      var b :| b in s;
      var s' := s - {b};
      LocsCard(owner, s');
      assert LocsOf(owner, s) == LocsOf(owner, s') + {owner[b]};
      assert owner[b] !in LocsOf(owner, s');
    }
  }

  lemma NamedCard(owner: Owners)
    requires OneToOne(owner)
    ensures |owner.Values| == |owner.Keys|
  {
    LocsCard(owner, owner.Keys);
    assert LocsOf(owner, owner.Keys) == owner.Values;
  }

  /** Free and named blocks together are at most the 2038 of the data area, and exactly those when nothing
      has leaked. */
  lemma Balance(d: Disk, t: Table, bm: seq<bool>, owner: Owners)
    requires Own(d, t, bm, owner) && forall b :: 0 <= b < FIRST_DATA_BLOCK ==> b < |bm| && bm[b]
    ensures ClearCount(bm) + |owner.Values| <= TOTAL_BLOCKS - FIRST_DATA_BLOCK
    ensures Exact(bm, owner) <==> ClearCount(bm) + |owner.Values| == TOTAL_BLOCKS - FIRST_DATA_BLOCK
  {
    hide At, ValidLoc, ClearCount, ClearSet, OneToOne, Exact;
    OwnIsOneToOne(d, t, bm, owner);
    NamedCard(owner);
    ClearCard(bm);
    UsedOnce(bm, owner);
    var all, used := Range(FIRST_DATA_BLOCK, TOTAL_BLOCKS), ClearSet(bm) + owner.Keys;
    Within(used, all);
  }

  lemma UsedOnce(bm: seq<bool>, owner: Owners)
    requires |bm| == TOTAL_BLOCKS && forall b :: 0 <= b < FIRST_DATA_BLOCK ==> bm[b]
    requires forall b :: b in owner ==> FIRST_DATA_BLOCK <= b < TOTAL_BLOCKS && bm[b]
    ensures ClearSet(bm) !! owner.Keys && ClearSet(bm) + owner.Keys <= Range(FIRST_DATA_BLOCK, TOTAL_BLOCKS)
    ensures Exact(bm, owner) <==> ClearSet(bm) + owner.Keys == Range(FIRST_DATA_BLOCK, TOTAL_BLOCKS)
  {
    hide Range;
    var all, used := Range(FIRST_DATA_BLOCK, TOTAL_BLOCKS), ClearSet(bm) + owner.Keys;
    if Exact(bm, owner) {
      forall b | b in all
        ensures b in used
      {
      }
    }
    if used == all {
      forall b | FIRST_DATA_BLOCK <= b < |bm| && bm[b]
        ensures b in owner
      {
        assert b in all;
      }
    }
  }

  lemma Within(s: set<nat>, all: set<nat>)
    requires s <= all
    ensures |s| <= |all| && (|s| == |all| <==> s == all)
  {
    assert all == s + (all - s);
  }

  /** Releasing what inode `i` owns frees as many blocks as its map names. */
  lemma ReleasedCount(d: Disk, t: Table, bm: seq<bool>, owner: Owners, bm': seq<bool>, i: nat)
    requires Own(d, t, bm, owner) && ClearedBy(bm, bm', OwnedBy(owner, i))
    ensures ClearCount(bm') == ClearCount(bm) + |OfInode(owner.Values, i)|
    ensures WithoutIno(owner, i).Values == owner.Values - OfInode(owner.Values, i)
  {
    hide At, ValidLoc, ClearCount, LocIno;
    OwnIsOneToOne(d, t, bm, owner);
    ClearCard(bm);
    ClearCard(bm');
    var s := OwnedBy(owner, i);
    LocsCard(owner, s);
    assert LocsOf(owner, s) == OfInode(owner.Values, i);
    assert ClearSet(bm') == ClearSet(bm) + s;
    RemainingLocs(owner, i);
  }

  lemma RemainingLocs(owner: Owners, i: nat)
    ensures WithoutIno(owner, i).Values == owner.Values - OfInode(owner.Values, i)
  {
    hide LocIno;
    forall l
      ensures l in WithoutIno(owner, i).Values <==> l in owner.Values && LocIno(l) != i
    {
      if l in owner.Values && LocIno(l) != i {
        var b :| b in owner && owner[b] == l;
        assert WithoutIno(owner, i)[b] == l;
      }
    }
  }

  /** Who owns which block is determined by the disk. */
  lemma OwnersAgree(d: Disk, t: Table, bm: seq<bool>, owner: Owners, bm': seq<bool>, owner': Owners)
    requires Own(d, t, bm, owner) && Own(d, t, bm', owner')
    ensures owner == owner'
  {
    hide At, ValidLoc;
  }
}
