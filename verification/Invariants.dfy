/** What every operation on a mounted volume keeps. */
module Invariants {
  import opened Bytes
  import opened Layout
  import opened BlockMap
  import opened Volumes
  import opened Contents

  ghost predicate FreeOwnNothing(im: seq<bool>, owner: Owners) {
    forall b :: b in owner ==> LocIno(owner[b]) < |im| && im[LocIno(owner[b])]
  }

  /** Disk-level soundness: bitmaps and counters agree, block ownership is a bijection. */
  ghost predicate Sound(v: Volume)
    reads v
  {
    v.Meta() && Own(v.disk, v.inodes, v.bm, v.owner) && FreeOwnNothing(v.im, v.owner)
  }

  // FUSE writes stay 16 MB below the end of the 32-bit range.
  const FUSE_LIMIT: nat := WORD_LIMIT - 0x100_0000

  /** No file has a hole between position `from` and its size. */
  ghost predicate Dense(d: Disk, t: Table, from: nat) {
    forall i: nat :: i < |t| ==> Mapped(d, t, i, from, t[i].size)
  }

  /** Whatever part of the files had no hole has none. */
  ghost predicate KeepsDense(d: Disk, t: Table, d': Disk, t': Table) {
    forall from: nat :: Dense(d, t, from) ==> Dense(d', t', from)
  }

  lemma KeepsAt(d: Disk, t: Table, d': Disk, t': Table, from: nat)
    requires KeepsDense(d, t, d', t') && Dense(d, t, from)
    ensures Dense(d', t', from)
  {
    hide Dense;
  }

  lemma KeepsDenseTransitive(d: Disk, t: Table, d1: Disk, t1: Table, d2: Disk, t2: Table)
    requires KeepsDense(d, t, d1, t1) && KeepsDense(d1, t1, d2, t2)
    ensures KeepsDense(d, t, d2, t2)
  {
    hide Dense;
  }

  /** What every operation on names keeps: no new holes, no leaks, and no change to the blocks that it leaves free. */
  ghost predicate Tidy(d: Disk, t: Table, bm: seq<bool>, owner: Owners, d': Disk, t': Table, bm': seq<bool>,
                       owner': Owners) {
    KeepsDense(d, t, d', t') && FreeKept(d, d', bm') && (Exact(bm, owner) ==> Exact(bm', owner'))
  }

  lemma TidyReflexive(d: Disk, t: Table, bm: seq<bool>, owner: Owners)
    ensures Tidy(d, t, bm, owner, d, t, bm, owner)
  {
    hide Dense, Exact;
  }

  /** An open descriptor names an allocated regular file and stands within it. */
  ghost predicate FdsOk(fds: seq<Fd>, t: Table, im: seq<bool>) {
    && |fds| == MAX_OPEN_FILES
    && forall f :: 0 <= f < |fds| && fds[f].used ==>
         && 0 < fds[f].ino < |t| && fds[f].ino < |im| && im[fds[f].ino]
         && t[fds[f].ino].kind == File && fds[f].offset <= t[fds[f].ino].size
  }

  /** The state of a volume in use: sound, no file near the end of the 32-bit range, descriptors in range. */
  ghost predicate Mounted(v: Volume)
    reads v, v.fds
  {
    && Sound(v)
    && Dense(v.disk, v.inodes, FUSE_LIMIT)
    && FdsOk(v.fds[..], v.inodes, v.im)
  }

  lemma SoundSizes(v: Volume)
    requires Sound(v)
    ensures |v.disk| == |v.bm| == TOTAL_BLOCKS && |v.inodes| == |v.im| == TOTAL_INODES
  {
  }

  lemma GrowExact(bm: seq<bool>, owner: Owners, bm': seq<bool>, owner': Owners, ino: nat, im: seq<bool>)
    requires Grow(bm, owner, bm', owner', ino)
    requires ino < |im| && im[ino] && FreeOwnNothing(im, owner)
    ensures FreeOwnNothing(im, owner')
    ensures Exact(bm, owner) ==> Exact(bm', owner')
  {
    hide LocIno;
  }

  lemma MappedSame(d: Disk, t: Table, d': Disk, t': Table, i: nat, from: nat, n: nat)
    requires SameImg(d, t, d', t', i) && Mapped(d, t, i, from, n) && n < WORD_LIMIT
    ensures Mapped(d', t', i, from, n)
  {
    hide Img;
    forall lb: nat | from <= lb * BLOCK_SIZE < n
      ensures Img(d', t', i, lb).Some?
    {
      assert lb < TRIPLE_END;
      assert Img(d, t, i, lb).Some?;
    }
  }

  lemma DenseKept(d: Disk, t: Table, d': Disk, t': Table, ino: nat, from: nat)
    requires Dense(d, t, from) && |t'| == |t| == TOTAL_INODES && ino < |t|
    requires OthersSame(d, t, d', t', ino)
    requires forall i :: 0 <= i < |t| && i != ino ==> t'[i] == t[i]
    requires Mapped(d', t', ino, from, t'[ino].size)
    ensures Dense(d', t', from)
  {
    hide Mapped, SameImg;
    forall i: nat | i < |t'|
      ensures Mapped(d', t', i, from, t'[i].size)
    {
      if i != ino {
        MappedSame(d, t, d', t', i, from, t[i].size);
      }
    }
  }

  /** Changing one file, in a way that leaves no new hole in it. */
  lemma OneKeepsDense(d: Disk, t: Table, d': Disk, t': Table, ino: nat)
    requires |t'| == |t| == TOTAL_INODES && ino < |t|
    requires OthersSame(d, t, d', t', ino) && forall i :: 0 <= i < |t| && i != ino ==> t'[i] == t[i]
    requires forall from: nat :: Mapped(d, t, ino, from, t[ino].size) ==> Mapped(d', t', ino, from, t'[ino].size)
    ensures KeepsDense(d, t, d', t')
  {
    hide Mapped, SameImg, OthersSame, Dense;
    forall from: nat | Dense(d, t, from)
      ensures Dense(d', t', from)
    {
      DenseFile(d, t, ino, from);
      DenseKept(d, t, d', t', ino, from);
    }
  }

  /** Moving one descriptor within its file, which may have grown, keeps all descriptors in range. */
  lemma FdsKept(fds: seq<Fd>, t: Table, t': Table, im: seq<bool>, fd: nat, offset: nat)
    requires FdsOk(fds, t, im) && fd < |fds| && fds[fd].used && |t'| == |t|
    requires forall i :: 0 <= i < |t| ==> t'[i].kind == t[i].kind && t'[i].size >= t[i].size
    requires offset <= t'[fds[fd].ino].size
    ensures FdsOk(fds[fd := fds[fd].(offset := offset)], t', im)
  {
  }

  lemma OpenFile(fds: seq<Fd>, t: Table, im: seq<bool>, fd: nat)
    requires FdsOk(fds, t, im) && fd < |fds| && fds[fd].used
    ensures 0 < fds[fd].ino < |t| && fds[fd].ino < |im| && im[fds[fd].ino]
    ensures t[fds[fd].ino].kind == File && fds[fd].offset <= t[fds[fd].ino].size
  {
  }

  lemma DenseFile(d: Disk, t: Table, i: nat, from: nat)
    requires Dense(d, t, from) && i < |t|
    ensures Mapped(d, t, i, from, t[i].size)
  {
    hide Mapped;
  }

  lemma LimitIsAligned()
    ensures FUSE_LIMIT % BLOCK_SIZE == 0 && FUSE_LIMIT <= WORD_LIMIT
    ensures FUSE_LIMIT + 2 * (TOTAL_BLOCKS - FIRST_DATA_BLOCK) * BLOCK_SIZE + 3 * BLOCK_SIZE < WORD_LIMIT
  {
  }

  /** In a volume in use no 32-bit position can wrap around. */
  lemma SizeBound(v: Volume, i: nat)
    requires Mounted(v) && i < |v.inodes|
    ensures v.inodes[i].size <= FUSE_LIMIT + (TOTAL_BLOCKS - FIRST_DATA_BLOCK) * BLOCK_SIZE
  {
    hide v.Meta, Own, FreeOwnNothing, Dense, FdsOk;
    SoundSizes(v);
    DenseFile(v.disk, v.inodes, i, FUSE_LIMIT);
    LimitIsAligned();
    DenseBound(v.disk, v.inodes, v.bm, v.owner, i, FUSE_LIMIT, v.inodes[i].size);
  }
}
