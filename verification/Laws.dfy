/** What follows from the steps of the simple file system alone. */
module Laws {
  import opened Bytes
  import opened Layout
  import opened Volumes
  import opened Space
  import opened Demand
  import opened Contents
  import opened Entries
  import opened FileIo
  import opened Directories
  import opened Steps

  // ---- writing to a file without holes ----

  /** On a file without holes a write through a descriptor replaces exactly the bytes from the offset on, and
      leaves no hole. It is short only with the disk full, and stops where a new block would have begun at or
      past the end of the file. */
  lemma DenseWriteStep(a: Abs, fd: int, data: seq<byte>, permitted: bool, r: int, a': Abs)
    requires WriteStep(a, fd, data, permitted, r, a') && r != -1 && UpClosed(a.named)
    requires Usable(a, fd, ReadOnly, permitted)
    requires Solid(a, a.fds[fd].ino)
    ensures var f := a.fds[fd];
            && a'.files == a.files[f.ino := WriteBytes(a.files[f.ino], f.offset, data[..r])] && Solid(a', f.ino)
            && (r < |data| ==> a'.free == 0 && (f.offset + r) % BLOCK_SIZE == 0 && f.offset + r >= |a.files[f.ino]|)
  {
    hide LinkAll, UpClosed, LocOf, Mapping, Fitting, Stored, WriteBytes;
    var f := a.fds[fd];
    MappingFacts(a, f.ino, f.offset, |data|);
    SolidStored(a, f.ino, f.offset, data[..r], a'.files[f.ino]);
    forall lb: nat | lb * BLOCK_SIZE < |a'.files[f.ino]|
      ensures LocOf(f.ino, lb) in a'.named
    {
      WriteNeverShrinks(a.files[f.ino], f.offset, data[..r]);
    }
    if r < |data| {
      var k := (f.offset + r) / BLOCK_SIZE;
      assert LocOf(f.ino, k) !in a.named;
    }
  }

  /** How far a write gets, and what is named after it. */
  lemma MappingFacts(a: Abs, i: nat, off: nat, n: nat)
    requires UpClosed(a.named)
    ensures var fit, (k, named, free) := Fitting(a, i, off, n), Mapping(a, i, off, n);
            && 0 <= fit <= n && a.named <= named && UpClosed(named) && |named| + free == |a.named| + a.free
            && (forall lb: nat :: Touched(lb, off, off + fit) ==> LocOf(i, lb) in named)
            && (forall l :: l in named && l !in a.named ==> LocIno(l) == i)
            && (fit < n ==> free == 0 && LocOf(i, (off + fit) / BLOCK_SIZE) !in named
                            && (fit == 0 || (off + fit) % BLOCK_SIZE == 0))
  {
    hide LinkAll, UpClosed, LocOf;
    var lo, hi := off / BLOCK_SIZE, EndBlock(off, n);
    var fit := Fitting(a, i, off, n);
    var (k, named, free) := Mapping(a, i, off, n);
    FittingRange(a, i, off, n);
    LinkAllTakes(a.named, a.free, i, lo, hi);
    LinkAllNames(a.named, a.free, i, lo, hi);
    forall l | l in named && l !in a.named
      ensures LocIno(l) == i
    {
      WaysInode(i, lo, hi, l);
    }
    forall lb: nat | Touched(lb, off, off + fit)
      ensures LocOf(i, lb) in named
    {
      assert lo <= lb < k;
    }
  }

  /** Exactly the blocks before the first one refused are mapped. */
  lemma {:induction false} LinkAllNames(named: set<Loc>, free: nat, i: nat, lo: nat, hi: nat)
    requires UpClosed(named) && lo <= hi
    ensures var (k, named', free') := LinkAll(named, free, i, lo, hi);
            && lo <= k <= hi && named <= named'
            && (forall lb: nat :: lo <= lb < k ==> LocOf(i, lb) in named')
            && (k < hi ==> free' == 0 && LocOf(i, k) !in named')
    decreases hi - lo
  {
    hide LocOf, Link, UpClosed;
    if lo < hi {
      LinkTakes(named, free, LocOf(i, lo));
      LinkNames(named, free, LocOf(i, lo));
      var (ok, named1, free1) := Link(named, free, LocOf(i, lo));
      if ok {
        LinkAllNames(named1, free1, i, lo + 1, hi);
      }
    }
  }

  lemma LinkNames(named: set<Loc>, free: nat, l: Loc)
    requires UpClosed(named)
    ensures Link(named, free, l).0 <==> l in Link(named, free, l).1
  {
    if l !in named && l.Sub? {
      LinkTakes(named, free, l.parent);
      NotOnTheWay(l);
    }
  }

  lemma SolidStored(a: Abs, i: nat, off: nat, data: seq<byte>, c': seq<byte>)
    requires i in a.files && Solid(a, i) && off <= |a.files[i]| && Stored(a.files[i], a.named, i, off, data, c')
    ensures c' == WriteBytes(a.files[i], off, data)
  {
    hide LocOf, Touched;
    var c := a.files[i];
    var w := WriteBytes(c, off, data);
    WriteNeverShrinks(c, off, data);
    forall p: nat | p < |c'|
      ensures c'[p] == w[p]
    {
      assert ByteAfter(c, a.named, i, off, data, p, c'[p]);
      if p < |c| {
        assert (p / BLOCK_SIZE) * BLOCK_SIZE < |c|;
      }
    }
  }

  /** The answer of a write, what it takes from the disk and the new offset are determined by the state, and on a
      file without holes so is its content. */
  lemma WriteIsDetermined(a: Abs, fd: int, data: seq<byte>, permitted: bool, r: int, a': Abs, s: int, b': Abs)
    requires WriteStep(a, fd, data, permitted, r, a') && WriteStep(a, fd, data, permitted, s, b') && UpClosed(a.named)
    ensures r == s && a'.tree == b'.tree && a'.fds == b'.fds && a'.named == b'.named && a'.free == b'.free
    ensures Usable(a, fd, ReadOnly, permitted) && Solid(a, a.fds[fd].ino) ==> a' == b'
  {
    hide Fitting, Mapping, Stored, Solid, WriteBytes, UpClosed;
    if Usable(a, fd, ReadOnly, permitted) && Solid(a, a.fds[fd].ino) {
      DenseWriteStep(a, fd, data, permitted, r, a');
      DenseWriteStep(a, fd, data, permitted, s, b');
    }
  }

  // ---- the room in terms of sizes alone ----

  lemma NeatIsSolid(a: Abs, i: nat)
    requires i in a.files && Neat(a, i)
    ensures Solid(a, i)
  {
    hide LocOf, Way;
    forall lb: nat | lb * BLOCK_SIZE < |a.files[i]|
      ensures LocOf(i, lb) in a.named
    {
      assert lb < Blocks(|a.files[i]|);
      OnTheWay(LocOf(i, lb));
      InWays(i, Blocks(|a.files[i]|), LocOf(i, lb));
    }
  }

  /** Mapping more blocks of a neat file, up to `h`. */
  lemma NeatNeed(named: set<Loc>, i: nat, first: nat, m: nat, h: nat)
    requires UpClosed(named) && OfInode(named, i) == Ways(i, 0, m) && first <= m <= h <= DOUBLE_END
    ensures Need(named, i, first, h) == BlocksNeeded(h) - BlocksNeeded(m)
    ensures OfInode(named + Ways(i, first, h), i) == Ways(i, 0, h)
  {
    hide LocOf, Way, UpClosed, BlocksNeeded, LocIno;
    forall lb: nat | lb < m
      ensures LocOf(i, lb) in named
    {
      OnTheWay(LocOf(i, lb));
      InWays(i, m, LocOf(i, lb));
    }
    WaysSplit(i, m, h);
    WaysSplit(i, first, h);
    WaysSplit(i, first, m);
    forall l | l in Ways(i, 0, h)
      ensures LocIno(l) == i
    {
      WaysInode(i, 0, h, l);
    }
    assert Ways(i, 0, h) * named == Ways(i, 0, m);
    DenseNeed(named, i, first, h);
    WaysCount(i, m);
  }

  /** When a file is neat, its size, the offset, the length and the number of free blocks decide the whole write: it
      is complete exactly when the disk has room for the blocks of its new size less those of its old one, takes
      exactly these, and leaves the file neat; otherwise it leaves no block free. */
  lemma NeatWriteStep(a: Abs, fd: int, data: seq<byte>, permitted: bool, r: int, a': Abs)
    requires WriteStep(a, fd, data, permitted, r, a') && UpClosed(a.named) && Usable(a, fd, ReadOnly, permitted)
    requires Neat(a, a.fds[fd].ino)
    requires Blocks(Max(|a.files[a.fds[fd].ino]|, a.fds[fd].offset + |data|)) <= DOUBLE_END
    ensures var f := a.fds[fd];
            var size, size' := |a.files[f.ino]|, Max(|a.files[f.ino]|, f.offset + |data|);
            var need := BlocksNeeded(Blocks(size')) - BlocksNeeded(Blocks(size));
            && (r == |data| <==> need <= a.free)
            && (r == |data| ==> a'.free == a.free - need && Neat(a', f.ino) && |a'.files[f.ino]| == size')
            && (r < |data| ==> a'.free == 0)
  {
    hide LinkAll, UpClosed, LocOf, Mapping, Fitting, Stored, BlocksNeeded, Need, Ways, OfInode, WriteBytes, Solid;
    var f := a.fds[fd];
    var n, size := |data|, |a.files[f.ino]|;
    var first, end, m := f.offset / BLOCK_SIZE, EndBlock(f.offset, n), Blocks(size);
    NeatIsSolid(a, f.ino);
    WriteTakes(a, f.ino, f.offset, n);
    FittingRange(a, f.ino, f.offset, n);
    DenseWriteStep(a, fd, data, permitted, r, a');
    WriteNeverShrinks(a.files[f.ino], f.offset, data[..r]);
    EndOfNeat(size, f.offset, n);
    NeatTakes(a.named, f.ino, first, m, end);
  }

  lemma EndOfNeat(size: nat, off: nat, n: nat)
    requires off <= size
    ensures off / BLOCK_SIZE <= Blocks(size)
    ensures Blocks(Max(size, off + n)) == Max(Blocks(size), EndBlock(off, n))
  {
  }

  lemma NeatTakes(named: set<Loc>, i: nat, first: nat, m: nat, end: nat)
    requires UpClosed(named) && OfInode(named, i) == Ways(i, 0, m) && first <= m && first <= end
    requires Max(m, end) <= DOUBLE_END
    ensures Need(named, i, first, end) == BlocksNeeded(Max(m, end)) - BlocksNeeded(m)
    ensures OfInode(named + Ways(i, first, end), i) == Ways(i, 0, Max(m, end))
  {
    hide LocOf, Way, UpClosed, BlocksNeeded, LocIno;
    if end >= m {
      NeatNeed(named, i, first, m, end);
    } else {
      WaysSplit(i, end, m);
      WaysSplit(i, first, end);
      assert Ways(i, first, end) <= OfInode(named, i);
      assert Ways(i, first, end) - named == {};
      assert named + Ways(i, first, end) == named;
    }
  }

  // ---- splitting a transfer in two ----

  /** Mapping lo .. mid - 1 first, and then on to hi, is mapping lo .. hi - 1; when the first part is refused, the
      whole is refused at the same block with the same blocks taken. */
  lemma {:induction false} LinkAllSplits(named: set<Loc>, free: nat, i: nat, lo: nat, mid: nat, hi: nat)
    requires lo <= mid <= hi
    ensures var (k, named1, free1) := LinkAll(named, free, i, lo, mid);
            LinkAll(named, free, i, lo, hi)
            == if k == mid then LinkAll(named1, free1, i, mid, hi) else (k, named1, free1)
    decreases mid - lo
  {
    hide LocOf, Link;
    if lo < mid {
      var (ok, named1, free1) := Link(named, free, LocOf(i, lo));
      if ok {
        LinkAllSplits(named1, free1, i, lo + 1, mid, hi);
      }
    }
  }

  lemma LinkedBefore(named: set<Loc>, free: nat, i: nat, lo: nat, hi: nat)
    requires lo < hi && LocOf(i, lo) in named
    ensures LinkAll(named, free, i, lo, hi) == LinkAll(named, free, i, lo + 1, hi)
  {
    hide LocOf;
  }

  /** The room for two writes in a row is the room for the joined one. */
  lemma MappingSplits(a: Abs, a1: Abs, i: nat, off: nat, m: nat, n: nat)
    requires UpClosed(a.named)
    requires var (_, named, free) := Mapping(a, i, off, m); a1.named == named && a1.free == free
    ensures Fitting(a, i, off, m) < m ==>
              Fitting(a, i, off, m + n) == Fitting(a, i, off, m) && Mapping(a, i, off, m + n) == Mapping(a, i, off, m)
    ensures Fitting(a, i, off, m) == m ==>
              && Fitting(a, i, off, m + n) == m + Fitting(a1, i, off + m, n)
              && Mapping(a, i, off, m + n).1 == Mapping(a1, i, off + m, n).1
              && Mapping(a, i, off, m + n).2 == Mapping(a1, i, off + m, n).2
  {
    hide LinkAll, LocOf, UpClosed;
    var lo, mid, hi := off / BLOCK_SIZE, EndBlock(off, m), EndBlock(off, m + n);
    FittingRange(a, i, off, m);
    EndsInOrder(off, m, n);
    LinkAllSplits(a.named, a.free, i, lo, mid, hi);
    LinkAllTakes(a.named, a.free, i, lo, mid);
    LinkAllNames(a.named, a.free, i, lo, mid);
    if Fitting(a, i, off, m) == m {
      var next := (off + m) / BLOCK_SIZE;
      assert EndBlock(off + m, n) == if n == 0 then next else hi;
      if n == 0 {
        NothingToMap(a1.named, a1.free, i, mid);
        NothingToMap(a1.named, a1.free, i, next);
      } else {
        LinkAllNames(a1.named, a1.free, i, mid, hi);
        if next < mid {
          assert LocOf(i, next) in a1.named;
          LinkedBefore(a1.named, a1.free, i, next, hi);
        }
        StopSplits(off, m, n, LinkAll(a1.named, a1.free, i, mid, hi).0);
      }
    } else {
      StopSame(off, m, n, Mapping(a, i, off, m).0);
    }
  }

  lemma NothingToMap(named: set<Loc>, free: nat, i: nat, lo: nat)
    ensures LinkAll(named, free, i, lo, lo) == (lo, named, free)
  {
  }

  lemma EndsInOrder(off: nat, m: nat, n: nat)
    ensures off / BLOCK_SIZE <= EndBlock(off, m) <= EndBlock(off, m + n)
    ensures m > 0 ==> EndBlock(off, m) - 1 <= (off + m) / BLOCK_SIZE <= EndBlock(off, m)
    ensures m == 0 ==> EndBlock(off, m) == (off + m) / BLOCK_SIZE
    ensures n > 0 ==> EndBlock(off + m, n) == EndBlock(off, m + n) > (off + m) / BLOCK_SIZE
  {
  }

  lemma StopSame(off: nat, m: nat, n: nat, k: nat)
    requires k < EndBlock(off, m)
    ensures StopAt(off, m + n, k) == StopAt(off, m, k)
  {
    EndsInOrder(off, m, n);
  }

  lemma StopSplits(off: nat, m: nat, n: nat, k: nat)
    requires n > 0 && EndBlock(off, m) <= k <= EndBlock(off, m + n)
    ensures StopAt(off, m + n, k) == StopAt(off + m, n, k)
  {
    EndsInOrder(off, m, n);
  }

  /** The bytes of two writes in a row. */
  lemma StoredSplits(c: seq<byte>, named: set<Loc>, i: nat, off: nat, x: seq<byte>, c1: seq<byte>, named1: set<Loc>,
                     y: seq<byte>, c2: seq<byte>)
    requires off <= |c| && Stored(c, named, i, off, x, c1) && Stored(c1, named1, i, off + |x|, y, c2)
    requires named <= named1 && forall lb: nat :: Touched(lb, off, off + |x|) ==> LocOf(i, lb) in named1
    ensures Stored(c, named, i, off, x + y, c2)
  {
    hide LocOf;
    forall p: nat | p < |c2|
      ensures ByteAfter(c, named, i, off, x + y, p, c2[p])
    {
      assert ByteAfter(c1, named1, i, off + |x|, y, p, c2[p]);
      if p < |c1| {
        assert ByteAfter(c, named, i, off, x, p, c1[p]);
      }
    }
  }

  /** Two writes in a row are one write of the joined data; when the first is short, the joined write stops at
      the same place, and a second one stores nothing. */
  lemma WriteStepsCompose(a: Abs, fd: int, x: seq<byte>, y: seq<byte>, permitted: bool, r1: int, a1: Abs, r2: int,
                          a2: Abs)
    requires WriteStep(a, fd, x, permitted, r1, a1) && WriteStep(a1, fd, y, permitted, r2, a2) && UpClosed(a.named)
    ensures r1 == -1 <==> r2 == -1
    ensures r1 == -1 ==> WriteStep(a, fd, x + y, permitted, -1, a2)
    ensures r1 == |x| ==> WriteStep(a, fd, x + y, permitted, r1 + r2, a2)
    ensures 0 <= r1 < |x| ==> WriteStep(a, fd, x + y, permitted, r1, a1) && (y != [] ==> r2 == 0)
  {
    hide Fitting, Mapping, Stored, UpClosed, LinkAll;
    if r1 != -1 {
      var f := a.fds[fd];
      var c := a.files[f.ino];
      assert a1.fds[fd] == f.(offset := f.offset + r1);
      MappingSplits(a, a1, f.ino, f.offset, |x|, |y|);
      MappingFacts(a, f.ino, f.offset, |x|);
      MappingFacts(a1, f.ino, f.offset + r1, |y|);
      if r1 == |x| {
        assert (x + y)[..r1 + r2] == x + y[..r2] && x[..r1] == x;
        StoredSplits(c, a.named, f.ino, f.offset, x, a1.files[f.ino], a1.named, y[..r2], a2.files[f.ino]);
      } else {
        assert (x + y)[..r1] == x[..r1];
        if y != [] {
          NoRoomLeft(a1, f.ino, f.offset + r1, |y|);
        }
      }
    }
  }

  /** A write that begins in a block that is not mapped stores nothing on a full disk. */
  lemma NoRoomLeft(a: Abs, i: nat, off: nat, n: nat)
    requires a.free == 0 && LocOf(i, off / BLOCK_SIZE) !in a.named && n > 0 && UpClosed(a.named)
    ensures Fitting(a, i, off, n) == 0
  {
    hide LocOf, UpClosed, Link;
    var l := LocOf(i, off / BLOCK_SIZE);
    FittingRange(a, i, off, n);
    LinkTakes(a.named, a.free, l);
    LinkNames(a.named, a.free, l);
    assert off / BLOCK_SIZE < EndBlock(off, n);
    assert !Link(a.named, 0, l).0 by {
      OnTheWay(l);
      SomethingMissing(a.named, l);
    }
  }

  lemma SomethingMissing(named: set<Loc>, l: Loc)
    requires l !in named && l in Way(l)
    ensures |Way(l) - named| > 0
  {
    assert l in Way(l) - named;
  }

  /** Two reads in a row return the bytes of one read, and leave the descriptor at the same place. */
  lemma ReadStepsCompose(a: Abs, fd: int, m: nat, n: nat, permitted: bool,
                         r1: int, b1: seq<byte>, a1: Abs, r2: int, b2: seq<byte>, a2: Abs)
    requires ReadStep(a, fd, m, permitted, r1, b1, a1) && ReadStep(a1, fd, n, permitted, r2, b2, a2)
    ensures r1 == -1 <==> r2 == -1
    ensures r1 == -1 ==> ReadStep(a, fd, m + n, permitted, -1, [], a2)
    ensures r1 != -1 ==> ReadStep(a, fd, m + n, permitted, r1 + r2, b1 + b2, a2)
  {
    hide ReadBytes;
    if r1 != -1 {
      var f := a.fds[fd];
      assert a1.fds[fd] == f.(offset := f.offset + r1);
      ReadSplits(a.files[f.ino], f.offset, m, n);
    }
  }

  // ---- root pointers ----

  lemma NamedTree(a: Abs)
    requires AbsOk(a)
    ensures UpClosed(a.named)
  {
  }

  /** What was named stays named. */
  lemma BackHas(named0: set<Loc>, named: set<Loc>, i: nat, l: Loc)
    requires l in named0 && named0 <= named && UpClosed(named0)
    ensures l in BackAt(named0, named, i)
  {
    if LocIno(l) == i {
      RootOnTheWay(l);
      NamedWay(named0, l);
    }
  }

  lemma {:induction false} RootOnTheWay(l: Loc)
    ensures Slot(LocIno(l), RootSlot(l)) in Way(l)
  {
    if l.Sub? {
      RootOnTheWay(l.parent);
    }
  }

  lemma RootOfNamed(named: set<Loc>, i: nat, lb: nat)
    requires UpClosed(named) && LocOf(i, lb) in named
    ensures Slot(i, RootSlotOf(lb)) in named
  {
    hide LocOf, RootSlotOf;
    RootOnTheWay(LocOf(i, lb));
    NamedWay(named, LocOf(i, lb));
    LocOfIno(i, lb);
    LocOfRoot(i, lb);
  }

  lemma LocOfRoot(i: nat, lb: nat)
    ensures RootSlot(LocOf(i, lb)) == RootSlotOf(lb)
  {
    var l := LocOf(i, lb);
    if lb >= DOUBLE_END {
      assert RootSlot(l) == RootSlot(l.parent) == RootSlot(l.parent.parent) == RootSlot(l.parent.parent.parent);
    } else if lb >= SINGLE_END {
      assert RootSlot(l) == RootSlot(l.parent) == RootSlot(l.parent.parent);
    }
  }

  /** What a FUSE write that succeeded put into a file is what a FUSE read returns, exactly when the file has grown
      or every nonzero byte went below a root pointer that was there before. */
  lemma FuseReadBack(a: Abs, path: Str, off: nat, data: seq<byte>, permitted: bool, st: Status, r: int, a': Abs,
                     buf: seq<byte>, a'': Abs)
    requires FuseWriteStep(a, path, off, data, permitted, st, r, a') && st == Done
    requires FuseReadStep(a', path, off, |data|, permitted, Done, buf, a'')
    ensures var i := FuseOpenCheck(a.tree, path, permitted).1;
            && i in a.files
            && (buf == data <==> || off + |data| > |a.files[i]|
                                 || forall p: nat :: off <= p < off + |data| ==>
                                      data[p - off] == 0 || Slot(i, RootSlotOf(p / BLOCK_SIZE)) in a.named)
  {
    hide Fitting, Mapping, FuseOpenCheck, BackAt, LocOf, Touched;
    var i := FuseOpenCheck(a.tree, path, permitted).1;
    var c, c' := a.files[i], a'.files[i];
    assert Fitting(a, i, off, |data|) == |data| && data[..|data|] == data;
    if off + |data| > |c| {
      forall p: nat | off <= p < off + |data|
        ensures c'[p] == data[p - off]
      {
        assert ByteAfter(c, a.named, i, off, data, p, c'[p]);
      }
      assert buf == c'[off..off + |data|];
    } else {
      forall p: nat | off <= p < off + |data|
        ensures c'[p] == data[p - off] <==> data[p - off] == 0 || Slot(i, RootSlotOf(p / BLOCK_SIZE)) in a.named
      {
        assert ByteLeft(c, a.named, i, off, data, p, c'[p]);
      }
      if |data| > 0 {
        assert buf == c'[off..off + |data|];
        assert forall p :: off <= p < off + |data| ==> buf[p - off] == c'[p];
        if buf == data {
          assert forall p :: off <= p < off + |data| ==> c'[p] == data[p - off];
        }
      }
    }
  }
}
