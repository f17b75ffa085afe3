/** Which commands lose blocks: none but a FUSE write, and that exactly when it links a block below a new root
    pointer that it then drops. */
module Leaks {
  import opened Bytes
  import opened Layout
  import opened Volumes
  import opened Space
  import opened Demand
  import opened Contents
  import opened Entries
  import opened Trees
  import opened Paths
  import opened FileOps
  import opened Directories
  import opened Steps
  import opened Laws

  // ---- nothing leaks, no holes appear ----

  lemma OfInodeCount(named: set<Loc>, i: nat)
    ensures |named - OfInode(named, i)| + |OfInode(named, i)| == |named|
  {
    assert named == (named - OfInode(named, i)) + OfInode(named, i);
  }

  lemma NewSlot(a: Abs, made: nat)
    requires AbsOk(a) && made !in a.tree.kind && made != 0
    ensures |a.named + {Slot(made, 0)}| == |a.named| + 1
  {
    hide UpClosed, ValidLoc, HolesAreZero;
    assert LocIno(Slot(made, 0)) == made;
    AddOne(a.named + {Slot(made, 0)}, a.named, Slot(made, 0));
  }

  lemma Fewer(s: set<Loc>, t: set<Loc>)
    requires s <= t
    ensures |s| <= |t|
  {
    assert t == s + (t - s);
  }

  lemma WriteConserves(a: Abs, fd: int, data: seq<byte>, permitted: bool, r: int, a': Abs)
    requires UpClosed(a.named) && WriteStep(a, fd, data, permitted, r, a')
    ensures a'.free + |a'.named| == a.free + |a.named|
  {
    hide UpClosed, Fitting, Mapping, Stored;
    if Usable(a, fd, ReadOnly, permitted) {
      MappingFacts(a, a.fds[fd].ino, a.fds[fd].offset, |data|);
    }
  }

  lemma UnlinkedConserves(a: Abs, dir: nat, name: Str, i: nat, a': Abs)
    requires dir in a.tree.ents && Unlinked(a, dir, name, i, a')
    ensures a'.free + |a'.named| == a.free + |a.named|
  {
    hide OfInode, RemoveNode;
    OfInodeCount(a.named, i);
  }

  lemma DeleteConserves(a: Abs, start: nat, path: Str, permitted: bool, r: int, a': Abs)
    requires DeleteStep(a, start, path, permitted, r, a')
    ensures a'.free + |a'.named| == a.free + |a.named|
  {
    hide Unlinked, DeleteTarget, IsOpen;
    if r == 0 {
      var (dir, name, i) := DeleteTarget(a.tree, path, start).value;
      UnlinkedConserves(a, dir, name, i, a');
    }
  }

  lemma MkdirConserves(a: Abs, path: Str, permitted: bool, st: Status, a': Abs)
    requires AbsOk(a) && path != [] && MkdirStep(a, path, permitted, st, a')
    ensures a'.free + |a'.named| == a.free + |a.named|
  {
    hide AbsOk, MkdirCheck, AddNode;
    if st == Done {
      var (check, dir, name) := MkdirCheck(a.tree, path, permitted);
      var made: nat :| MadeDir(a, dir, name, made, a');
      NewSlot(a, made);
    }
  }

  lemma RmdirConserves(a: Abs, path: Str, permitted: bool, st: Status, a': Abs)
    requires KernelPath(path) && RmdirStep(a, path, permitted, st, a')
    ensures a'.free + |a'.named| == a.free + |a.named|
  {
    hide Unlinked, Resolve, BaseName, DirName, EmptyDir;
    if st == Done {
      var i, parent := Resolve(a.tree, path, ROOT_INODE).value, Resolve(a.tree, DirName(path), ROOT_INODE);
      UnlinkedConserves(a, parent.value, BaseName(path), i, a');
    }
  }

  // ---- what a FUSE write loses ----

  /** A FUSE write of `n` bytes at `off` loses no block: it grows the file with room for all of it, or each block
      that hangs below an empty root pointer comes too late, when nothing is left to link. */
  ghost predicate LosesNothing(a: Abs, i: nat, off: nat, n: nat)
    requires i in a.files
  {
    var first, end := off / BLOCK_SIZE, EndBlock(off, n);
    || (Need(a.named, i, first, end) <= a.free && off + n > |a.files[i]|)
    || forall lb: nat :: first <= lb < end && Slot(i, RootSlotOf(lb)) !in a.named ==>
        a.free <= Need(a.named, i, first, lb)
  }

  /** An empty root pointer gets linked exactly when something is left at the first block that hangs below it. */
  lemma {:induction false} RootLinked(named: set<Loc>, free: nat, i: nat, lo: nat, hi: nat, s: nat)
    requires UpClosed(named) && Slot(i, s) !in named && lo <= hi
    ensures Slot(i, s) in LinkAll(named, free, i, lo, hi).1
            <==> exists lb: nat :: lo <= lb < hi && RootSlotOf(lb) == s && Need(named, i, lo, lb) < free
    decreases hi - lo
  {
    hide Way, LocOf, Link, UpClosed, Need, RootSlotOf;
    if lo < hi {
      var w := Way(LocOf(i, lo));
      LinkTakes(named, free, LocOf(i, lo));
      RootOfWay(i, lo, s);
      NeedNothing(named, i, lo);
      var (ok, named1, free1) := Link(named, free, LocOf(i, lo));
      LinkAllTakes(named, free, i, lo, hi);
      if RootSlotOf(lo) == s {
        if free == 0 {
          NothingLinked(named, i, lo, hi);
        } else {
          FirstOnTheWay(named, free, i, lo, s);
          if ok {
            LinkAllTakes(named1, free1, i, lo + 1, hi);
          }
        }
      } else {
        forall lb: nat | lo < lb < hi
          ensures Need(named, i, lo, lb) == |w - named| + Need(named + w, i, lo + 1, lb)
        {
          NeedStep(named, i, lo, lb);
        }
        if ok {
          RootLinked(named1, free1, i, lo + 1, hi, s);
        }
      }
    }
  }

  lemma RootOfWay(i: nat, lb: nat, s: nat)
    ensures Slot(i, s) in Way(LocOf(i, lb)) <==> RootSlotOf(lb) == s
  {
    hide LocOf, RootSlotOf;
    LocOfIno(i, lb);
    LocOfRoot(i, lb);
    RootOnTheWay(LocOf(i, lb));
    OneRoot(LocOf(i, lb), Slot(i, s));
  }

  /** Only one root pointer is on a way. */
  lemma {:induction false} OneRoot(l: Loc, r: Loc)
    requires r.Slot?
    ensures r in Way(l) ==> r == Slot(LocIno(l), RootSlot(l))
  {
    if l.Sub? {
      OneRoot(l.parent, r);
    }
  }

  /** The root pointer is the first location on the way to be linked. */
  lemma FirstOnTheWay(named: set<Loc>, free: nat, i: nat, lb: nat, s: nat)
    requires UpClosed(named) && Slot(i, s) !in named && RootSlotOf(lb) == s && free > 0
    ensures Slot(i, s) in Link(named, free, LocOf(i, lb)).1
  {
    hide LocOf, RootSlotOf, Link;
    LocOfIno(i, lb);
    LocOfRoot(i, lb);
    RootFirst(named, free, LocOf(i, lb));
  }

  lemma {:induction false} RootFirst(named: set<Loc>, free: nat, l: Loc)
    requires UpClosed(named) && Slot(LocIno(l), RootSlot(l)) !in named && free > 0
    ensures Slot(LocIno(l), RootSlot(l)) in Link(named, free, l).1
  {
    if l in named {
      RootOnTheWay(l);
      NamedWay(named, l);
    } else if l.Sub? {
      RootFirst(named, free, l.parent);
    }
  }

  lemma NothingLinked(named: set<Loc>, i: nat, lo: nat, hi: nat)
    requires UpClosed(named) && lo <= hi
    ensures LinkAll(named, 0, i, lo, hi).1 == named
  {
    hide LinkAll, UpClosed, Need, Ways;
    LinkAllTakes(named, 0, i, lo, hi);
    var named' := LinkAll(named, 0, i, lo, hi).1;
    Same(named, named');
  }

  lemma Same(s: set<Loc>, t: set<Loc>)
    requires s <= t && |t| <= |s|
    ensures s == t
  {
    assert t == s + (t - s);
  }

  /** Nothing of the map is lost exactly when no new root pointer was linked. */
  lemma BackIsAll(named0: set<Loc>, named: set<Loc>, i: nat)
    requires UpClosed(named) && named0 <= named && forall l :: l in named ==> ValidLoc(l)
    ensures |BackAt(named0, named, i)| <= |named|
    ensures |BackAt(named0, named, i)| == |named|
            <==> forall s: nat :: s < ROOT_SLOTS && Slot(i, s) in named ==> Slot(i, s) in named0
  {
    hide UpClosed, ValidLoc, LocIno, RootSlot;
    var back := BackAt(named0, named, i);
    Fewer(back, named);
    if |back| == |named| {
      Same(back, named);
      forall s: nat | s < ROOT_SLOTS && Slot(i, s) in named
        ensures Slot(i, s) in named0
      {
        SlotIsItsRoot(i, s);
        assert Slot(i, s) in back;
      }
    }
    if forall s: nat :: s < ROOT_SLOTS && Slot(i, s) in named ==> Slot(i, s) in named0 {
      forall l | l in named
        ensures l in back
      {
        RootInRange(l);
        RootOnTheWay(l);
        NamedWay(named, l);
      }
      assert back == named;
    }
  }

  lemma SlotIsItsRoot(i: nat, s: nat)
    ensures LocIno(Slot(i, s)) == i && RootSlot(Slot(i, s)) == s
  {
  }

  lemma {:induction false} RootInRange(l: Loc)
    requires ValidLoc(l)
    ensures RootSlot(l) < ROOT_SLOTS
  {
    if l.Sub? {
      RootInRange(l.parent);
    }
  }

  lemma StillValid(a: Abs, i: nat, off: nat, n: nat)
    requires UpClosed(a.named) && (forall l :: l in a.named ==> ValidLoc(l)) && i < TOTAL_INODES
    requires EndBlock(off, n) <= TRIPLE_END
    ensures forall l :: l in Mapping(a, i, off, n).1 ==> ValidLoc(l)
  {
    hide LinkAll, UpClosed, LocOf, ValidLoc;
    LinkAllTakes(a.named, a.free, i, off / BLOCK_SIZE, EndBlock(off, n));
    forall l | l in Ways(i, off / BLOCK_SIZE, EndBlock(off, n))
      ensures ValidLoc(l)
    {
      WaysValid(i, off / BLOCK_SIZE, EndBlock(off, n), l);
    }
  }

  lemma {:induction false} WaysValid(i: nat, lo: nat, hi: nat, l: Loc)
    requires l in Ways(i, lo, hi) && i < TOTAL_INODES && hi <= TRIPLE_END
    ensures ValidLoc(l)
    decreases if lo < hi then hi - lo else 0
  {
    hide Way, LocOf, ValidLoc, Height, LocIno, RootSlot;
    if l in Way(LocOf(i, lo)) {
      LocOfIsValid(i, lo);
      WayValid(LocOf(i, lo), l);
    } else {
      WaysValid(i, lo + 1, hi, l);
    }
  }

  lemma {:induction false} WayValid(l: Loc, m: Loc)
    requires ValidLoc(l) && m in Way(l)
    ensures ValidLoc(m)
  {
    if l.Sub? && m != l {
      WayValid(l.parent, m);
    }
  }

  /** A FUSE write can only lower the number of blocks that are free or named, and keeps it exactly when it loses
      nothing in the sense above, which depends on the state before it alone. */
  lemma FuseWriteLoses(a: Abs, path: Str, off: nat, data: seq<byte>, permitted: bool, st: Status, r: int, a': Abs)
    requires AbsOk(a) && FuseWriteStep(a, path, off, data, permitted, st, r, a') && off + |data| < WORD_LIMIT
    ensures a'.free + |a'.named| <= a.free + |a.named|
    ensures a'.free + |a'.named| == a.free + |a.named|
            <==> var (check, i) := FuseOpenCheck(a.tree, path, permitted);
                 check == Done ==> i in a.files && LosesNothing(a, i, off, |data|)
  {
    hide AbsOk, UpClosed, Fitting, Mapping, Stored, Kept, FuseOpenCheck, BackAt, Need, RootSlotOf;
    var (check, i) := FuseOpenCheck(a.tree, path, permitted);
    if check == Done {
      NamedTree(a);
      FileIsInode(a, i);
      MappingFacts(a, i, off, |data|);
      WriteTakes(a, i, off, |data|);
      var named := Mapping(a, i, off, |data|).1;
      var first, end := off / BLOCK_SIZE, EndBlock(off, |data|);
      assert end <= TRIPLE_END;
      StillValid(a, i, off, |data|);
      BackIsAll(a.named, named, i);
      NoNewRoot(a, i, off, |data|);
    }
  }

  lemma FileIsInode(a: Abs, i: nat)
    requires AbsOk(a) && i in a.files
    ensures 1 <= i < TOTAL_INODES && forall l :: l in a.named ==> ValidLoc(l)
  {
    hide UpClosed, ValidLoc, HolesAreZero, LinksOk, DirsOk, DepthOk;
  }

  lemma NoNewRoot(a: Abs, i: nat, off: nat, n: nat)
    requires UpClosed(a.named) && EndBlock(off, n) <= TRIPLE_END
    ensures (forall s: nat :: s < ROOT_SLOTS && Slot(i, s) in Mapping(a, i, off, n).1 ==> Slot(i, s) in a.named)
            <==> forall lb: nat :: off / BLOCK_SIZE <= lb < EndBlock(off, n) && Slot(i, RootSlotOf(lb)) !in a.named ==>
                   a.free <= Need(a.named, i, off / BLOCK_SIZE, lb)
  {
    hide LinkAll, UpClosed, Need;
    var first, end := off / BLOCK_SIZE, EndBlock(off, n);
    FittingRange(a, i, off, n);
    forall s: nat | s < ROOT_SLOTS && Slot(i, s) !in a.named
      ensures Slot(i, s) in Mapping(a, i, off, n).1
              <==> exists lb: nat :: first <= lb < end && RootSlotOf(lb) == s && Need(a.named, i, first, lb) < a.free
    {
      RootLinked(a.named, a.free, i, first, end, s);
    }
  }

  // ---- all commands ----

  /** What decides, before a command, whether it loses blocks. */
  ghost predicate Conserving(a: Abs, cmd: Cmd) {
    cmd.FuseWrite? ==>
      var (check, i) := FuseOpenCheck(a.tree, cmd.path, cmd.permitted);
      check == Done ==> i in a.files && LosesNothing(a, i, cmd.offset, |cmd.data|)
  }

  /** No command makes blocks; each moves them between the free ones and the named ones and loses none, but for a
      FUSE write that does not lose nothing. */
  lemma StepConserves(a: Abs, start: nat, cmd: Cmd, ans: Answer, a': Abs)
    requires AbsOk(a) && CmdOk(cmd) && Step(a, start, cmd, ans, a')
    ensures a'.free + |a'.named| <= a.free + |a.named|
    ensures a'.free + |a'.named| == a.free + |a.named| <==> Conserving(a, cmd)
    ensures LeakFree(a') <==> LeakFree(a) && Conserving(a, cmd)
  {
    hide AbsOk, Conserving, LeakFree;
    StepMoves(a, start, cmd, ans, a');
    AtMostAll(a);
    Balanced(a);
    Balanced(a');
  }

  lemma Balanced(a: Abs)
    ensures LeakFree(a) <==> a.free + |a.named| == TOTAL_BLOCKS - FIRST_DATA_BLOCK
  {
  }

  lemma StepMoves(a: Abs, start: nat, cmd: Cmd, ans: Answer, a': Abs)
    requires AbsOk(a) && CmdOk(cmd) && Step(a, start, cmd, ans, a')
    ensures a'.free + |a'.named| <= a.free + |a.named|
    ensures a'.free + |a'.named| == a.free + |a.named| <==> Conserving(a, cmd)
  {
    hide AbsOk, WriteStep, DeleteStep, MkdirStep, RmdirStep, FuseWriteStep, CreateTarget, OpenTarget, AddNode,
         ReadBytes, FuseOpenCheck, LosesNothing;
    NamedTree(a);
    match cmd
    case Write(fd, data, permitted) => WriteConserves(a, fd, data, permitted, ans.code, a');
    case Delete(path, permitted) => DeleteConserves(a, start, path, permitted, ans.code, a');
    case Mkdir(path, permitted) => MkdirConserves(a, path, permitted, ans.status, a');
    case Rmdir(path, permitted) => RmdirConserves(a, path, permitted, ans.status, a');
    case FuseWrite(path, off, data, permitted) =>
      FuseWriteLoses(a, path, off, data, permitted, ans.status, ans.code, a');
    case _ =>
  }

  /** A run has leaked nothing exactly when it started without a leak and every command so far lost nothing. */
  lemma {:induction false} HistoryConserves(trace: seq<Abs>, start: nat, cmds: seq<Cmd>, answers: seq<Answer>, n: nat)
    requires History(trace, start, cmds, answers) && forall k :: 0 <= k < |trace| ==> AbsOk(trace[k])
    requires n <= |cmds|
    ensures LeakFree(trace[n]) <==> LeakFree(trace[0]) && forall k :: 0 <= k < n ==> Conserving(trace[k], cmds[k])
  {
    hide AbsOk, CmdOk, Step, Conserving, LeakFree;
    if n > 0 {
      HistoryConserves(trace, start, cmds, answers, n - 1);
      StepConserves(trace[n - 1], start, cmds[n - 1], answers[n - 1], trace[n]);
    }
  }

  lemma AtMostAll(a: Abs)
    requires AbsOk(a)
    ensures a.free + |a.named| <= TOTAL_BLOCKS - FIRST_DATA_BLOCK
  {
  }
}
