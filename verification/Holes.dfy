/** Which commands make holes, and which leave the map of a file as small as it can be. */
module Holes {
  import opened Bytes
  import opened Layout
  import opened Volumes
  import opened Space
  import opened Demand
  import opened Contents
  import opened Entries
  import opened Trees
  import opened Paths
  import opened FileOps
  import opened Directories
  import opened Steps
  import opened Laws
  import opened Leaks

  // ---- holes ----

  /** The files that a command leaves as they were, in their bytes and in their maps. */
  ghost predicate SameElsewhere(a: Abs, a': Abs, ino: nat) {
    forall i: nat :: i in a'.files && i != ino ==>
      && i in a.files && a'.files[i] == a.files[i] && forall l :: l in a.named && LocIno(l) == i ==> l in a'.named
  }

  lemma SolidElsewhere(a: Abs, a': Abs, ino: nat)
    requires AllSolid(a) && SameElsewhere(a, a', ino)
    ensures AllSolid(a') <==> (ino in a'.files ==> Solid(a', ino))
  {
    hide LocOf;
    forall i: nat | i in a'.files && i != ino
      ensures Solid(a', i)
    {
      assert Solid(a, i);
      forall lb: nat | lb * BLOCK_SIZE < |a'.files[i]|
        ensures LocOf(i, lb) in a'.named
      {
        LocOfIno(i, lb);
      }
    }
  }

  lemma WriteKeepsSolid(a: Abs, fd: int, data: seq<byte>, permitted: bool, r: int, a': Abs)
    requires UpClosed(a.named) && AllSolid(a) && WriteStep(a, fd, data, permitted, r, a')
    ensures AllSolid(a')
  {
    hide UpClosed, Fitting, Mapping, Stored, Solid, WriteBytes;
    if Usable(a, fd, ReadOnly, permitted) {
      var f := a.fds[fd];
      assert Solid(a, f.ino);
      DenseWriteStep(a, fd, data, permitted, r, a');
      MappingFacts(a, f.ino, f.offset, |data|);
      SolidElsewhere(a, a', f.ino);
    }
  }

  /** A FUSE write within the size of a file without holes, or right behind it, leaves no hole either, and does to the
      bytes what a write should; a refused one has written what it could over the old bytes. */
  lemma DenseFuseWrite(a: Abs, path: Str, off: nat, data: seq<byte>, permitted: bool, st: Status, r: int, a': Abs)
    requires UpClosed(a.named) && FuseWriteStep(a, path, off, data, permitted, st, r, a')
    requires FuseOpenCheck(a.tree, path, permitted).0 == Done
    requires var i := FuseOpenCheck(a.tree, path, permitted).1; i in a.files && Solid(a, i) && off <= |a.files[i]|
    ensures var i := FuseOpenCheck(a.tree, path, permitted).1;
            && i in a'.files && Solid(a', i)
            && (st == Done ==> a'.files[i] == WriteBytes(a.files[i], off, data))
            && (st != Done ==> var c := a.files[i];
                               a'.files[i] == WriteBytes(c, off, data[..Fitting(a, i, off, |data|)])[..|c|])
  {
    hide UpClosed, Fitting, Mapping, Stored, Kept, FuseOpenCheck, BackAt, WriteBytes, LocOf;
    var (_, i) := FuseOpenCheck(a.tree, path, permitted);
    var c, fit := a.files[i], Fitting(a, i, off, |data|);
    MappingFacts(a, i, off, |data|);
    WriteNeverShrinks(c, off, data[..fit]);
    if fit == |data| && off + |data| > |c| {
      SolidStored(a, i, off, data, a'.files[i]);
      assert data[..fit] == data;
      forall lb: nat | lb * BLOCK_SIZE < |a'.files[i]|
        ensures LocOf(i, lb) in a'.named
      {
      }
    } else {
      SolidLeft(a, i, off, data[..fit], a'.files[i]);
      assert fit == |data| ==> data[..fit] == data;
      forall lb: nat | lb * BLOCK_SIZE < |a'.files[i]|
        ensures LocOf(i, lb) in a'.named
      {
        BackHas(a.named, Mapping(a, i, off, |data|).1, i, LocOf(i, lb));
      }
    }
  }

  lemma SolidLeft(a: Abs, i: nat, off: nat, data: seq<byte>, c': seq<byte>)
    requires i in a.files && Solid(a, i) && off <= |a.files[i]| && Kept(a.files[i], a.named, i, off, data, c')
    requires UpClosed(a.named)
    ensures c' == WriteBytes(a.files[i], off, data)[..|a.files[i]|]
  {
    hide LocOf, Touched, UpClosed;
    var c := a.files[i];
    var w := WriteBytes(c, off, data);
    WriteNeverShrinks(c, off, data);
    forall p: nat | p < |c|
      ensures c'[p] == w[p]
    {
      assert ByteLeft(c, a.named, i, off, data, p, c'[p]);
      assert (p / BLOCK_SIZE) * BLOCK_SIZE < |c|;
      RootOfNamed(a.named, i, p / BLOCK_SIZE);
    }
  }

  /** A FUSE write to a file without holes leaves none: it is refused, or ends within the file, or every block between
      the old end and the first one written to was mapped already. */
  ghost predicate LeavesNoHole(a: Abs, i: nat, off: nat, n: nat)
    requires i in a.files
  {
    || Need(a.named, i, off / BLOCK_SIZE, EndBlock(off, n)) > a.free
    || off + n <= |a.files[i]|
    || forall lb: nat :: |a.files[i]| <= lb * BLOCK_SIZE < off + n && !Touched(lb, off, off + n) ==>
        LocOf(i, lb) in a.named
  }

  lemma {:induction false} HigherUp(l: Loc, m: Loc)
    requires m in Way(l) && m != l
    ensures Height(m) > Height(l)
  {
    if m != l.parent {
      HigherUp(l.parent, m);
    }
  }

  /** Of the data blocks, exactly those in the range are named for its sake. */
  lemma {:induction false} DataInWays(i: nat, lo: nat, hi: nat, lb: nat)
    requires i < TOTAL_INODES && hi <= TRIPLE_END && lb < TRIPLE_END
    ensures LocOf(i, lb) in Ways(i, lo, hi) <==> lo <= lb < hi
    decreases if lo < hi then hi - lo else 0
  {
    hide Way, LocOf, Height, ValidLoc, LocIno, RootSlot;
    if lo < hi {
      DataInWays(i, lo + 1, hi, lb);
      OnTheWay(LocOf(i, lo));
      LocOfIsValid(i, lo);
      LocOfIsValid(i, lb);
      if LocOf(i, lb) in Way(LocOf(i, lo)) {
        if LocOf(i, lb) != LocOf(i, lo) {
          HigherUp(LocOf(i, lo), LocOf(i, lb));
        }
        LocOfInjective(i, lb, i, lo);
      }
    }
  }

  /** A FUSE write makes a hole exactly when it does not leave none in the sense above, which depends on the state
      before it alone. */
  lemma FuseWriteSolid(a: Abs, path: Str, off: nat, data: seq<byte>, permitted: bool, st: Status, r: int, a': Abs)
    requires UpClosed(a.named) && FuseWriteStep(a, path, off, data, permitted, st, r, a') && off + |data| < WORD_LIMIT
    requires FuseOpenCheck(a.tree, path, permitted).0 == Done
    requires var i := FuseOpenCheck(a.tree, path, permitted).1; i < TOTAL_INODES && i in a.files && Solid(a, i)
    ensures var i := FuseOpenCheck(a.tree, path, permitted).1;
            i in a'.files && (Solid(a', i) <==> LeavesNoHole(a, i, off, |data|))
  {
    hide UpClosed, Fitting, Mapping, Stored, Kept, FuseOpenCheck, BackAt, LocOf, Need, Ways, Touched;
    var (_, i) := FuseOpenCheck(a.tree, path, permitted);
    var n, c := |data|, a.files[i];
    MappingFacts(a, i, off, n);
    WriteTakes(a, i, off, n);
    if Need(a.named, i, off / BLOCK_SIZE, EndBlock(off, n)) <= a.free && off + n > |c| {
      forall lb: nat | lb * BLOCK_SIZE < off + n
        ensures LocOf(i, lb) in a'.named <==> LocOf(i, lb) in a.named || Touched(lb, off, off + n)
      {
        DataInWays(i, off / BLOCK_SIZE, EndBlock(off, n), lb);
        TouchedIsInRange(off, n, lb);
      }
      StoredSize(c, a.named, i, off, data, a'.files[i]);
    } else {
      KeptSize(c, a.named, i, off, data[..Fitting(a, i, off, n)], a'.files[i]);
      forall lb: nat | lb * BLOCK_SIZE < |c|
        ensures LocOf(i, lb) in a'.named
      {
        BackHas(a.named, Mapping(a, i, off, n).1, i, LocOf(i, lb));
      }
    }
  }

  lemma TouchedIsInRange(off: nat, n: nat, lb: nat)
    requires off + n < WORD_LIMIT
    ensures Touched(lb, off, off + n) <==> off / BLOCK_SIZE <= lb < EndBlock(off, n)
    ensures EndBlock(off, n) <= TRIPLE_END
    ensures lb * BLOCK_SIZE < off + n ==> lb < TRIPLE_END
  {
  }

  lemma FuseWriteKeepsSolid(a: Abs, path: Str, off: nat, data: seq<byte>, permitted: bool, st: Status, r: int, a': Abs)
    requires AbsOk(a) && AllSolid(a) && FuseWriteStep(a, path, off, data, permitted, st, r, a')
    requires off + |data| < WORD_LIMIT
    ensures AllSolid(a') <==> var (check, i) := FuseOpenCheck(a.tree, path, permitted);
                              check == Done ==> i in a.files && LeavesNoHole(a, i, off, |data|)
  {
    hide AbsOk, UpClosed, Fitting, Mapping, Stored, Kept, FuseOpenCheck, Solid, LeavesNoHole;
    var (check, i) := FuseOpenCheck(a.tree, path, permitted);
    if check == Done {
      NamedTree(a);
      FileIsInode(a, i);
      assert Solid(a, i);
      FuseWriteSolid(a, path, off, data, permitted, st, r, a');
      MappingFacts(a, i, off, |data|);
      SolidElsewhere(a, a', i);
    }
  }

  lemma UnlinkedKeepsSolid(a: Abs, dir: nat, name: Str, i: nat, a': Abs)
    requires AllSolid(a) && dir in a.tree.ents && Unlinked(a, dir, name, i, a')
    ensures AllSolid(a')
  {
    hide RemoveNode, Solid;
    SolidElsewhere(a, a', i);
  }

  lemma MkdirKeepsSolid(a: Abs, path: Str, permitted: bool, st: Status, a': Abs)
    requires AllSolid(a) && path != [] && MkdirStep(a, path, permitted, st, a')
    ensures AllSolid(a')
  {
    hide MkdirCheck, AddNode, LocOf;
    if st == Done {
      var (check, dir, name) := MkdirCheck(a.tree, path, permitted);
      var made: nat :| MadeDir(a, dir, name, made, a');
      forall i: nat | i in a'.files
        ensures Solid(a', i)
      {
        assert Solid(a, i);
      }
    }
  }

  lemma CreateKeepsSolid(a: Abs, start: nat, path: Str, permitted: bool, r: int, a': Abs)
    requires AllSolid(a) && CreateStep(a, start, path, permitted, r, a')
    ensures AllSolid(a')
  {
    hide CreateTarget, AddNode, LocOf;
    if r != -1 {
      SolidElsewhere(a, a', r);
    }
  }

  lemma SameFilesSolid(a: Abs, a': Abs)
    requires AllSolid(a) && a'.files == a.files && a'.named == a.named
    ensures AllSolid(a')
  {
    hide LocOf;
    forall i: nat | i in a'.files
      ensures Solid(a', i)
    {
      assert Solid(a, i);
    }
  }

  /** What decides, before a command, whether it makes a hole in a file without holes. */
  ghost predicate NoNewHole(a: Abs, cmd: Cmd) {
    cmd.FuseWrite? ==>
      var (check, i) := FuseOpenCheck(a.tree, cmd.path, cmd.permitted);
      check == Done ==> i in a.files && LeavesNoHole(a, i, cmd.offset, |cmd.data|)
  }

  /** No command makes a hole, but for a FUSE write that does not leave none. */
  lemma StepKeepsSolid(a: Abs, start: nat, cmd: Cmd, ans: Answer, a': Abs)
    requires AbsOk(a) && AllSolid(a) && CmdOk(cmd) && Step(a, start, cmd, ans, a')
    ensures AllSolid(a') <==> NoNewHole(a, cmd)
  {
    hide AbsOk, WriteStep, CreateStep, MkdirStep, CreateTarget, DeleteTarget, OpenTarget, AddNode, AllSolid, Unlinked,
         ReadBytes, FuseOpenCheck, Resolve, BaseName, DirName, EmptyDir, IsOpen, Stored, Kept, Fitting, Mapping, BackAt,
         LeavesNoHole, FuseWriteStep;
    NamedTree(a);
    match cmd
    case Create(path, permitted) => CreateKeepsSolid(a, start, path, permitted, ans.code, a');
    case Write(fd, data, permitted) => WriteKeepsSolid(a, fd, data, permitted, ans.code, a');
    case Delete(path, permitted) =>
      if ans.code == 0 {
        var (dir, name, i) := DeleteTarget(a.tree, path, start).value;
        UnlinkedKeepsSolid(a, dir, name, i, a');
      }
    case Mkdir(path, permitted) => MkdirKeepsSolid(a, path, permitted, ans.status, a');
    case Rmdir(path, permitted) =>
      if ans.status == Done {
        var i, parent := Resolve(a.tree, path, ROOT_INODE).value, Resolve(a.tree, DirName(path), ROOT_INODE);
        UnlinkedKeepsSolid(a, parent.value, BaseName(path), i, a');
      }
    case FuseWrite(path, off, data, permitted) =>
      FuseWriteKeepsSolid(a, path, off, data, permitted, ans.status, ans.code, a');
    case _ => SameFilesSolid(a, a');
  }

  // ---- files whose map is as small as it can be ----

  /** File `j` and its map are as they were. */
  lemma NeatElsewhere(a: Abs, a': Abs, j: nat)
    requires j in a.files && j in a'.files && Neat(a, j) && a'.files[j] == a.files[j]
    requires forall l :: LocIno(l) == j ==> (l in a'.named <==> l in a.named)
    ensures Neat(a', j)
  {
    hide LocIno, Ways;
    assert OfInode(a'.named, j) == OfInode(a.named, j);
  }

  lemma NewIsNeat(a: Abs, r: nat, a': Abs)
    requires AbsOk(a) && r >= 2 && r !in a.tree.kind && a'.named == a.named && r in a'.files && a'.files[r] == []
    ensures Neat(a', r)
  {
    hide UpClosed, ValidLoc, HolesAreZero, TreeOk;
    assert OfInode(a'.named, r) == {};
  }

  /** All blocks up to `end` are mapped; the map of a neat file then holds what its new size needs. */
  lemma NeatNames(named: set<Loc>, i: nat, first: nat, m: nat, end: nat)
    requires OfInode(named, i) == Ways(i, 0, m) && first <= m && first <= end
    ensures OfInode(named + Ways(i, first, end), i) == Ways(i, 0, Max(m, end))
    ensures end <= m ==> named + Ways(i, first, end) == named
  {
    hide LocOf, Way, LocIno;
    forall l | l in Ways(i, first, end)
      ensures LocIno(l) == i
    {
      WaysInode(i, first, end, l);
    }
    if end >= m {
      WaysSplit(i, first, end);
      WaysSplit(i, m, end);
      WaysSplit(i, first, m);
    } else {
      WaysSplit(i, end, m);
      WaysSplit(i, first, end);
      assert Ways(i, first, end) <= OfInode(named, i);
      assert named + Ways(i, first, end) == named;
    }
  }

  lemma WriteKeepsNeat(a: Abs, fd: int, data: seq<byte>, permitted: bool, r: int, a': Abs, j: nat)
    requires UpClosed(a.named) && WriteStep(a, fd, data, permitted, r, a') && j in a.files && Neat(a, j)
    requires Usable(a, fd, ReadOnly, permitted) && a.fds[fd].ino == j ==> r == |data|
    ensures j in a'.files && Neat(a', j)
  {
    hide UpClosed, Fitting, Mapping, Stored, Need, Ways, LocIno;
    if Usable(a, fd, ReadOnly, permitted) {
      var f := a.fds[fd];
      MappingFacts(a, f.ino, f.offset, |data|);
      if f.ino != j {
        NeatElsewhere(a, a', j);
      } else {
        var first, end, m := f.offset / BLOCK_SIZE, EndBlock(f.offset, |data|), Blocks(|a.files[j]|);
        WriteTakes(a, j, f.offset, |data|);
        EndOfNeat(|a.files[j]|, f.offset, |data|);
        FittingRange(a, j, f.offset, |data|);
        NeatNames(a.named, j, first, m, end);
        StoredSize(a.files[j], a.named, j, f.offset, data[..r], a'.files[j]);
      }
    }
  }

  lemma StoredSize(c: seq<byte>, named: set<Loc>, i: nat, off: nat, data: seq<byte>, c': seq<byte>)
    requires Stored(c, named, i, off, data, c')
    ensures |c'| == Max(|c|, off + |data|)
  {
  }

  lemma FuseWriteKeepsNeat(a: Abs, path: Str, off: nat, data: seq<byte>, permitted: bool, st: Status, r: int, a': Abs,
                           j: nat)
    requires UpClosed(a.named) && FuseWriteStep(a, path, off, data, permitted, st, r, a') && j in a.files && Neat(a, j)
    requires var (check, i) := FuseOpenCheck(a.tree, path, permitted);
             check == Done && i == j ==> r == |data| && off <= |a.files[j]|
    ensures j in a'.files && Neat(a', j)
  {
    hide UpClosed, Fitting, Mapping, Stored, Kept, Need, Ways, LocIno, FuseOpenCheck, RootSlot;
    var (check, i) := FuseOpenCheck(a.tree, path, permitted);
    if check == Done {
      MappingFacts(a, i, off, |data|);
      if i != j {
        NeatElsewhere(a, a', j);
      } else {
        var first, end, m := off / BLOCK_SIZE, EndBlock(off, |data|), Blocks(|a.files[j]|);
        WriteTakes(a, j, off, |data|);
        EndOfNeat(|a.files[j]|, off, |data|);
        FittingRange(a, j, off, |data|);
        NeatNames(a.named, j, first, m, end);
        if off + |data| > |a.files[j]| {
          StoredSize(a.files[j], a.named, j, off, data, a'.files[j]);
        } else {
          BackIsSame(a.named, j);
          KeptSize(a.files[j], a.named, j, off, data[..Fitting(a, j, off, |data|)], a'.files[j]);
        }
      }
    }
  }

  lemma KeptSize(c: seq<byte>, named: set<Loc>, i: nat, off: nat, data: seq<byte>, c': seq<byte>)
    requires Kept(c, named, i, off, data, c')
    ensures |c'| == |c|
  {
  }

  lemma BackIsSame(named: set<Loc>, i: nat)
    requires UpClosed(named)
    ensures BackAt(named, named, i) == named
  {
    hide UpClosed, BackAt;
    forall l | l in named
      ensures l in BackAt(named, named, i)
    {
      BackHas(named, named, i, l);
    }
    BackIsWithin(named, i);
  }

  lemma BackIsWithin(named: set<Loc>, i: nat)
    ensures BackAt(named, named, i) <= named
  {
  }

  lemma UnlinkedKeepsNeat(a: Abs, dir: nat, name: Str, i: nat, a': Abs, j: nat)
    requires dir in a.tree.ents && Unlinked(a, dir, name, i, a') && j in a'.files && Neat(a, j)
    ensures Neat(a', j)
  {
    hide RemoveNode, LocIno;
    NeatElsewhere(a, a', j);
  }

  lemma MkdirKeepsNeat(a: Abs, path: Str, permitted: bool, st: Status, a': Abs, j: nat)
    requires AbsOk(a) && path != [] && MkdirStep(a, path, permitted, st, a') && j in a.files && Neat(a, j)
    ensures j in a'.files && Neat(a', j)
  {
    hide MkdirCheck, AddNode, AbsOk, Neat, LocIno;
    if st == Done {
      var (check, dir, name) := MkdirCheck(a.tree, path, permitted);
      if a' != a {
        var made: nat :| MadeDir(a, dir, name, made, a');
        OtherInode(a, j, made);
        NeatElsewhere(a, a', j);
      }
    }
  }

  lemma OtherInode(a: Abs, j: nat, made: nat)
    requires AbsOk(a) && j in a.files && made !in a.tree.kind
    ensures j != made && LocIno(Slot(made, 0)) == made
  {
    hide UpClosed, ValidLoc, HolesAreZero, TreeOk;
  }

  /** A command that writes to file `j` stores all its data, and begins within the file. */
  ghost predicate WholeWrite(a: Abs, cmd: Cmd, ans: Answer, j: nat) {
    match cmd
    case Write(fd, data, permitted) =>
      Usable(a, fd, ReadOnly, permitted) && a.fds[fd].ino == j ==> ans.code == |data|
    case FuseWrite(path, off, data, permitted) =>
      FuseOpenCheck(a.tree, path, permitted) == (Done, j) ==> ans.code == |data| && j in a.files && off <= |a.files[j]|
    case _ => true
  }

  /** A new file is neat, and a file stays neat whatever happens to others, and as long as writes to it are whole. */
  lemma StepKeepsNeat(a: Abs, start: nat, cmd: Cmd, ans: Answer, a': Abs, j: nat)
    requires AbsOk(a) && CmdOk(cmd) && Step(a, start, cmd, ans, a') && WholeWrite(a, cmd, ans, j)
    requires j in a'.files && (j in a.files ==> Neat(a, j))
    ensures Neat(a', j)
  {
    hide AbsOk, WriteStep, MkdirStep, CreateTarget, DeleteTarget, OpenTarget, AddNode, Neat, Unlinked,
         ReadBytes, FuseOpenCheck, Resolve, BaseName, DirName, EmptyDir, IsOpen, Stored, Kept, Fitting, Mapping, BackAt,
         LocIno;
    NamedTree(a);
    match cmd
    case Create(path, permitted) =>
      if j !in a.files {
        NewIsNeat(a, j, a');
      } else {
        NeverAgain(a, j);
        NeatElsewhere(a, a', j);
      }
    case Write(fd, data, permitted) =>
      OnlyOldFiles(a, fd, data, permitted, ans.code, a');
      WriteKeepsNeat(a, fd, data, permitted, ans.code, a', j);
    case Delete(path, permitted) =>
      if ans.code == 0 {
        var (dir, name, i) := DeleteTarget(a.tree, path, start).value;
        FilesLeft(a, dir, name, i, a');
        UnlinkedKeepsNeat(a, dir, name, i, a', j);
      }
    case Mkdir(path, permitted) =>
      MkdirKeepsFiles(a, path, permitted, ans.status, a');
      MkdirKeepsNeat(a, path, permitted, ans.status, a', j);
    case Rmdir(path, permitted) =>
      if ans.status == Done {
        var i, parent := Resolve(a.tree, path, ROOT_INODE).value, Resolve(a.tree, DirName(path), ROOT_INODE);
        FilesLeft(a, parent.value, BaseName(path), i, a');
        UnlinkedKeepsNeat(a, parent.value, BaseName(path), i, a', j);
      }
    case FuseWrite(path, off, data, permitted) =>
      FuseWriteKeepsNeat(a, path, off, data, permitted, ans.status, ans.code, a', j);
    case _ => NeatElsewhere(a, a', j);
  }

  lemma NeverAgain(a: Abs, j: nat)
    requires AbsOk(a) && j in a.files
    ensures j in a.tree.kind
  {
    hide UpClosed, ValidLoc, HolesAreZero, TreeOk;
  }

  lemma OnlyOldFiles(a: Abs, fd: int, data: seq<byte>, permitted: bool, r: int, a': Abs)
    requires WriteStep(a, fd, data, permitted, r, a')
    ensures a'.files.Keys == a.files.Keys
  {
    hide Fitting, Mapping, Stored;
  }

  lemma FilesLeft(a: Abs, dir: nat, name: Str, i: nat, a': Abs)
    requires dir in a.tree.ents && Unlinked(a, dir, name, i, a')
    ensures a'.files.Keys <= a.files.Keys
  {
    hide RemoveNode, OfInode;
  }

  lemma MkdirKeepsFiles(a: Abs, path: Str, permitted: bool, st: Status, a': Abs)
    requires path != [] && MkdirStep(a, path, permitted, st, a')
    ensures a'.files == a.files
  {
    hide MkdirCheck, AddNode;
  }

  /** From a state in which a file is neat, as long as it exists and all writes to it are whole, it stays neat. */
  lemma {:induction false} HistoryKeepsNeat(trace: seq<Abs>, start: nat, cmds: seq<Cmd>, answers: seq<Answer>,
                                           m: nat, n: nat, j: nat)
    requires History(trace, start, cmds, answers) && forall k :: 0 <= k < |trace| ==> AbsOk(trace[k])
    requires m <= n <= |cmds| && forall k :: m <= k <= n ==> j in trace[k].files
    requires Neat(trace[m], j) && forall k :: m <= k < n ==> WholeWrite(trace[k], cmds[k], answers[k], j)
    ensures Neat(trace[n], j)
  {
    hide AbsOk, CmdOk, Step, Neat, WholeWrite;
    if m < n {
      HistoryKeepsNeat(trace, start, cmds, answers, m, n - 1, j);
      StepKeepsNeat(trace[n - 1], start, cmds[n - 1], answers[n - 1], trace[n], j);
    }
  }
}
