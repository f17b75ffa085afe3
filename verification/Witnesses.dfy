/** Concrete runs from a fresh format that meet the two ways in which a FUSE write is not what it should be. */
module Witnesses {
  import opened Bytes
  import opened Layout
  import opened BlockMap
  import opened Volumes
  import opened Space
  import opened ReleaseBlocks
  import opened Contents
  import opened Invariants
  import opened Entries
  import opened Directory
  import opened Trees
  import opened Paths
  import opened Filesystem
  import opened FileIo
  import opened FileOps
  import opened Directories
  import opened Demand
  import opened Steps
  import opened Laws
  import opened Leaks
  import opened Runs
  import opened Lifecycle
  import Mkfs

  /** A path of one letter in the root directory. */
  function Path(c: byte): Str
    requires c != 0
  {
    [SLASH, c]
  }

  lemma RootTarget(tr: Tree, home: nat, c: byte)
    requires Mkfs.HomesMade(tr, home, |Mkfs.USERS|) && c != 0 && c != SLASH && c != 46
    ensures CreateTarget(tr, Path(c), ROOT_INODE) == Some((ROOT_INODE, [c]))
    ensures |Path(c)| < MAX_CMD_LEN && |BaseName(Path(c))| <= 27
  {
    hide Lookup;
    var p, name: Str := Path(c), [c];
    assert p[..1] == [SLASH] && p[1..] == name;
    assert LastSlash(p[..1]) == 0 && LastSlash(p) == 0;
    assert SplitPath(p) == Some(([SLASH], name));
    var root: Str := [SLASH];
    assert root[1..] == [];
    assert Tokens(root) == Tokens(root[1..]) == [];
    assert Resolve(tr, root, ROOT_INODE) == Some(ROOT_INODE);
    assert name !in [DOT, DOTDOT, Mkfs.HOME];
  }

  // ---- a byte written into a hole ----

  /** A file just created through a path opens through it. */
  lemma CreatedOpens(a: Abs, path: Str, r: int, a': Abs)
    requires AbsOk(a) && CreateStep(a, ROOT_INODE, path, true, r, a') && r != -1
    requires |path| < MAX_CMD_LEN && |BaseName(path)| <= 27
    ensures FuseOpenCheck(a'.tree, path, true) == (Done, r) && OfInode(a'.named, r) == {}
    ensures a'.files == a.files[r := []]
    ensures a'.named == a.named && a'.free == a.free
  {
    hide UpClosed, ValidLoc, HolesAreZero, TreeOk, CreateTarget, BaseName, DeleteTarget, RemoveNode, Resolve;
    var link, depth :| TreeOk(a.tree, link, depth);
    CreatedIsFound(a.tree, link, depth, path, ROOT_INODE, r);
    NoEntsOf(a.tree, link, depth, CreateTarget(a.tree, path, ROOT_INODE).value.0,
             CreateTarget(a.tree, path, ROOT_INODE).value.1, r);
    assert forall l :: l in a.named ==> LocIno(l) == 0 || LocIno(l) in a.tree.kind;
  }

  lemma NoEntsOf(tr: Tree, link: Links, depth: Depths, d: nat, name: Str, r: nat)
    requires TreeOk(tr, link, depth) && d in tr.ents && r !in tr.kind
    ensures r !in AddNode(tr, d, name, r, File).ents
  {
    hide LinksOk, DirsOk, DepthOk, Added;
  }

  lemma OneBlockWay(named: set<Loc>, i: nat, lb: nat)
    requires lb < DIRECT
    ensures Ways(i, lb, lb + 1) == {Slot(i, lb)} && Need(named, i, lb, lb + 1) <= 1
    ensures Slot(i, lb) !in named ==> Need(named, i, lb, lb + 1) == 1
  {
    assert Way(LocOf(i, lb)) == {Slot(i, lb)};
    assert Ways(i, lb, lb + 1) == Way(LocOf(i, lb)) + Ways(i, lb + 1, lb + 1);
    if Slot(i, lb) in named {
      assert Ways(i, lb, lb + 1) - named == {};
    } else {
      assert Ways(i, lb, lb + 1) - named == {Slot(i, lb)};
    }
  }

  /** Writing one byte in a direct block while there is room. */
  lemma OneByte(a: Abs, i: nat, off: nat)
    requires AbsOk(a) && off / BLOCK_SIZE < DIRECT && a.free > 0
    ensures Fitting(a, i, off, 1) == 1 && Mapping(a, i, off, 1).1 == a.named + {Slot(i, off / BLOCK_SIZE)}
    ensures Mapping(a, i, off, 1).2 >= a.free - 1
  {
    hide UpClosed, Need, Ways, Fitting, Mapping;
    NamedTree(a);
    OneBlockWay(a.named, i, off / BLOCK_SIZE);
    assert EndBlock(off, 1) == off / BLOCK_SIZE + 1;
    WriteTakes(a, i, off, 1);
  }

  /** The first two FUSE writes to a new file: behind a hole, and then into it. */
  lemma WrittenInHole(a: Abs, path: Str, i: nat, b: byte, st1: Status, r1: int, a1: Abs, st2: Status, r2: int, a2: Abs)
    requires AbsOk(a) && AbsOk(a1) && a.free > 1 && OfInode(a.named, i) == {}
    requires FuseOpenCheck(a.tree, path, true) == (Done, i) && i in a.files && a.files[i] == []
    requires FuseWriteStep(a, path, 2 * BLOCK_SIZE, [1], true, st1, r1, a1)
    requires FuseWriteStep(a1, path, 0, [b], true, st2, r2, a2)
    ensures st1 == st2 == Done && r1 == r2 == 1 && a2.tree == a.tree
    ensures i in a2.files && |a2.files[i]| == 2 * BLOCK_SIZE + 1 && a2.files[i][0] == 0
    ensures Solid(a, i) && i in a1.files && |a1.files[i]| == 2 * BLOCK_SIZE + 1 && Slot(i, 0) !in a1.named
  {
    hide AbsOk, Fitting, Mapping, FuseOpenCheck, BackAt, Touched, LocOf;
    OneByte(a, i, 2 * BLOCK_SIZE);
    OneByte(a1, i, 0);
    var one: seq<byte>, two: seq<byte> := [1], [b];
    assert Slot(i, 0) !in a.named by {
      assert LocIno(Slot(i, 0)) == i;
      assert Slot(i, 0) !in OfInode(a.named, i);
    }
    assert Slot(i, 0) !in a1.named;
    assert two[..1] == two;
    assert ByteLeft(a1.files[i], a1.named, i, 0, two, 0, a2.files[i][0]);
  }

  /** The first of the two makes a hole and loses no block, the second loses one. */
  lemma HoleAndLeak(a: Abs, path: Str, i: nat, b: byte, a1: Abs)
    requires UpClosed(a.named) && a.free > 1 && a1.free > 0
    requires FuseOpenCheck(a.tree, path, true) == FuseOpenCheck(a1.tree, path, true) == (Done, i)
    requires i in a.files && a.files[i] == [] && i in a1.files && |a1.files[i]| == 2 * BLOCK_SIZE + 1
    requires Slot(i, 0) !in a1.named
    ensures Conserving(a, FuseWrite(path, 2 * BLOCK_SIZE, [1], true))
    ensures !Conserving(a1, FuseWrite(path, 0, [b], true))
    ensures !Solid(a1, i)
  {
    hide UpClosed, Need, FuseOpenCheck;
    OneBlockWay(a.named, i, 2);
    assert EndBlock(2 * BLOCK_SIZE, 1) == 3;
    assert EndBlock(0, 1) == 1 && Slot(i, RootSlotOf(0)) !in a1.named;
    NeedNothing(a1.named, i, 0);
    FirstLoc(i);
    assert LocOf(i, 0) !in a1.named;
  }

  ghost predicate Hop(a: Abs, cmd: Cmd, ans: Answer, a': Abs) {
    CmdOk(cmd) && Step(a, ROOT_INODE, cmd, ans, a')
  }

  /** After formatting, creating a file, writing one byte at 8192 and then a byte at 0, both with success, reading
      at 0 returns 0. The first write has made a hole; the second has leaked a block. */
  method ByteIsLost(v: Volume, c: byte, b: byte) returns (answers: seq<Answer>, ghost trace: seq<Abs>, ghost i: nat)
    requires FdsOk(v.fds[..], [], []) && c != 0 && c != SLASH && c != 46
    modifies v, v.fds
    ensures |answers| == 4 && answers[0].code != -1
    ensures answers[1].status == Done && answers[1].code == 1 && answers[2].status == Done && answers[2].code == 1
    ensures answers[3].status == Done && answers[3].data == [0]
    ensures |trace| == 5 && i in trace[1].files && i in trace[2].files && Solid(trace[1], i) && !Solid(trace[2], i)
    ensures LeakFree(trace[2]) && !LeakFree(trace[3])
            && trace[3].free + |trace[3].named| < trace[2].free + |trace[2].named|
  {
    hide Mkfs.HomesMade, FdsOk, CmdOk, Ready, AbsOk, Step, LeakFree, Solid, Conserving;
    var cmds := [Create(Path(c), true), FuseWrite(Path(c), 2 * BLOCK_SIZE, [1], true),
                 FuseWrite(Path(c), 0, [b], true), FuseRead(Path(c), 0, 1, true)];
    CommandsAreOk(c, b);
    ghost var home;
    answers, trace, home := RunFromFormat(v, cmds);
    assert forall k :: 0 <= k < |cmds| ==> Hop(trace[k], cmds[k], answers[k], trace[k + 1]);
    LostByte(trace[0], trace[1], trace[2], trace[3], trace[4], home, c, b, answers[0], answers[1], answers[2],
             answers[3]);
    i := answers[0].code;
  }

  lemma CommandsAreOk(c: byte, b: byte)
    requires c != 0
    ensures CmdOk(Create(Path(c), true)) && CmdOk(FuseWrite(Path(c), 2 * BLOCK_SIZE, [1], true))
    ensures CmdOk(FuseWrite(Path(c), 0, [b], true)) && CmdOk(FuseRead(Path(c), 0, 1, true))
  {
  }

  lemma LostByte(a0: Abs, a1: Abs, a2: Abs, a3: Abs, a4: Abs, home: nat, c: byte, b: byte,
                 ans0: Answer, ans1: Answer, ans2: Answer, ans3: Answer)
    requires c != 0 && c != SLASH && c != 46 && Mkfs.HomesMade(a0.tree, home, |Mkfs.USERS|)
    requires AbsOk(a0) && AbsOk(a1) && AbsOk(a2) && a0.free > 1
    requires exists i :: 1 <= i < TOTAL_INODES && i !in a0.tree.kind
    requires Hop(a0, Create(Path(c), true), ans0, a1)
    requires Hop(a1, FuseWrite(Path(c), 2 * BLOCK_SIZE, [1], true), ans1, a2)
    requires Hop(a2, FuseWrite(Path(c), 0, [b], true), ans2, a3)
    requires Hop(a3, FuseRead(Path(c), 0, 1, true), ans3, a4)
    ensures ans0.code != -1 && ans1.status == ans2.status == ans3.status == Done && ans1.code == ans2.code == 1
    ensures ans3.data == [0]
    ensures var i := ans0.code; 0 <= i && i in a1.files && i in a2.files && Solid(a1, i) && !Solid(a2, i)
    ensures LeakFree(a0) ==> LeakFree(a2) && !LeakFree(a3)
    ensures a3.free + |a3.named| < a2.free + |a2.named|
  {
    hide Mkfs.HomesMade, AbsOk, FuseWriteStep, FuseOpenCheck, CreateTarget, AddNode, BaseName, OfInode, LeakFree, Solid,
         Conserving;
    RootTarget(a0.tree, home, c);
    CreatedOpens(a0, Path(c), ans0.code, a1);
    WrittenInHole(a1, Path(c), ans0.code, b, ans1.status, ans1.code, a2, ans2.status, ans2.code, a3);
    assert a3.files[ans0.code][0..1] == [0];
    NamedTree(a1);
    StillRoom(a1, Path(c), ans0.code, ans1.status, ans1.code, a2);
    HoleAndLeak(a1, Path(c), ans0.code, b, a2);
    CreateConserves(a0, Path(c));
    StepConserves(a0, ROOT_INODE, Create(Path(c), true), ans0, a1);
    StepConserves(a1, ROOT_INODE, FuseWrite(Path(c), 2 * BLOCK_SIZE, [1], true), ans1, a2);
    StepConserves(a2, ROOT_INODE, FuseWrite(Path(c), 0, [b], true), ans2, a3);
  }

  lemma StillRoom(a: Abs, path: Str, i: nat, st: Status, r: int, a1: Abs)
    requires AbsOk(a) && a.free > 1 && FuseOpenCheck(a.tree, path, true) == (Done, i) && i in a.files
    requires a.files[i] == []
    requires FuseWriteStep(a, path, 2 * BLOCK_SIZE, [1], true, st, r, a1)
    ensures a1.free > 0 && a1.tree == a.tree
  {
    hide AbsOk, Fitting, Mapping, FuseOpenCheck, BackAt, Stored, Kept;
    OneByte(a, i, 2 * BLOCK_SIZE);
  }

  lemma CreateConserves(a: Abs, path: Str)
    ensures Conserving(a, Create(path, true))
  {
  }

  // ---- a byte of a deleted file ----

  /** A new file `i` took the least free block for `data` at `off`, and its content `c` shows what is in the block. */
  ghost predicate TookBlock(d0: Disk, bm0: seq<bool>, owner0: Owners, d: Disk, bm: seq<bool>, owner: Owners,
                            i: nat, off: nat, data: seq<byte>, c: seq<byte>) {
    var b := Least(bm0);
    && b < |bm0| && bm == bm0[b := true] && owner == owner0[b := Slot(i, 0)]
    && b < |d0| == |d| && |c| == off + |data| <= BLOCK_SIZE
    && forall k: nat :: k < |c| ==> c[k] == d[b][k] == if k < off then d0[b][k] else data[k - off]
  }

  lemma FreshFileWrite(d0: Disk, t0: Table, bm0: seq<bool>, owner0: Owners,
                       d: Disk, t: Table, bm: seq<bool>, owner: Owners, i: nat, off: nat, data: seq<byte>, r: int,
                       stored: nat)
    requires Own(d0, t0, bm0, owner0) && Own(d, t, bm, owner) && i < |t0| == |t| == TOTAL_INODES
    requires t0[i].size == 0 && Slot(i, 0) !in owner0.Values && Least(bm0) < |bm0|
    requires 0 < |data| && off + |data| <= BLOCK_SIZE
    requires InodeWritten(d0, t0, bm0, owner0, d, t, bm, owner, i, off, data, r, stored)
    ensures r == |data| && TookBlock(d0, bm0, owner0, d, bm, owner, i, off, data, Content(d, t, i))
  {
    hide Own, OthersSame, MapGrown, MapKept, PlacesKept, BytesKept, Rooted, At, Least;
    var b := Least(bm0);
    FirstLoc(i);
    assert off / BLOCK_SIZE == 0 && EndBlock(off, |data|) == 1;
    assert Place(owner0, bm0, Slot(i, 0)) == (true, owner0[b := Slot(i, 0)], bm0[b := true]);
    OneBlockPlaced(owner0, bm0, i);
    OwnSizes(d0, t0, bm0, owner0);
    OwnSizes(d, t, bm, owner);
    OwnedAt(d, t, bm, owner, b);
    forall k: nat | k < off + |data|
      ensures ByteAt(d, t, i, k) == d[b][k] == if k < off then d0[b][k] else data[k - off]
    {
      assert k / BLOCK_SIZE == 0 && k % BLOCK_SIZE == k;
      assert ByteAt(d, t, i, k) == if off <= k < off + |data| then data[k - off] else Beneath(d0, d, t, i, k);
    }
  }

  lemma OneBlockPlaced(owner: Owners, bm: seq<bool>, i: nat)
    ensures var (ok, owner', bm') := Place(owner, bm, Slot(i, 0));
            PlaceAll(owner, bm, i, 0, 1) == (if ok then 1 else 0, owner', bm')
  {
    hide Place;
    FirstLoc(i);
    var (ok, owner', bm') := Place(owner, bm, Slot(i, 0));
    assert PlaceAll(owner', bm', i, 1, 1) == (1, owner', bm');
  }

  lemma OwnedAt(d: Disk, t: Table, bm: seq<bool>, owner: Owners, b: nat)
    requires Own(d, t, bm, owner) && b in owner
    ensures At(d, t, owner[b]) == b && FIRST_DATA_BLOCK <= b < TOTAL_BLOCKS
  {
    hide At, ValidLoc;
  }

  lemma EmptyFile(d: Disk, t: Table, im: seq<bool>, i: nat)
    requires i in FilesOf(d, t, im) && FilesOf(d, t, im)[i] == []
    ensures i < TOTAL_INODES && i < |t| && t[i].size == 0 && t[i].kind == File && i < |im| && im[i]
  {
    hide Ents;
    assert FilesOf(d, t, im)[i] == Content(d, t, i);
  }

  lemma NotOwned(im: seq<bool>, owner: Owners, i: nat)
    requires FreeOwnNothing(im, owner) && i < |im| && !im[i]
    ensures Slot(i, 0) !in owner.Values
  {
    assert LocIno(Slot(i, 0)) == i;
    assert forall b :: b in owner ==> owner[b] != Slot(i, 0);
  }

  /** A file that was just created, on the level of the volume. */
  lemma CreatedFile(tr: Tree, link: Links, depth: Depths, path: Str, i: nat)
    requires TreeOk(tr, link, depth) && CreateTarget(tr, path, ROOT_INODE).Some? && 2 <= i < TOTAL_INODES
    requires i !in tr.kind
    requires |path| < MAX_CMD_LEN && |BaseName(path)| <= 27
    ensures var (d, name) := CreateTarget(tr, path, ROOT_INODE).value;
            && d in tr.ents
            && var tr' := AddNode(tr, d, name, i, File);
               && FuseOpenCheck(tr', path, true) == (Done, i) && ROOT_INODE in tr'.kind
               && DeleteTarget(tr', path, ROOT_INODE) == Some((d, name, i)) && RemoveNode(tr', d, name, i) == tr
  {
    hide TreeOk, CreateTarget, BaseName, DeleteTarget, RemoveNode, Resolve, Added;
    var (d, name) := CreateTarget(tr, path, ROOT_INODE).value;
    RootDepth(tr, link, depth);
    StartIsLive(tr, link, depth, ROOT_INODE);
    CreatedIsFound(tr, link, depth, path, ROOT_INODE, i);
    NoEntsOf(tr, link, depth, d, name, i);
  }

  /** Creates a file and writes within its first block: the least free block is taken, and the file shows what was in
      it before the offset. */
  method CreateAndWrite(v: Volume, path: Str, off: nat, data: seq<byte>) returns (i: nat)
    requires Fs(v) && CreateTarget(TreeIn(v), path, ROOT_INODE).Some? && |path| < MAX_CMD_LEN && |BaseName(path)| <= 27
    requires exists j :: 1 <= j < TOTAL_INODES && j !in TreeIn(v).kind
    requires Least(v.bm) < |v.bm| && 0 < |data| && off + |data| <= BLOCK_SIZE
    modifies v
    ensures Fs(v) && 2 <= i < TOTAL_INODES == |old(v.im)| && !old(v.im)[i] && v.im == old(v.im)[i := true]
    ensures i !in old(TreeIn(v)).kind
    ensures var (d, name) := CreateTarget(old(TreeIn(v)), path, ROOT_INODE).value;
            d in old(TreeIn(v)).ents && TreeIn(v) == AddNode(old(TreeIn(v)), d, name, i, File)
    ensures i in FilesIn(v)
            && TookBlock(old(v.disk), old(v.bm), old(v.owner), v.disk, v.bm, v.owner, i, off, data, FilesIn(v)[i])
    ensures FuseOpenCheck(TreeIn(v), path, true) == (Done, i)
  {
    hide v.Meta, Own, FreeOwnNothing, TreeOk, Dense, FdsOk, TreeOf, FilesOf, CreateTarget, AddNode, BaseName,
         FuseOpenCheck, InodeWritten, FuseWriteStep, Content, Least, Exact, KeepsDense, DeleteTarget, RemoveNode,
         ClearCount, TookBlock;
    ghost var tr, link, depth := TreeIn(v), v.link, v.depth;
    SoundSizes(v);
    RootDepth(tr, link, depth);
    StartIsLive(tr, link, depth, ROOT_INODE);
    ghost var d0, im0 := v.disk, v.im;
    var r := OscdfsCreate(v, path, ROOT_INODE, true);
    assert r != -1;
    i := r;
    ghost var d1, t1, bm1, owner1 := v.disk, v.inodes, v.bm, v.owner;
    NotInUse(d0, old(v.inodes), im0, i);
    NotOwned(im0, old(v.owner), i);
    SoundSizes(v);
    EmptyFile(v.disk, v.inodes, v.im, i);
    CreatedFile(tr, link, depth, path, i);
    LeastIsFree(bm1);
    var st, n, stored := FuseWriteFile(v, path, off, data, true);
    SoundSizes(v);
    FreshFileWrite(d1, t1, bm1, owner1, v.disk, v.inodes, v.bm, v.owner, i, off, data, n, stored);
    InodeWrittenTable(d1, t1, bm1, owner1, v.disk, v.inodes, v.bm, v.owner, i, off, data, n, stored);
    FileAt(v.disk, v.inodes, v.im, i);
    TookSame(d0, d1, bm1, owner1, v.disk, v.bm, v.owner, i, off, data, FilesIn(v)[i]);
  }

  lemma TookSame(d0: Disk, d1: Disk, bm: seq<bool>, owner: Owners, d: Disk, bm': seq<bool>, owner': Owners,
                 i: nat, off: nat, data: seq<byte>, c: seq<byte>)
    requires FreeKept(d0, d1, bm) && TookBlock(d1, bm, owner, d, bm', owner', i, off, data, c)
    ensures TookBlock(d0, bm, owner, d, bm', owner', i, off, data, c)
  {
    hide Least;
    LeastIsFree(bm);
  }

  lemma LeastIsFree(bm: seq<bool>)
    ensures Least(bm) < |bm| ==> !bm[Least(bm)]
  {
  }

  /** A file is created, written and deleted; another one is created and written at an offset within its first block.
      What stands before that offset is what the deleted file had there. */
  method StaleBytes(v: Volume, path: Str, other: Str, data: seq<byte>, off: nat, more: seq<byte>)
    returns (shown: seq<byte>)
    requires Fs(v) && Least(v.bm) < |v.bm| && exists j :: 1 <= j < TOTAL_INODES && j !in TreeIn(v).kind
    requires CreateTarget(TreeIn(v), path, ROOT_INODE).Some? && |path| < MAX_CMD_LEN && |BaseName(path)| <= 27
    requires CreateTarget(TreeIn(v), other, ROOT_INODE).Some? && |other| < MAX_CMD_LEN && |BaseName(other)| <= 27
    requires 0 < off <= |data| <= BLOCK_SIZE && 0 < |more| && off + |more| <= BLOCK_SIZE
    modifies v
    ensures Fs(v) && shown == data[..off]
  {
    hide v.Meta, Own, FreeOwnNothing, TreeOk, Dense, FdsOk, TreeOf, FilesOf, CreateTarget, AddNode, BaseName,
         FuseOpenCheck, Least, Exact, KeepsDense, DeleteTarget, RemoveNode, ClearCount, TookBlock, ClearedBy, OwnedBy,
         WithoutIno;
    ghost var tr, link, depth := TreeIn(v), v.link, v.depth;
    ghost var bm0, owner0, im0 := v.bm, v.owner, v.im;
    MountedOwns(v);
    OwnedAreMarked(v.disk, v.inodes, v.bm, v.owner);
    NoFileYet(v.fds[..], v.disk, v.inodes, v.im);
    var i := CreateAndWrite(v, path, 0, data);
    CreatedFile(tr, link, depth, path, i);
    ghost var d1, bm1, owner1, c1 := v.disk, v.bm, v.owner, FilesIn(v)[i];
    var r := OscdfsDelete(v, path, ROOT_INODE, true);
    TookGrows(old(v.disk), bm0, owner0, d1, bm1, owner1, i, 0, data, c1);
    NothingRemains(bm0, owner0, bm1, owner1, v.bm, im0, i);
    ghost var d2, owner2 := v.disk, v.owner;
    var j := CreateAndWrite(v, other, off, more);
    ghost var c2 := FilesIn(v)[j];
    StillThere(old(v.disk), bm0, owner0, d1, bm1, owner1, i, data, c1, d2, owner2, v.disk, v.bm, v.owner, j, off,
               more, c2);
    var st;
    st, shown := FuseReadFile(v, other, 0, off, true);
    assert shown == c2[..off];
  }

  /** No descriptor stands in an inode that is not in use. */
  lemma NoFileYet(fds: seq<Fd>, d: Disk, t: Table, im: seq<bool>)
    requires FdsOk(fds, t, im) && |t| == |im| == TOTAL_INODES
    ensures forall i: nat :: i < TOTAL_INODES && !im[i] ==> !IsOpen(fds, i)
  {
  }

  lemma TookGrows(d0: Disk, bm0: seq<bool>, owner0: Owners, d: Disk, bm: seq<bool>, owner: Owners,
                  i: nat, off: nat, data: seq<byte>, c: seq<byte>)
    requires TookBlock(d0, bm0, owner0, d, bm, owner, i, off, data, c)
    requires forall b :: b in owner0 ==> b < |bm0| && bm0[b]
    ensures Grow(bm0, owner0, bm, owner, i)
  {
    hide Least;
    LeastIsFree(bm0);
  }

  lemma StillThere(d0: Disk, bm0: seq<bool>, owner0: Owners, d1: Disk, bm1: seq<bool>, owner1: Owners,
                   i: nat, data: seq<byte>, c1: seq<byte>, d2: Disk, owner2: Owners,
                   d3: Disk, bm3: seq<bool>, owner3: Owners, j: nat, off: nat, more: seq<byte>, c2: seq<byte>)
    requires TookBlock(d0, bm0, owner0, d1, bm1, owner1, i, 0, data, c1) && off <= |data|
    requires FreeKept(d1, d2, bm0)
    requires TookBlock(d2, bm0, owner2, d3, bm3, owner3, j, off, more, c2)
    ensures |c2| >= off && c2[..off] == data[..off]
  {
    hide Least;
    LeastIsFree(bm0);
    var b := Least(bm0);
    assert d2[b] == d1[b];
    forall k: nat | k < off
      ensures c2[k] == data[k]
    {
      assert c1[k] == d1[b][k] == data[k];
    }
  }

  /** The same from a fresh format: the byte before the one that was written belongs to the deleted file. */
  method DeletedByteShows(v: Volume, c: byte, other: byte, x: byte) returns (shown: seq<byte>)
    requires FdsOk(v.fds[..], [], []) && c != 0 && c != SLASH && c != 46 && other != 0 && other != SLASH && other != 46
    modifies v
    ensures Fs(v) && shown == [x]
  {
    hide v.Meta, Mounted, TreeOk, TreeOf, FdsOk, ClearCount, Mkfs.HomesMade, CreateTarget, BaseName, Least;
    var _, home := Mkfs.MkfsDisk(v);
    MountedSound(v);
    Mkfs.RoomLeft(v);
    RoomInMap(v.bm);
    RootTarget(TreeIn(v), home, c);
    RootTarget(TreeIn(v), home, other);
    shown := StaleBytes(v, Path(c), Path(other), seq(BLOCK_SIZE, _ => x), 1, [1]);
  }

  lemma RoomInMap(bm: seq<bool>)
    requires exists b :: 0 <= b < |bm| && !bm[b]
    ensures Least(bm) < |bm|
  {
  }
}
