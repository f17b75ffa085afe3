/** The simple file system: what the volume looks like from outside, and what each command may do to it. */
module Steps {
  import opened Bytes
  import opened Layout
  import opened Volumes
  import opened Space
  import opened Contents
  import opened Invariants
  import opened Entries
  import opened Trees
  import opened Paths
  import opened Filesystem
  import opened FileIo
  import opened FileOps
  import opened Directories
  import opened Demand

  /** A tree of names, a byte sequence per file, the open-file table, the locations in block maps that hold a
      block number, and the number of blocks not in use. */
  datatype Abs = Abs(tree: Tree, files: map<nat, seq<byte>>, fds: seq<Fd>, named: set<Loc>, free: nat)

  datatype Cmd =
    | Create(path: Str, permitted: bool)
    | Open(path: Str, mode: Access, permitted: bool)
    | Close(fd: int)
    | Read(fd: int, n: nat, permitted: bool)
    | Write(fd: int, data: seq<byte>, permitted: bool)
    | Delete(path: Str, permitted: bool)
    | Mkdir(path: Str, permitted: bool)
    | Rmdir(path: Str, permitted: bool)
    | FuseRead(path: Str, offset: nat, n: nat, permitted: bool)
    | FuseWrite(path: Str, offset: nat, data: seq<byte>, permitted: bool)

  datatype Answer = Answer(code: int, data: seq<byte>, status: Status)

  /** Byte counts are 32-bit; FUSE paths come resolved from the kernel, and FUSE writes end below the limit. */
  ghost predicate CmdOk(cmd: Cmd) {
    match cmd
    case Read(_, n, _) => n < WORD_LIMIT
    case Write(_, data, _) => |data| < WORD_LIMIT
    case Mkdir(path, _) => KernelPath(path)
    case Rmdir(path, _) => KernelPath(path)
    case FuseWrite(_, offset, data, _) => offset + |data| <= FUSE_LIMIT
    case _ => true
  }

  // ---- what a write does to the bytes of a file ----

  /** The file's bytes after `data` was stored at `off`. What was no byte of the file before, and lies in a
      block that was mapped already or is newly mapped, may be anything. */
  ghost predicate Stored(c: seq<byte>, named: set<Loc>, i: nat, off: nat, data: seq<byte>, c': seq<byte>) {
    && |c'| == Max(|c|, off + |data|)
    && forall p: nat :: p < |c'| ==> ByteAfter(c, named, i, off, data, p, c'[p])
  }

  ghost predicate ByteAfter(c: seq<byte>, named: set<Loc>, i: nat, off: nat, data: seq<byte>, p: nat, x: byte) {
    var old_, touched := LocOf(i, p / BLOCK_SIZE) in named, Touched(p / BLOCK_SIZE, off, off + |data|);
    if off <= p < off + |data| then x == data[p - off]
    else if p < |c| then old_ || !touched ==> x == c[p]
    else !old_ && !touched ==> x == 0
  }

  /** The bytes of a file whose inode is not stored: what was written below a root pointer that was not there
      before is lost. */
  ghost predicate Kept(c: seq<byte>, named: set<Loc>, i: nat, off: nat, data: seq<byte>, c': seq<byte>) {
    && |c'| == |c|
    && forall p: nat :: p < |c| ==> ByteLeft(c, named, i, off, data, p, c'[p])
  }

  ghost predicate ByteLeft(c: seq<byte>, named: set<Loc>, i: nat, off: nat, data: seq<byte>, p: nat, x: byte) {
    if Slot(i, RootSlotOf(p / BLOCK_SIZE)) !in named then x == 0
    else ByteAfter(c, named, i, off, data, p, x)
  }

  // ---- the commands ----

  ghost predicate Usable(a: Abs, fd: int, refused: Access, permitted: bool) {
    0 <= fd < |a.fds| && a.fds[fd].used && a.fds[fd].mode != refused && permitted
  }

  ghost predicate CreateStep(a: Abs, start: nat, path: Str, permitted: bool, r: int, a': Abs) {
    var target := CreateTarget(a.tree, path, start);
    if r == -1 then
      a' == a && (target == None || !permitted || forall i :: 1 <= i < TOTAL_INODES ==> i in a.tree.kind)
    else
      && target.Some? && permitted && NextInode(a.tree, r) && target.value.0 in a.tree.ents
      && a' == a.(tree := AddNode(a.tree, target.value.0, target.value.1, r, File), files := a.files[r := []])
  }

  ghost predicate OpenStep(a: Abs, start: nat, path: Str, mode: Access, permitted: bool, fd: int, a': Abs) {
    var target := OpenTarget(a.tree, path, start);
    if fd == -1 then
      a' == a && (target == None || !permitted || forall f :: 0 <= f < |a.fds| ==> a.fds[f].used)
    else
      && target.Some? && permitted && 0 <= fd < |a.fds| && !a.fds[fd].used
      && (forall f :: 0 <= f < fd ==> a.fds[f].used)
      && a' == a.(fds := a.fds[fd := Fd(true, target.value, 0, mode)])
  }

  ghost predicate CloseStep(a: Abs, fd: int, r: int, a': Abs) {
    if 0 <= fd < |a.fds| && a.fds[fd].used then r == 0 && a' == a.(fds := a.fds[fd := Fd(false, 0, 0, ReadOnly)])
    else r == -1 && a' == a
  }

  ghost predicate ReadStep(a: Abs, fd: int, n: nat, permitted: bool, r: int, buf: seq<byte>, a': Abs) {
    if !Usable(a, fd, WriteOnly, permitted) then r == -1 && buf == [] && a' == a
    else
      var f := a.fds[fd];
      && f.ino in a.files && buf == ReadBytes(a.files[f.ino], f.offset, n) && r == |buf|
      && a' == a.(fds := a.fds[fd := f.(offset := f.offset + r)])
  }

  /** The blocks that a write maps in turn, as far as there is room: the first block refused, and what is named
      and free then. */
  ghost function Mapping(a: Abs, i: nat, off: nat, n: nat): (nat, set<Loc>, nat) {
    LinkAll(a.named, a.free, i, off / BLOCK_SIZE, EndBlock(off, n))
  }

  /** How many of `n` bytes a write at `off` stores. */
  ghost function Fitting(a: Abs, i: nat, off: nat, n: nat): int {
    StopAt(off, n, Mapping(a, i, off, n).0) - off
  }

  /** A write through a descriptor stores what fits, at the descriptor's offset. */
  ghost predicate WriteStep(a: Abs, fd: int, data: seq<byte>, permitted: bool, r: int, a': Abs) {
    if !Usable(a, fd, ReadOnly, permitted) then r == -1 && a' == a
    else
      var f := a.fds[fd];
      && f.ino in a.files && f.ino in a'.files && f.offset <= |a.files[f.ino]|
      && r == Fitting(a, f.ino, f.offset, |data|) && 0 <= r <= |data|
      && Stored(a.files[f.ino], a.named, f.ino, f.offset, data[..r], a'.files[f.ino])
      && var (_, named, free) := Mapping(a, f.ino, f.offset, |data|);
         a' == Abs(a.tree, a.files[f.ino := a'.files[f.ino]], a.fds[fd := f.(offset := f.offset + r)], named, free)
  }

  /** Removing inode `i` and its name gives back every block that its map names. */
  ghost predicate Unlinked(a: Abs, dir: nat, name: Str, i: nat, a': Abs)
    requires dir in a.tree.ents
  {
    a' == Abs(RemoveNode(a.tree, dir, name, i), a.files - {i}, a.fds, a.named - OfInode(a.named, i),
              a.free + |OfInode(a.named, i)|)
  }

  ghost predicate DeleteStep(a: Abs, start: nat, path: Str, permitted: bool, r: int, a': Abs) {
    var target := DeleteTarget(a.tree, path, start);
    if target == None || !permitted || IsOpen(a.fds, target.value.2) then r == -1 && a' == a
    else
      var (dir, name, i) := target.value;
      r == 0 && dir in a.tree.ents && Unlinked(a, dir, name, i, a')
  }

  /** A new directory takes one block. */
  ghost predicate MadeDir(a: Abs, dir: nat, name: Str, made: nat, a': Abs)
    requires dir in a.tree.ents
  {
    && NextInode(a.tree, made) && a.free > 0
    && a' == a.(tree := AddNode(a.tree, dir, name, made, Dir), named := a.named + {Slot(made, 0)}, free := a.free - 1)
  }

  ghost predicate MkdirStep(a: Abs, path: Str, permitted: bool, st: Status, a': Abs)
    requires path != []
  {
    var (check, dir, name) := MkdirCheck(a.tree, path, permitted);
    if check != Done then st == check && a' == a
    else if a.free == 0 || forall i :: 1 <= i < TOTAL_INODES ==> i in a.tree.kind then st == ENOSPC && a' == a
    else
      && st == Done && dir in a.tree.ents
      && exists made: nat :: MadeDir(a, dir, name, made, a')
  }

  ghost predicate RmdirStep(a: Abs, path: Str, permitted: bool, st: Status, a': Abs)
    requires KernelPath(path)
  {
    && st == RmdirCheck(a.tree, path, permitted)
    && if st != Done then a' == a
       else
         var i, parent := Resolve(a.tree, path, ROOT_INODE).value, Resolve(a.tree, DirName(path), ROOT_INODE);
         && parent.Some? && parent.value in a.tree.ents && i != ROOT_INODE && i !in a.files
         && Unlinked(a, parent.value, BaseName(path), i, a')
  }

  /** An rmdir of this path removes directory `dir`. */
  ghost predicate Removes(tr: Tree, path: Str, permitted: bool, dir: nat) {
    RmdirCheck(tr, path, permitted) == Done && Resolve(tr, path, ROOT_INODE) == Some(dir)
  }

  /** What opening a file through FUSE answers. */
  ghost function FuseOpenCheck(tr: Tree, path: Str, permitted: bool): (Status, nat) {
    match Resolve(tr, path, ROOT_INODE)
    case None => (ENOENT, 0)
    case Some(i) => if i in tr.ents then (EISDIR, i) else if !permitted then (EACCES, i) else (Done, i)
  }

  ghost predicate FuseReadStep(a: Abs, path: Str, off: nat, n: nat, permitted: bool, st: Status, buf: seq<byte>,
                               a': Abs) {
    var (check, i) := FuseOpenCheck(a.tree, path, permitted);
    && st == check && a' == a
    && if st != Done then buf == [] else i in a.files && buf == ReadBytes(a.files[i], off, n)
  }

  /** What is left of the map of inode `i` when its root pointers are again those that it had. */
  ghost function BackAt(named0: set<Loc>, named: set<Loc>, i: nat): set<Loc> {
    set l | l in named && (LocIno(l) != i || Slot(i, RootSlot(l)) in named0)
  }

  /** A FUSE write stores the inode only when it has stored all data and the file has grown. Otherwise what it
      has linked below new root pointers is lost, and the blocks stay marked. */
  ghost predicate FuseWriteStep(a: Abs, path: Str, off: nat, data: seq<byte>, permitted: bool, st: Status, r: int,
                                a': Abs) {
    var (check, i) := FuseOpenCheck(a.tree, path, permitted);
    if check != Done then st == check && r == -1 && a' == a
    else
      var fit, (_, named, free) := Fitting(a, i, off, |data|), Mapping(a, i, off, |data|);
      && i in a.files && i in a'.files && 0 <= fit <= |data|
      && (if fit < |data| then st == ENOSPC && r == -1 else st == Done && r == |data|)
      && if fit == |data| && off + |data| > |a.files[i]| then
           && Stored(a.files[i], a.named, i, off, data, a'.files[i])
           && a' == a.(files := a.files[i := a'.files[i]], named := named, free := free)
         else
           && Kept(a.files[i], a.named, i, off, data[..fit], a'.files[i])
           && a' == a.(files := a.files[i := a'.files[i]], named := BackAt(a.named, named, i), free := free)
  }

  /** One step of the simple file system, with its answer. */
  ghost predicate Step(a: Abs, start: nat, cmd: Cmd, ans: Answer, a': Abs)
    requires CmdOk(cmd)
  {
    match cmd
    case Create(path, permitted) =>
      ans == Answer(ans.code, [], Done) && CreateStep(a, start, path, permitted, ans.code, a')
    case Open(path, mode, permitted) =>
      ans == Answer(ans.code, [], Done) && OpenStep(a, start, path, mode, permitted, ans.code, a')
    case Close(fd) => ans == Answer(ans.code, [], Done) && CloseStep(a, fd, ans.code, a')
    case Read(fd, n, permitted) =>
      ans == Answer(ans.code, ans.data, Done) && ReadStep(a, fd, n, permitted, ans.code, ans.data, a')
    case Write(fd, data, permitted) =>
      ans == Answer(ans.code, [], Done) && WriteStep(a, fd, data, permitted, ans.code, a')
    case Delete(path, permitted) =>
      ans == Answer(ans.code, [], Done) && DeleteStep(a, start, path, permitted, ans.code, a')
    case Mkdir(path, permitted) => ans == Answer(0, [], ans.status) && MkdirStep(a, path, permitted, ans.status, a')
    case Rmdir(path, permitted) => ans == Answer(0, [], ans.status) && RmdirStep(a, path, permitted, ans.status, a')
    case FuseRead(path, off, n, permitted) =>
      ans == Answer(0, ans.data, ans.status) && FuseReadStep(a, path, off, n, permitted, ans.status, ans.data, a')
    case FuseWrite(path, off, data, permitted) =>
      ans == Answer(ans.code, [], ans.status) && FuseWriteStep(a, path, off, data, permitted, ans.status, ans.code, a')
  }

  ghost function AbsIn(v: Volume): Abs
    reads v, v.fds
  {
    Abs(TreeIn(v), FilesIn(v), v.fds[..], v.owner.Values, ClearCount(v.bm))
  }

  /** What holds of every state: the names form a tree, only inodes in use (or the reserved inode 0) have block maps,
      a map is a tree, a hole reads as zeros, and no block is counted twice. */
  ghost predicate AbsOk(a: Abs) {
    && (exists link, depth :: TreeOk(a.tree, link, depth))
    && UpClosed(a.named) && (forall l :: l in a.named ==> ValidLoc(l) && (LocIno(l) == 0 || LocIno(l) in a.tree.kind))
    && a.free + |a.named| <= TOTAL_BLOCKS - FIRST_DATA_BLOCK
    && (forall i :: i in a.files <==> i in a.tree.kind && a.tree.kind[i] == File)
    && forall i: nat :: i in a.files ==> HolesAreZero(a.files[i], a.named, i)
  }

  ghost predicate HolesAreZero(c: seq<byte>, named: set<Loc>, i: nat) {
    forall p: nat :: p < |c| && LocOf(i, p / BLOCK_SIZE) !in named ==> c[p] == 0
  }

  /** Nothing has leaked: every block that is not free holds a part of something. */
  ghost predicate LeakFree(a: Abs) {
    a.free + |a.named| == TOTAL_BLOCKS - FIRST_DATA_BLOCK
  }

  ghost predicate AllSolid(a: Abs) {
    forall i: nat :: i in a.files ==> Solid(a, i)
  }

  /** File `i` has no hole. */
  ghost predicate Solid(a: Abs, i: nat)
    requires i in a.files
  {
    forall lb: nat :: lb * BLOCK_SIZE < |a.files[i]| ==> LocOf(i, lb) in a.named
  }

  /** A history of the simple file system: one step per command, each with the answer given. */
  ghost predicate History(trace: seq<Abs>, start: nat, cmds: seq<Cmd>, answers: seq<Answer>)
  {
    && |answers| == |cmds| && |trace| == |cmds| + 1
    && forall k :: 0 <= k < |cmds| ==> CmdOk(cmds[k]) && Step(trace[k], start, cmds[k], answers[k], trace[k + 1])
  }

  /** The number of blocks that hold `n` bytes. */
  function Blocks(n: nat): nat {
    (n + BLOCK_SIZE - 1) / BLOCK_SIZE
  }

  /** File `i` has no hole, and its map holds nothing but the blocks that its size needs. */
  ghost predicate Neat(a: Abs, i: nat)
    requires i in a.files
  {
    OfInode(a.named, i) == Ways(i, 0, Blocks(|a.files[i]|))
  }

  // ---- the room that a write takes ----

  lemma FittingRange(a: Abs, i: nat, off: nat, n: nat)
    requires UpClosed(a.named)
    ensures 0 <= Fitting(a, i, off, n) <= n
    ensures Fitting(a, i, off, n) == n <==> Mapping(a, i, off, n).0 == EndBlock(off, n)
    ensures off / BLOCK_SIZE <= EndBlock(off, n)
  {
    hide LinkAll, UpClosed;
    LinkAllTakes(a.named, a.free, i, off / BLOCK_SIZE, EndBlock(off, n));
    var k := Mapping(a, i, off, n).0;
    if k < EndBlock(off, n) {
      assert k * BLOCK_SIZE <= off + n - 1;
    }
  }

  /** A write is complete exactly when the disk has room for all that is missing in the map of the file, and then
      takes exactly that. Otherwise it leaves no block free, and stops at the first block for which the room
      does not suffice. */
  lemma WriteTakes(a: Abs, i: nat, off: nat, n: nat)
    requires UpClosed(a.named)
    ensures var first, end := off / BLOCK_SIZE, EndBlock(off, n);
            var fit, (k, named, free) := Fitting(a, i, off, n), Mapping(a, i, off, n);
            && (Need(a.named, i, first, end) <= a.free ==>
                  fit == n && named == a.named + Ways(i, first, end) && free == a.free - Need(a.named, i, first, end))
            && (Need(a.named, i, first, end) > a.free ==>
                  && free == 0 && first <= k < end
                  && Need(a.named, i, first, k) <= a.free < Need(a.named, i, first, k + 1)
                  && fit == Max(off, k * BLOCK_SIZE) - off < n)
  {
    hide LinkAll, UpClosed, Need, Ways;
    FittingRange(a, i, off, n);
    LinkAllTakes(a.named, a.free, i, off / BLOCK_SIZE, EndBlock(off, n));
  }

  /** On a file without holes: with h blocks after the write, it is complete exactly when the disk has room for
      the blocks of a file of h blocks less those that the map has already. */
  lemma DenseWriteTakes(a: Abs, i: nat, off: nat, n: nat)
    requires UpClosed(a.named) && i in a.files && Solid(a, i) && off <= |a.files[i]| && EndBlock(off, n) <= DOUBLE_END
    ensures var h := EndBlock(off, n);
            var need, fit := BlocksNeeded(h) - Have(a.named, i, h), Fitting(a, i, off, n);
            var (k, _, free) := Mapping(a, i, off, n);
            && (need <= a.free ==> fit == n && free == a.free - need)
            && (need > a.free ==>
                  && free == 0 && off / BLOCK_SIZE <= k < h
                  && BlocksNeeded(k) - Have(a.named, i, k) <= a.free < BlocksNeeded(k + 1) - Have(a.named, i, k + 1)
                  && fit == Max(off, k * BLOCK_SIZE) - off < n)
  {
    hide LinkAll, UpClosed, Need, Ways, BlocksNeeded, LocOf, Fitting, Mapping, EndBlock, Have;
    var first, h := off / BLOCK_SIZE, EndBlock(off, n);
    FittingRange(a, i, off, n);
    WriteTakes(a, i, off, n);
    forall lb: nat | lb < first
      ensures LocOf(i, lb) in a.named
    {
      assert lb * BLOCK_SIZE < |a.files[i]|;
    }
    DenseNeed(a.named, i, first, h);
    if Need(a.named, i, first, h) > a.free {
      var k := Mapping(a, i, off, n).0;
      DenseNeed(a.named, i, first, k);
      DenseNeed(a.named, i, first, k + 1);
    }
  }

  /** The first write to a new file. */
  lemma FirstWriteTakes(a: Abs, i: nat, n: nat)
    requires UpClosed(a.named) && OfInode(a.named, i) == {} && EndBlock(0, n) <= DOUBLE_END
    ensures Fitting(a, i, 0, n) == n <==> BlocksNeeded(EndBlock(0, n)) <= a.free
    ensures Fitting(a, i, 0, n) == n ==> Mapping(a, i, 0, n).2 == a.free - BlocksNeeded(EndBlock(0, n))
    ensures Fitting(a, i, 0, n) < n ==> Mapping(a, i, 0, n).2 == 0
  {
    hide LinkAll, UpClosed, Need, BlocksNeeded, Fitting, Mapping;
    var h := EndBlock(0, n);
    WriteTakes(a, i, 0, n);
    FittingRange(a, i, 0, n);
    DenseNeed(a.named, i, 0, h);
    forall l | l in Ways(i, 0, h)
      ensures l !in a.named
    {
      WaysInode(i, 0, h, l);
      assert l !in OfInode(a.named, i);
    }
    assert Ways(i, 0, h) * a.named == {};
  }

  lemma {:induction false} WaysInode(i: nat, lo: nat, hi: nat, l: Loc)
    requires l in Ways(i, lo, hi)
    ensures LocIno(l) == i
    decreases if lo < hi then hi - lo else 0
  {
    hide Way, LocOf;
    if l in Way(LocOf(i, lo)) {
      LocOfIno(i, lo);
      WayInode(LocOf(i, lo), l);
    } else {
      WaysInode(i, lo + 1, hi, l);
    }
  }

  lemma {:induction false} WayInode(l: Loc, m: Loc)
    requires m in Way(l)
    ensures LocIno(m) == LocIno(l)
  {
    if l.Sub? && m != l {
      WayInode(l.parent, m);
    }
  }

  lemma LocOfIno(i: nat, lb: nat)
    ensures LocIno(LocOf(i, lb)) == i
  {
    var l := LocOf(i, lb);
    if lb >= DOUBLE_END {
      assert LocIno(l) == LocIno(l.parent) == LocIno(l.parent.parent) == LocIno(l.parent.parent.parent);
    } else if lb >= SINGLE_END {
      assert LocIno(l) == LocIno(l.parent) == LocIno(l.parent.parent);
    }
  }
}
