/** Whole runs: every command sequence on a formatted volume refines the simple file system of `Steps`, and keeps
    every invariant. */
module Runs {
  import opened Bytes
  import opened Layout
  import opened BlockMap
  import opened Volumes
  import opened Bitmap
  import opened Space
  import opened InodeMap
  import opened ReleaseBlocks
  import opened Contents
  import opened Invariants
  import opened Entries
  import opened Directory
  import opened Trees
  import opened Listing
  import opened Paths
  import opened PathLaws
  import opened Filesystem
  import opened FileIo
  import opened FileOps
  import opened Directories
  import opened Accounts
  import opened Steps
  import opened Views

  // ---- the state seen from outside ----

  lemma FileAt(d: Disk, t: Table, im: seq<bool>, i: nat)
    requires |t| == |im| == TOTAL_INODES && 1 <= i < TOTAL_INODES && im[i] && t[i].kind == File
    ensures i in FilesOf(d, t, im) && FilesOf(d, t, im)[i] == Content(d, t, i) && Live(im, i)
    ensures i in TreeOf(d, t, im).kind && TreeOf(d, t, im).kind[i] == File
  {
    hide Content, Ents;
  }

  lemma FullIsZero(bm: seq<bool>)
    ensures ClearCount(bm) == 0 <==> forall b :: 0 <= b < |bm| ==> bm[b]
  {
    hide ClearCount;
    ClearCountZero(bm);
  }

  /** Every volume in use stands for a proper state, and has leaked nothing exactly when the state has not. */
  lemma AbsFacts(v: Volume)
    requires Fs(v)
    ensures AbsOk(AbsIn(v)) && (Exact(v.bm, v.owner) <==> LeakFree(AbsIn(v)))
  {
    hide v.Meta, Own, FreeOwnNothing, Dense, Exact, FdsOk, TreeOf, FilesOf, ClearCount, UpClosed, TreeOk, ValidLoc,
         LocIno, HolesAreZero;
    SoundSizes(v);
    MetaBits(v);
    OwnSpace(v.disk, v.inodes, v.bm, v.owner);
    Balance(v.disk, v.inodes, v.bm, v.owner);
    LocsAreLive(v.disk, v.inodes, v.bm, v.owner, v.im);
    FilesAreFiles(v.disk, v.inodes, v.im);
    forall i: nat | i in FilesIn(v)
      ensures HolesAreZero(FilesIn(v)[i], v.owner.Values, i)
    {
      HolesRead(v.disk, v.inodes, v.bm, v.owner, v.im, i);
    }
  }

  lemma MetaBits(v: Volume)
    requires v.Meta()
    ensures forall b :: 0 <= b < FIRST_DATA_BLOCK ==> b < |v.bm| && v.bm[b]
  {
    AgreeSizes(v.blockBits, v.inodeBits, v.bm, v.im, v.sb, v.gd);
  }

  lemma LocsAreLive(d: Disk, t: Table, bm: seq<bool>, owner: Owners, im: seq<bool>)
    requires Own(d, t, bm, owner) && FreeOwnNothing(im, owner) && |t| == |im| == TOTAL_INODES
    ensures forall l :: l in owner.Values ==> ValidLoc(l) && (LocIno(l) == 0 || LocIno(l) in TreeOf(d, t, im).kind)
  {
    hide At, ValidLoc, LocIno, TreeOf;
    forall l | l in owner.Values
      ensures ValidLoc(l) && (LocIno(l) == 0 || LocIno(l) in TreeOf(d, t, im).kind)
    {
      var b :| b in owner && owner[b] == l;
      TreeAt(d, t, im, LocIno(l));
    }
  }

  lemma FilesAreFiles(d: Disk, t: Table, im: seq<bool>)
    ensures var files, kind := FilesOf(d, t, im), TreeOf(d, t, im).kind;
            forall i :: i in files <==> i in kind && kind[i] == File
  {
    hide Content, Ents;
  }

  lemma HolesRead(d: Disk, t: Table, bm: seq<bool>, owner: Owners, im: seq<bool>, i: nat)
    requires Own(d, t, bm, owner) && |t| == |im| == TOTAL_INODES && i in FilesOf(d, t, im)
    ensures HolesAreZero(FilesOf(d, t, im)[i], owner.Values, i)
  {
    hide Own, Img, LocOf, Ents;
    assert FilesOf(d, t, im)[i] == Content(d, t, i);
    forall p: nat | p < t[i].size && LocOf(i, p / BLOCK_SIZE) !in owner.Values
      ensures ByteAt(d, t, i, p) == 0
    {
      NamedMapped(d, t, bm, owner, i, BlockOf(p));
    }
  }

  // ---- reads and writes at the level of files ----

  method ReadFile(v: Volume, fd: int, n: nat, permitted: bool) returns (r: int, buf: seq<byte>)
    requires Fs(v) && n < WORD_LIMIT
    modifies v`disk, v`blockBits, v`bm, v`sb, v`gd, v`owner, v.fds
    ensures Fs(v) && ReadStep(old(AbsIn(v)), fd, n, permitted, r, buf, AbsIn(v)) && TreeIn(v) == old(TreeIn(v))
    ensures v.bm == old(v.bm)
  {
    hide v.Meta, Own, FreeOwnNothing, TreeOk, Dense, FdsOk, TreeOf, FilesOf, ReadBytes, Mapped, ClearCount;
    ghost var fds0 := v.fds[..];
    FdCount(v.fds[..], v.inodes, v.im);
    SoundSizes(v);
    LimitIsAligned();
    if 0 <= fd < MAX_OPEN_FILES && v.fds[fd].used {
      OpenFile(v.fds[..], v.inodes, v.im, fd);
      SizeBound(v, v.fds[fd].ino);
      FileAt(v.disk, v.inodes, v.im, v.fds[fd].ino);
    }
    r, buf := OscdfsRead(v, fd, n, permitted);
    if r != -1 {
      ReadStays(FilesIn(v)[fds0[fd].ino], fds0[fd].offset, n);
      FdsKept(fds0, v.inodes, v.inodes, v.im, fd, fds0[fd].offset + r);
    }
  }

  lemma ReadStays(c: seq<byte>, off: nat, n: nat)
    requires off <= |c|
    ensures off + |ReadBytes(c, off, n)| <= |c|
  {
  }

  /** What a descriptor write leaves behind is a write step. */
  lemma WrittenIsStep(d0: Disk, t0: Table, bm0: seq<bool>, owner0: Owners,
                      d: Disk, t: Table, bm: seq<bool>, owner: Owners, im: seq<bool>, fds: seq<Fd>,
                      fd: nat, data: seq<byte>, r: int)
    requires Own(d0, t0, bm0, owner0) && FdsOk(fds, t0, im) && fd < |fds| && fds[fd].used && fds[fd].mode != ReadOnly
    requires |im| == TOTAL_INODES
    requires FileWritten(d0, t0, bm0, owner0, d, t, bm, owner, fds[fd].ino, fds[fd].offset, data, r)
    ensures WriteStep(Abs(TreeOf(d0, t0, im), FilesOf(d0, t0, im), fds, owner0.Values, ClearCount(bm0)),
                      fd, data, true, r,
                      Abs(TreeOf(d, t, im), FilesOf(d, t, im), fds[fd := fds[fd].(offset := fds[fd].offset + r)],
                          owner.Values, ClearCount(bm)))
    ensures TreeOf(d, t, im) == TreeOf(d0, t0, im)
  {
    hide Own, FdsOk, Content, MapGrown, PlacesKept, BytesStored, OthersSame, Grow, Img, TreeOf, FilesOf, ClearCount,
         PlaceAll, LinkAll, Stored;
    OpenFile(fds, t0, im, fd);
    var i, off := fds[fd].ino, fds[fd].offset;
    FileAt(d0, t0, im, i);
    FileAt(d, t, im, i);
    FileChanged(d0, t0, d, t, im, i);
    StoredIs(d0, t0, bm0, owner0, d, t, i, off, off + r, data);
    MappingIs(d0, t0, bm0, owner0, i, off / BLOCK_SIZE, EndBlock(off, |data|));
  }

  method WriteFile(v: Volume, fd: int, data: seq<byte>, permitted: bool) returns (r: int)
    requires Fs(v) && |data| < WORD_LIMIT
    modifies v`disk, v`blockBits, v`bm, v`sb, v`gd, v`owner, v`inodes, v`table, v.fds
    ensures Fs(v) && WriteStep(old(AbsIn(v)), fd, data, permitted, r, AbsIn(v)) && TreeIn(v) == old(TreeIn(v))
    ensures Usable(old(AbsIn(v)), fd, ReadOnly, permitted) ==>
              Grow(old(v.bm), old(v.owner), v.bm, v.owner, old(v.fds[..])[fd].ino)
    ensures !Usable(old(AbsIn(v)), fd, ReadOnly, permitted) ==> v.bm == old(v.bm) && v.owner == old(v.owner)
  {
    hide v.Meta, Own, FreeOwnNothing, TreeOk, Exact, Dense, FdsOk, TreeOf, FilesOf, WriteStep, KeepsDense, FileWritten,
         Grow, ClearCount;
    ghost var fds0 := v.fds[..];
    FdCount(v.fds[..], v.inodes, v.im);
    SoundSizes(v);
    r := OscdfsWrite(v, fd, data, permitted);
    if r != -1 {
      WrittenIsStep(old(v.disk), old(v.inodes), old(v.bm), old(v.owner), v.disk, v.inodes, v.bm, v.owner, v.im,
                    fds0, fd, data, r);
      WrittenGrows(old(v.disk), old(v.inodes), old(v.bm), old(v.owner), v.disk, v.inodes, v.bm, v.owner, fds0[fd].ino,
                   fds0[fd].offset, data, r);
    } else {
      Unusable(AbsIn(v), fd, data, permitted);
    }
  }

  lemma WrittenGrows(d0: Disk, t0: Table, bm0: seq<bool>, owner0: Owners,
                     d: Disk, t: Table, bm: seq<bool>, owner: Owners, ino: nat, off: nat, data: seq<byte>, r: int)
    requires FileWritten(d0, t0, bm0, owner0, d, t, bm, owner, ino, off, data, r)
    ensures Grow(bm0, owner0, bm, owner, ino)
  {
    hide Grow, OthersSame, MapGrown, PlacesKept, BytesStored, SpaceTaken, Img, FreeKept;
  }

  lemma Unusable(a: Abs, fd: int, data: seq<byte>, permitted: bool)
    requires !Usable(a, fd, ReadOnly, permitted)
    ensures WriteStep(a, fd, data, permitted, -1, a)
  {
  }

  // ---- reads and writes through FUSE ----

  lemma KindOrDir(d: Disk, t: Table, im: seq<bool>, i: nat)
    requires |t| == |im| == TOTAL_INODES && i in TreeOf(d, t, im).kind
    ensures 1 <= i < TOTAL_INODES && im[i] && (i in TreeOf(d, t, im).ents <==> t[i].kind == Dir)
  {
    hide Ents;
    TreeAt(d, t, im, i);
  }

  /** When each answer of `fuse_open` is given: `i` is what the path stands for. */
  ghost predicate OpenAnswers(tr: Tree, i: Option<nat>, permitted: bool, st: Status, handle: nat) {
    && (st == ENOENT <==> i == None)
    && (st == EISDIR <==> i.Some? && IsDir(tr, i.value))
    && (st == EACCES <==> i.Some? && IsFile(tr, i.value) && !permitted)
    && (st == Done <==> i.Some? && IsFile(tr, i.value) && permitted)
    && (st == Done ==> i == Some(handle))
  }

  /** fuse.c `fuse_open`: the handle is the number of the inode. */
  method FuseOpen(v: Volume, path: Str, permitted: bool) returns (st: Status, handle: nat)
    requires Fs(v)
    modifies v`disk, v`blockBits, v`bm, v`sb, v`gd, v`owner
    ensures Fs(v) && AbsIn(v) == old(AbsIn(v)) && v.disk == old(v.disk) && v.bm == old(v.bm) && v.owner == old(v.owner)
    ensures st == FuseOpenCheck(TreeIn(v), path, permitted).0
    ensures OpenAnswers(TreeIn(v), Resolve(TreeIn(v), path, ROOT_INODE), permitted, st, handle)
    ensures st == Done ==> && handle == FuseOpenCheck(TreeIn(v), path, permitted).1
                           && 1 <= handle < TOTAL_INODES == |v.inodes| && |v.im| == TOTAL_INODES && v.im[handle]
                           && v.inodes[handle].kind == File
  {
    hide v.Meta, Own, FreeOwnNothing, TreeOk, Dense, FdsOk, TreeOf, FilesOf, Resolve, ClearCount, FoundAs;
    RootDepth(TreeIn(v), v.link, v.depth);
    SoundSizes(v);
    var ino := FindInodeByPath(v, path, ROOT_INODE);
    if ino == -1 {
      return ENOENT, 0;
    }
    KindOrDir(v.disk, v.inodes, v.im, ino);
    DirHasEnts(TreeIn(v), v.link, v.depth, ino);
    var inode: Inode, ok: bool;
    ok, inode := ReadInode(v, ino);
    if inode.kind == Dir {
      return EISDIR, 0;
    }
    if !permitted {
      return EACCES, 0;
    }
    return Done, ino;
  }

  /** `fuse_read` on a file just opened. */
  method FuseReadFile(v: Volume, path: Str, off: nat, n: nat, permitted: bool) returns (st: Status, buf: seq<byte>)
    requires Fs(v)
    modifies v`disk, v`blockBits, v`bm, v`sb, v`gd, v`owner
    ensures Fs(v) && FuseReadStep(old(AbsIn(v)), path, off, n, permitted, st, buf, AbsIn(v))
    ensures TreeIn(v) == old(TreeIn(v))
  {
    hide v.Meta, Own, FreeOwnNothing, TreeOk, Dense, FdsOk, TreeOf, FilesOf, FuseOpenCheck, ReadBytes, ClearCount;
    var ino;
    st, ino := FuseOpen(v, path, permitted);
    if st != Done {
      return st, [];
    }
    FileAt(v.disk, v.inodes, v.im, ino);
    var r;
    r, buf := OscdfsReadInode(v, ino, off, n);
  }

  /** What an inode write leaves behind is a FUSE write step. */
  lemma InodeWriteIsStep(d0: Disk, t0: Table, bm0: seq<bool>, owner0: Owners,
                         d: Disk, t: Table, bm: seq<bool>, owner: Owners, im: seq<bool>, fds: seq<Fd>,
                         path: Str, i: nat, off: nat, data: seq<byte>, r: int, stored: nat)
    requires Own(d0, t0, bm0, owner0) && |t0| == |t| == |im| == TOTAL_INODES && |d| == |d0|
    requires 1 <= i < TOTAL_INODES && im[i] && t0[i].kind == File
    requires FuseOpenCheck(TreeOf(d0, t0, im), path, true) == (Done, i)
    requires InodeWritten(d0, t0, bm0, owner0, d, t, bm, owner, i, off, data, r, stored)
    ensures FuseWriteStep(Abs(TreeOf(d0, t0, im), FilesOf(d0, t0, im), fds, owner0.Values, ClearCount(bm0)),
                          path, off, data, true, if r == -1 then ENOSPC else Done, r,
                          Abs(TreeOf(d, t, im), FilesOf(d, t, im), fds, owner.Values, ClearCount(bm)))
    ensures TreeOf(d, t, im) == TreeOf(d0, t0, im)
  {
    hide Own, Content, MapGrown, PlacesKept, BytesStored, OthersSame, Img, TreeOf, FilesOf, ClearCount, PlaceAll,
         LinkAll, Stored, Kept, FreeKept, MapKept, BytesKept, Rooted, BackAt, FuseOpenCheck;
    FileAt(d0, t0, im, i);
    FileAt(d, t, im, i);
    FileChanged(d0, t0, d, t, im, i);
    var (k, owner', bm') := PlaceAll(owner0, bm0, i, off / BLOCK_SIZE, EndBlock(off, |data|));
    MappingIs(d0, t0, bm0, owner0, i, off / BLOCK_SIZE, EndBlock(off, |data|));
    if r != -1 && off + |data| > t0[i].size {
      assert data[..|data|] == data;
      StoredIs(d0, t0, bm0, owner0, d, t, i, off, off + |data|, data);
    } else {
      KeptIs(d0, t0, bm0, owner0, d, i, off, off + stored, data);
      BackAtIs(owner', owner0.Values, i);
    }
  }

  lemma FdsSame(fds: seq<Fd>, t: Table, t': Table, im: seq<bool>)
    requires FdsOk(fds, t, im) && |t'| == |t|
    requires forall i :: 0 <= i < |t| ==> t'[i].kind == t[i].kind && t'[i].size >= t[i].size
    ensures FdsOk(fds, t', im)
  {
  }

  lemma InodeWrittenTable(d0: Disk, t0: Table, bm0: seq<bool>, owner0: Owners,
                          d: Disk, t: Table, bm: seq<bool>, owner: Owners, i: nat, off: nat, data: seq<byte>, r: int,
                          stored: nat)
    requires i < |t0| == |t| && InodeWritten(d0, t0, bm0, owner0, d, t, bm, owner, i, off, data, r, stored)
    ensures forall j :: 0 <= j < |t| ==> t[j].kind == t0[j].kind && t[j].size >= t0[j].size
  {
    hide MapGrown, PlacesKept, BytesStored, OthersSame, Img, PlaceAll, FreeKept, MapKept, BytesKept, Rooted;
  }

  /** `fuse_write` on a file just opened. */
  method FuseWriteFile(v: Volume, path: Str, off: nat, data: seq<byte>, permitted: bool)
    returns (st: Status, r: int, ghost stored: nat)
    requires Fs(v) && off + |data| <= FUSE_LIMIT
    modifies v`disk, v`blockBits, v`bm, v`sb, v`gd, v`owner, v`inodes, v`table
    ensures Fs(v) && FuseWriteStep(old(AbsIn(v)), path, off, data, permitted, st, r, AbsIn(v))
    ensures TreeIn(v) == old(TreeIn(v))
    ensures st == FuseOpenCheck(old(TreeIn(v)), path, permitted).0 || st == ENOSPC
    ensures FuseOpenCheck(old(TreeIn(v)), path, permitted).0 == Done ==>
                           var i := FuseOpenCheck(old(TreeIn(v)), path, permitted).1;
                           && i < |old(v.inodes)| == |v.inodes|
                           && InodeWritten(old(v.disk), old(v.inodes), old(v.bm), old(v.owner),
                                           v.disk, v.inodes, v.bm, v.owner, i, off, data, r, stored)
    ensures v.im == old(v.im)
  {
    hide v.Meta, Own, FreeOwnNothing, TreeOk, Dense, FdsOk, TreeOf, FilesOf, FuseOpenCheck, ClearCount, InodeWritten,
         Fitting, Mapping, Kept, Stored, BackAt;
    SoundSizes(v);
    LimitIsAligned();
    var ino;
    st, ino := FuseOpen(v, path, permitted);
    if st != Done {
      return st, -1, 0;
    }
    PermittedOpen(TreeIn(v), path, permitted);
    r, stored := OscdfsWriteInode(v, ino, data, off);
    InodeWriteIsStep(old(v.disk), old(v.inodes), old(v.bm), old(v.owner), v.disk, v.inodes, v.bm, v.owner, v.im,
                     v.fds[..], path, ino, off, data, r, stored);
    FuseKeepsDense(old(v.disk), old(v.inodes), old(v.bm), old(v.owner), v.disk, v.inodes, v.bm, v.owner, ino, off,
                   data, r, stored, FUSE_LIMIT);
    InodeWrittenTable(old(v.disk), old(v.inodes), old(v.bm), old(v.owner), v.disk, v.inodes, v.bm, v.owner, ino, off,
                      data, r, stored);
    FdsSame(v.fds[..], old(v.inodes), v.inodes, v.im);
    st := if r == -1 then ENOSPC else Done;
  }

  lemma PermittedOpen(tr: Tree, path: Str, permitted: bool)
    ensures FuseOpenCheck(tr, path, permitted).0 == Done ==> permitted
  {
  }

  // ---- one command ----

  /** What a run keeps: the volume invariant, printable names, and the directory that relative paths start from. */
  ghost predicate Ready(v: Volume, start: nat)
    reads v, v.fds
  {
    Fs(v) && CleanNames(TreeIn(v)) && start in TreeIn(v).ents
  }

  lemma CreatedClean(tr: Tree, link: Links, depth: Depths, path: Str, start: nat, r: nat)
    requires TreeOk(tr, link, depth) && CleanNames(tr) && CreateTarget(tr, path, start).Some?
    requires 2 <= r < TOTAL_INODES && r !in tr.kind
    ensures var (d, name) := CreateTarget(tr, path, start).value;
            && d in tr.ents && CleanNames(AddNode(tr, d, name, r, File))
            && forall c :: c in tr.ents ==> c in AddNode(tr, d, name, r, File).ents
  {
    hide TreeOk, CleanNames, Lookup, SplitPath, Resolve, Added;
    var (d, name) := CreateTarget(tr, path, start).value;
    DotsFound(tr, link, depth, d, name);
    AddClean(tr, link, depth, d, name, r, File);
  }

  lemma MadeClean(tr: Tree, link: Links, depth: Depths, path: Str, permitted: bool, r: nat)
    requires TreeOk(tr, link, depth) && CleanNames(tr) && KernelPath(path) && MkdirCheck(tr, path, permitted).0 == Done
    requires 2 <= r < TOTAL_INODES && r !in tr.kind
    ensures var (_, d, name) := MkdirCheck(tr, path, permitted);
            && d in tr.ents && CleanNames(AddNode(tr, d, name, r, Dir))
            && forall c :: c in tr.ents ==> c in AddNode(tr, d, name, r, Dir).ents
  {
    hide TreeOk, CleanNames, Lookup, LastSlash, Resolve, Added, NewDir;
    var (_, d, name) := MkdirCheck(tr, path, permitted);
    DotsFound(tr, link, depth, d, name);
    AddClean(tr, link, depth, d, name, r, Dir);
  }

  method DeleteFile(v: Volume, start: nat, path: Str, permitted: bool) returns (r: int)
    requires Ready(v, start)
    modifies v
    ensures Ready(v, start) && DeleteStep(old(AbsIn(v)), start, path, permitted, r, AbsIn(v))
  {
    hide v.Meta, Own, FreeOwnNothing, Dense, FdsOk, TreeOk, TreeOf, FilesOf, CleanNames, DeleteTarget, RemoveNode,
         IsOpen, ClearCount, ClearedBy, OwnedBy, OfInode, Tidy, WithoutIno;
    ghost var tr, link, depth := TreeIn(v), v.link, v.depth;
    StartIsLive(tr, link, depth, start);
    DeletedClean(tr, link, depth, path, start);
    r := OscdfsDelete(v, path, start, permitted);
    if r == 0 {
      ReleasedCount(old(v.disk), old(v.inodes), old(v.bm), old(v.owner), v.bm, DeleteTarget(tr, path, start).value.2);
    }
  }

  method MakeDirectory(v: Volume, start: nat, path: Str, permitted: bool) returns (st: Status)
    requires Ready(v, start) && KernelPath(path) && path != []
    modifies v
    ensures Ready(v, start) && MkdirStep(old(AbsIn(v)), path, permitted, st, AbsIn(v))
  {
    hide v.Meta, Own, FreeOwnNothing, Dense, FdsOk, TreeOk, TreeOf, FilesOf, CleanNames, MkdirCheck, AddNode,
         KernelPath, ClearCount, Tidy, Place, Grow, LastSlash;
    KernelPathParts(path);
    SoundSizes(v);
    ghost var tr, link, depth := TreeIn(v), v.link, v.depth;
    ghost var made;
    st, made := FuseMkdir(v, path, permitted);
    FullIsZero(old(v.bm));
    if st == Done {
      MadeClean(tr, link, depth, path, permitted, made);
      NotInUse(old(v.disk), old(v.inodes), old(v.im), made);
      OneMore(old(v.disk), old(v.inodes), old(v.bm), old(v.owner), old(v.im), v.bm, v.owner, made);
      assert MadeDir(old(AbsIn(v)), MkdirCheck(tr, path, permitted).1, MkdirCheck(tr, path, permitted).2, made,
                     AbsIn(v));
    }
  }

  method RemoveDirectory(v: Volume, start: nat, path: Str, permitted: bool) returns (st: Status)
    requires Ready(v, start) && KernelPath(path) && !Removes(TreeIn(v), path, permitted, start)
    modifies v
    ensures Ready(v, start) && RmdirStep(old(AbsIn(v)), path, permitted, st, AbsIn(v))
  {
    hide v.Meta, Own, FreeOwnNothing, Dense, FdsOk, TreeOk, TreeOf, FilesOf, CleanNames, RmdirCheck, RemoveNode,
         KernelPath, ClearCount, Tidy, ClearedBy, OwnedBy, OfInode, WithoutIno, Resolve, BaseName, DirName;
    ghost var tr := TreeIn(v);
    st := FuseRmdir(v, path, permitted);
    if st == Done {
      RemovedClean(tr, path, start);
      assert permitted || RmdirCheck(tr, path, false) == Done;
      ReleasedCount(old(v.disk), old(v.inodes), old(v.bm), old(v.owner), v.bm, Resolve(tr, path, ROOT_INODE).value);
      EmptyIsDir(old(v.disk), old(v.inodes), old(v.im), path);
      FilesAlready(old(FilesIn(v)), Resolve(tr, path, ROOT_INODE).value);
    }
  }

  lemma FilesAlready(files: map<nat, seq<byte>>, i: nat)
    requires i !in files
    ensures files - {i} == files
  {
  }

  /** Runs one command on the volume: it answers as the simple file system may, and leaves the volume
      standing for the simple file system's next state. */
  method Execute(v: Volume, start: nat, cmd: Cmd) returns (ans: Answer)
    requires Ready(v, start) && CmdOk(cmd)
    requires cmd.Rmdir? ==> !Removes(TreeIn(v), cmd.path, cmd.permitted, start)
    modifies v, v.fds
    ensures Ready(v, start)
    ensures Step(old(AbsIn(v)), start, cmd, ans, AbsIn(v))
  {
    hide v.Meta, Mounted, TreeOk, TreeOf, FilesOf, CleanNames, CreateTarget, OpenTarget, AddNode, KernelPath,
         ClearCount, Tidy, ReadStep, WriteStep, DeleteStep, MkdirStep, RmdirStep, FuseReadStep, FuseWriteStep, Removes;
    ghost var tr, link, depth := TreeIn(v), v.link, v.depth;
    StartIsLive(tr, link, depth, start);
    FdTable(v);
    match cmd
    case Create(path, permitted) =>
      var r := OscdfsCreate(v, path, start, permitted);
      ans := Answer(r, [], Done);
      if r != -1 {
        CreatedClean(tr, link, depth, path, start, r);
      }
    case Open(path, mode, permitted) =>
      var r := OscdfsOpen(v, path, start, mode, permitted);
      ans := Answer(r, [], Done);
    case Close(fd) =>
      var r := OscdfsClose(v, fd);
      ans := Answer(r, [], Done);
    case Read(fd, n, permitted) =>
      var r, buf := ReadFile(v, fd, n, permitted);
      ans := Answer(r, buf, Done);
    case Write(fd, data, permitted) =>
      var r := WriteFile(v, fd, data, permitted);
      ans := Answer(r, [], Done);
    case Delete(path, permitted) =>
      var r := DeleteFile(v, start, path, permitted);
      ans := Answer(r, [], Done);
    case Mkdir(path, permitted) =>
      KernelPathParts(path);
      var st := MakeDirectory(v, start, path, permitted);
      ans := Answer(0, [], st);
    case Rmdir(path, permitted) =>
      var st := RemoveDirectory(v, start, path, permitted);
      ans := Answer(0, [], st);
    case FuseRead(path, off, n, permitted) =>
      var st, buf := FuseReadFile(v, path, off, n, permitted);
      ans := Answer(0, buf, st);
    case FuseWrite(path, off, data, permitted) =>
      var st, r, _ := FuseWriteFile(v, path, off, data, permitted);
      ans := Answer(r, [], st);
  }

  lemma EmptyIsDir(d: Disk, t: Table, im: seq<bool>, path: Str)
    requires RmdirCheck(TreeOf(d, t, im), path, true) == Done
    ensures Resolve(TreeOf(d, t, im), path, ROOT_INODE).Some?
    ensures Resolve(TreeOf(d, t, im), path, ROOT_INODE).value !in FilesOf(d, t, im)
  {
    hide Ents, Content, Resolve, EmptyDir;
  }

  /** The one block of a new directory. */
  lemma OneMore(d: Disk, t: Table, bm: seq<bool>, owner: Owners, im: seq<bool>, bm': seq<bool>, owner': Owners,
                made: nat)
    requires Own(d, t, bm, owner) && FreeOwnNothing(im, owner) && 1 <= made < TOTAL_INODES == |im| && !im[made]
    requires Place(owner, bm, Slot(made, 0)) == (true, owner', bm')
    ensures ClearCount(bm) > 0 && ClearCount(bm') == ClearCount(bm) - 1
    ensures owner'.Values == owner.Values + {Slot(made, 0)}
  {
    hide Own, ClearCount, Place, UpClosed;
    OwnSpace(d, t, bm, owner);
    PlaceFacts(owner, bm, Slot(made, 0));
    assert LocIno(Slot(made, 0)) == made;
    assert forall b :: b in owner ==> owner[b] != Slot(made, 0);
  }

  lemma StartIsLive(tr: Tree, link: Links, depth: Depths, start: nat)
    requires TreeOk(tr, link, depth) && start in tr.ents
    ensures start in tr.kind && tr.kind[start] == Dir
  {
    hide LinksOk, DirsOk, DepthOk;
  }

  lemma NotInUse(d: Disk, t: Table, im: seq<bool>, i: nat)
    requires |t| == |im| == TOTAL_INODES && 1 <= i < TOTAL_INODES && i !in TreeOf(d, t, im).kind
    ensures !im[i]
  {
    hide Ents;
    TreeAt(d, t, im, i);
  }

  lemma FdTable(v: Volume)
    requires Mounted(v)
    ensures v.fds.Length == MAX_OPEN_FILES
  {
    hide v.Meta, Own, FreeOwnNothing, Dense;
    FdCount(v.fds[..], v.inodes, v.im);
  }

  lemma KernelPathParts(path: Str)
    requires KernelPath(path)
    ensures path != [] && LastSlash(path) < MAX_CMD_LEN
  {
  }

  lemma DeletedClean(tr: Tree, link: Links, depth: Depths, path: Str, start: nat)
    requires TreeOk(tr, link, depth) && CleanNames(tr)
    ensures DeleteTarget(tr, path, start).Some? ==>
              var (d, name, i) := DeleteTarget(tr, path, start).value;
              && d in tr.ents && CleanNames(RemoveNode(tr, d, name, i)) && i !in tr.ents
              && forall c :: c in tr.ents ==> c in RemoveNode(tr, d, name, i).ents
  {
    hide LinksOk, DirsOk, DepthOk, CleanNames, Lookup, SplitPath, Resolve, Removed;
    if DeleteTarget(tr, path, start).Some? {
      var (d, name, i) := DeleteTarget(tr, path, start).value;
      RemoveClean(tr, d, name, i);
    }
  }

  lemma RemovedClean(tr: Tree, path: Str, start: nat)
    requires CleanNames(tr) && KernelPath(path)
    ensures RmdirCheck(tr, path, true) == Done ==> Resolve(tr, path, ROOT_INODE).Some?
    ensures RmdirCheck(tr, path, false) != Done
    ensures var i, parent := Resolve(tr, path, ROOT_INODE), Resolve(tr, DirName(path), ROOT_INODE);
            i.Some? && parent.Some? && parent.value in tr.ents ==>
              var tr' := RemoveNode(tr, parent.value, BaseName(path), i.value);
              && CleanNames(tr')
              && (i.value != start && start in tr.ents ==> start in tr'.ents)
  {
    hide CleanNames, Resolve, BaseName, DirName, Removed;
    var i, parent := Resolve(tr, path, ROOT_INODE), Resolve(tr, DirName(path), ROOT_INODE);
    if i.Some? && parent.Some? && parent.value in tr.ents {
      RemoveClean(tr, parent.value, BaseName(path), i.value);
    }
  }

  // ---- runs ----

  lemma RootStays(tr: Tree, link: Links, depth: Depths, path: Str, permitted: bool)
    requires TreeOk(tr, link, depth) && KernelPath(path)
    ensures !Removes(tr, path, permitted, ROOT_INODE)
  {
    hide TreeOk, LastSlash, BaseName, DirName, WalkAll, Tokens, EmptyDir;
    if Resolve(tr, path, ROOT_INODE) == Some(ROOT_INODE) {
      ResolveLast(tr, path, ROOT_INODE);
      FoundInParent(tr, link, depth, Resolve(tr, DirName(path), ROOT_INODE).value, BaseName(path), ROOT_INODE);
    }
  }

  /** Would this rmdir take away the directory that relative paths start from? */
  method WouldRemove(v: Volume, start: nat, path: Str, permitted: bool) returns (yes: bool)
    requires Ready(v, start) && KernelPath(path)
    modifies v`disk, v`blockBits, v`bm, v`sb, v`gd, v`owner
    ensures Ready(v, start) && AbsIn(v) == old(AbsIn(v)) && TreeIn(v) == old(TreeIn(v))
    ensures yes == Removes(TreeIn(v), path, permitted, start)
    ensures start == ROOT_INODE ==> !yes
  {
    hide v.Meta, Own, FreeOwnNothing, Dense, FdsOk, TreeOk, TreeOf, FilesOf, CleanNames, KernelPath, Resolve, EmptyDir,
         Ents, FirstHit, ClearCount, Removes;
    SoundSizes(v);
    RootDepth(TreeIn(v), v.link, v.depth);
    if start == ROOT_INODE {
      RootStays(TreeIn(v), v.link, v.depth, path, permitted);
    }
    var ino := FindInodeByPath(v, path, ROOT_INODE);
    yes := false;
    if ino == start && permitted {
      TreeAt(v.disk, v.inodes, v.im, ino);
      EmptyScan(TreeIn(v), v.link, v.depth, ino);
      var inode: Inode, ok: bool;
      ok, inode := ReadInode(v, ino);
      var used := HoldsMore(v, inode, ino);
      yes := !used;
    }
    RemovesWhen(TreeIn(v), path, permitted, start);
  }

  lemma RemovesWhen(tr: Tree, path: Str, permitted: bool, start: nat)
    requires start in tr.ents
    ensures Removes(tr, path, permitted, start)
            <==> Resolve(tr, path, ROOT_INODE) == Some(start) && EmptyDir(tr.ents[start]) && permitted
  {
    hide Resolve, EmptyDir;
  }

  lemma ReadyFacts(v: Volume, start: nat)
    requires Ready(v, start)
    ensures AbsOk(AbsIn(v))
  {
    hide Fs, CleanNames, AbsIn, AbsOk, TreeOf;
    AbsFacts(v);
  }

  /** Every run of the block-level code is a history of the simple file system through proper states, and ends
      in a volume that satisfies the whole invariant. It ends early only before a command that would remove the
      directory that relative paths start from, which the root never is. */
  method Run(v: Volume, start: nat, cmds: seq<Cmd>) returns (answers: seq<Answer>, ghost trace: seq<Abs>)
    requires Ready(v, start)
    requires forall k :: 0 <= k < |cmds| ==> CmdOk(cmds[k])
    modifies v, v.fds
    ensures Ready(v, start) && |answers| <= |cmds|
    ensures History(trace, start, cmds[..|answers|], answers) && forall k :: 0 <= k < |trace| ==> AbsOk(trace[k])
    ensures trace[0] == old(AbsIn(v)) && trace[|answers|] == AbsIn(v)
    ensures |answers| < |cmds| ==> var cmd := cmds[|answers|];
                                   cmd.Rmdir? && Removes(trace[|answers|].tree, cmd.path, cmd.permitted, start)
    ensures start == ROOT_INODE ==> |answers| == |cmds|
  {
    hide Ready, CmdOk, Step, AbsIn, AbsOk, Removes, TreeIn, KernelPath;
    answers := [];
    trace := [AbsIn(v)];
    ReadyFacts(v, start);
    for k := 0 to |cmds|
      invariant Ready(v, start)
      invariant |answers| == k && |trace| == k + 1
      invariant trace[0] == old(AbsIn(v)) && trace[k] == AbsIn(v)
      invariant forall j :: 0 <= j < k ==> Step(trace[j], start, cmds[j], answers[j], trace[j + 1])
      invariant forall j :: 0 <= j <= k ==> AbsOk(trace[j])
    {
      if cmds[k].Rmdir? {
        RmdirPath(cmds[k]);
        var stop := WouldRemove(v, start, cmds[k].path, cmds[k].permitted);
        TreeInAbs(v);
        if stop {
          return;
        }
      }
      var ans := Execute(v, start, cmds[k]);
      ReadyFacts(v, start);
      answers := answers + [ans];
      trace := trace + [AbsIn(v)];
    }
    assert cmds[..|cmds|] == cmds;
  }

  lemma RmdirPath(cmd: Cmd)
    requires CmdOk(cmd) && cmd.Rmdir?
    ensures KernelPath(cmd.path)
  {
    hide KernelPath;
  }

  lemma TreeInAbs(v: Volume)
    ensures AbsIn(v).tree == TreeIn(v)
  {
  }
}
